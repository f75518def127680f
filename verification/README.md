# Verified models of the Pola core

This project models, in Dafny, the parts of the Pola framework that hold hard
properties, and proves those properties for all inputs, all runs and all
interleavings. `dafny verify dfyconfig.toml` checks everything. Code that changes
state is written as methods on classes and loops, and is proved against
specification functions; what the repository promises is then proved about those
functions as lemmas.

| file | what it models |
|---|---|
| `Strings.dfy` | options, `strings.Split` and `strings.Join` |
| `PatternMatch.dfy`, `Specificity.dfy` | pattern compilation, the regular-expression matcher, the specificity sort |
| `Radix.dfy` | the route trie as a graph of nodes updated in place, and its backtracking search |
| `RouteSearch.dfy`, `RouteTheorems.dfy` | the search stated on route lists; best match, order independence, agreement with the regular expressions |
| `RouteSpelling.dfy` | pattern text read back; the orders of routes spelled out |
| `RouteNaming.dfy` | over all the paths a route answers, whose names its parameters get; where the two matchers part |
| `Validate.dfy`, `Sanitize.dfy`, `SizeTheorems.dfy` | the argument validator's walk; what its verdict and its result mean, node by node |
| `VmPool.dfy` | the bounded VM pool as a protocol of atomic steps of any number of clients |
| `Watcher.dfy` | the two-tier file poller |
| `Utf8.dfy`, `Microtasks.dfy`, `Promises.dfy`, `Streams.dfy` | the JavaScript polyfills and the Go loop that drains a stream |
| `WatchPipeline.dfy` | the coalescing rebuild pipeline |
| `EventBus.dfy`, `EventBusRuns.dfy` | the event bus, one client at a time and under concurrent clients |
| `Directive.dfy`, `DirectiveStandard.dfy` | the `use server` prologue scanner; the directives of ECMA-262 |
| `EscapeLike.dfy` | LIKE escaping against the LIKE predicate |
| `TsInterfaces.dfy`, `TsTheorems.dfy`, `TsOrder.dfy` | the TypeScript interface worklist and its runs; the right interfaces; when map order shows |
| `TsText.dfy` | what the text of a type says when it is read |
| `RoutePattern.dfy` | URL patterns derived from package paths |

Where the code and a natural reading of it, or its comments, part ways, the model
follows the code and the project says exactly when the reading holds:

- The sort puts longer patterns first, but at the end of a path the trie prefers
  the pattern that ends there over an optional catch-all. The reference order of
  `LookupIsBest` therefore puts a pattern that ends before one that continues.
- A wildcard node keeps the name of the first route through it. Parameters are
  those of the returned route on every path it answers if and only if the names on
  its way agree (`NamesDecide`; path by path `BindingsFollowNames` and
  `ParametersAgreeExactly`; witness `NamingCanDisagree`).
- The regular expressions reject empty parameters, empty rests and line feeds in
  catch-alls, and put up with one final slash; the trie does neither.
  `ReferenceAccepts` is exact for every path that starts with a slash;
  `EmptyForTrieOnly` and `SlashForExpressionOnly` are a request for each side.
  Catch-alls are decoded before splitting there and after splitting in the trie
  (`CatchAllValuesAgree` is exact).
- The poller's comment speaks of a full scan every 2 seconds or so, which is 20
  ticks. How many checks are needed is exact (`CoverExactly`): 20 ticks make them
  after a rebuilt scan order, from any position they do if and only if at most 640
  paths are scanned (`TwentyTicks`), and 40 ticks always do. The length comparison
  in `rescan` can be misled only by repeated paths, and `Rescan` says exactly when.
- A stream whose source calls `error` ends like one that was closed, and both finish
  the session (`AcceptedExactly`, `SessionEnds`). Decoding is done chunk by chunk; a chunk may be cut off whatever follows if and only if the
  decoder throws on it or takes exactly its octets (`CutsExactly`), as it does for
  encoder outputs.
- The prologue scanner is looser than section 11.2.1 of ECMA-262, 13th edition: it
  does not look behind the literal, so `"use server" + x` declares
  (`ExpressionDeclares`), and a literal may span lines. The grammar in `Directive.dfy`
  is the one the code accepts; a source it accepts declares by the standard's
  directives too if and only if every literal up to `use server` is on one line and
  ends its statement (`StandardExactly`), on sources that are otherwise well formed.
  White space and comments are the scanner's in both readings: it knows no form feed,
  vertical tab or Unicode space, and ends a line comment at a line feed only.
- EscapeLike keeps invalid UTF-8 on its fast path and replaces it otherwise, so a
  text with both an invalid byte and a wildcard is not found
  (`ExactUnlessBadAndSpecial`, `BadByteIsLost`).
- Interfaces are registered by bare name. With two structs of one name within
  reach, one of them gets the other's interface (`FaithfulIffCoherent`), and which
  one can depend on map iteration, so that two runs over the same structs emit
  different interfaces (`OrderCanMatter`). The order of the interfaces
  is determined exactly when no field brings in two new names (`TextIsDetermined`).
  An embedded type that is not a struct is named in `extends` but emitted only if
  a registered struct shares its name (`ParentsAreEmitted`).
- The text of a slice of pointers, `X | null[]`, lists only the `null` when it is
  read by TypeScript's precedences. The text of a type says what is meant if and
  only if no slice or array has pointers for elements (`TextIsFaithful`).
- An Acquire that has begun to wait is woken by a returned VM only: a token that a
  failed creation frees does not let it go on (`OnlyWaitingBlocks`). When it decides,
  waiting and capacity agree exactly (`CapacityDecides`).

Inputs from outside become parameters: the disk is a function from paths to
snapshots, a factory a function from call numbers to VMs, the source of a stream a
list of actions around each pull, user code any number of calls and an answer that
says how it comes back and what it leaves alone, and every map
iteration or shuffle an arbitrary choice.

## Model

| member | source | states |
|---|---|---|
| PatternMatch.CompilePattern | patternmatch/patternmatch.go:36-99 | the compile loop builds the pieces, parameter names and kinds, segment kinds and static flag of the very segments the trie parses |
| PatternMatch.ParseWellFormed | patternmatch/radix.go:67-93 | every pattern parses to slash-free segments with any catch-all last, and only the root pattern parses to none |
| RouteSpelling.SpelledReadsBack | patternmatch/radix.go:68-93 | segments written as pattern text (the literal, `:name`, `:...name`, `:...name?`) are read back as they were if and only if no text looks like another kind's and they are not the lone empty literal, which is written as the root |
| RouteSpelling.ParsedSpellsBack | patternmatch/radix.go:72-92 | what the parser reads, written again, is the pattern up to its catch-all, and the whole of it if and only if nothing follows one |
| RouteSpelling.SpelledCompiles | patternmatch/patternmatch.go:57-98 | a written pattern compiles to its kinds, and is static exactly when it has no parameter |
| RouteSpelling.MarkDecides | patternmatch/radix.go:75-83 | where the segments before it match all of a path, a table of `:...name` misses the path and one of `:...name?` answers it |
| RouteSpelling.DocsNeedMore | patternmatch/radix.go:75-83 | `/docs` is missed by `/docs/:...path` and answered by `/docs/:...path?` |
| PatternMatch.Match | patternmatch/patternmatch.go:103-125 | for every compiled route and path the capture loop accepts exactly what the expression does and returns exactly the reference match: one decoded text per parameter, a list per catch-all, nothing for an empty capture |
| PatternMatch.CompiledCaptures | patternmatch/patternmatch.go:57-98 | a compiled route has one name and one kind for each text its expression captures, so the capture loop never reads out of range |
| Specificity.RouteLessTotal | patternmatch/patternmatch.go:131-146 | the sort's comparison decides any two routes that differ in pattern or kinds, and never both ways |
| Specificity.RouteLessTransitive | patternmatch/patternmatch.go:131-146 | the comparison is transitive |
| Specificity.SortBySpecificity | patternmatch/patternmatch.go:130-147 | sorting in place leaves the stable sort of the old contents |
| Specificity.SortedRoutesSorted | patternmatch/patternmatch.go:127-147 | no later element of the stable sort compares below an earlier one |
| Specificity.SortedRoutesPermutes | patternmatch/patternmatch.go:130-147 | the stable sort is a permutation |
| Specificity.SortForgetsOrder | patternmatch/patternmatch.go:127-147 | two listings of the same compiled routes sort to the same list |
| Specificity.SortIsStable | patternmatch/patternmatch.go:130-131 | routes that compare neither way stay in the order in which they were listed |
| RouteSpelling.SortedAhead | patternmatch/patternmatch.go:127-147 | of two sorted routes, at the first difference of kinds the earlier one's beats the later one's (literal, parameter, catch-all, optional catch-all), or it goes on where the other ends; with the same kinds it does not stand later in the dictionary |
| RouteSpelling.LessExactly | patternmatch/patternmatch.go:145-145 | the tie-break is the dictionary order: a proper prefix, or the smaller octet at the first difference |
| Radix.ParseSegments | patternmatch/radix.go:68-93 | the parsing loop computes the segments of the pattern, stopping at a catch-all |
| Radix.RouteTable.Place | patternmatch/radix.go:96-151 | the walk of insert creates what is missing and gives the route its slot unless an earlier one has it; every other node keeps its content |
| Radix.RouteTable.InsertRoute | patternmatch/radix.go:95-151 | the node graph stays a tree without sharing whose slots and wildcard names are owned by the first inserted route that claims them |
| Radix.RouteTable.TryWild | patternmatch/radix.go:202-222 | the wildcard branch binds, searches below, and puts the shared params back when that fails |
| Radix.RouteTable.MatchNode | patternmatch/radix.go:175-253 | the search over nodes refines the search over the list of inserted routes: a failure leaves the params as they were, a success adds exactly the bindings of its path |
| Radix.RouteTable.Match | patternmatch/radix.go:153-164 | the answer and the params are those of the search from the root on the normalised, split path |
| Radix.NewRouteTable | patternmatch/radix.go:46-59 | the table holds the routes in sorted order |
| RouteSearch.SearchBest | patternmatch/radix.go:175-253 | below any node the search fails exactly when no route matches, and otherwise finds a matching route that no other match beats |
| RouteSearch.SearchFindsBest | patternmatch/radix.go:47-59 | on the sorted routes the search answers exactly when some pattern matches segment by segment, with the least such route |
| RouteSearch.BestIsUnique | patternmatch/radix.go:153-156 | at most one route is the least match, so it can be called the answer |
| RouteSearch.TieBreakIsAlphabetical | patternmatch/patternmatch.go:145-145 | for patterns that start with a slash and have equal kinds, only the alphabetical order of the patterns is left to decide |
| RouteTheorems.LookupByTable | patternmatch/radix.go:47-59 | a table built from the routes answers a request with the lookup that the theorems are about |
| RouteTheorems.LookupIsBest | patternmatch/radix.go:153-164 | for every route list and path the trie answers exactly when some pattern matches, with the least match in the reference order (a pattern that ends before one that continues) |
| RouteSpelling.AnswerIsAhead | patternmatch/radix.go:175-253 | against any other matching route, at the first difference of kinds the answer's beats the other's or the answer ends there; with the same kinds it stands first in the dictionary, or is the root |
| RouteSpelling.FinalSlashIgnored | patternmatch/patternmatch.go:149-155 | a path and the path with one more slash at its end get the same answer, the empty path that of the root |
| RouteSpelling.UnescapesEscaped | patternmatch/patternmatch.go:114-117 | unescaping undoes the percent-encoding of every octet string, with digits of either case |
| RouteTheorems.LookupForgetsOrder | patternmatch/radix.go:47-59 | route and parameters do not depend on the order in which the routes are listed |
| RouteTheorems.SearchBindings | patternmatch/radix.go:202-252 | a successful search binds exactly the values along the trie path of the route it returns, and nothing from branches it gave up |
| RouteTheorems.BindingsFollowNames | patternmatch/radix.go:113-118 | those bindings are the route's own if and only if every wildcard on its way carries the name the route gives it |
| RouteTheorems.PiecesAgree | patternmatch/patternmatch.go:57-89 | on every rendered path the pieces of a pattern accept exactly when the segments match, no parameter or rest is empty and no rest holds a line feed, for the path as it is or without one final slash, and capture what the segments say |
| RouteTheorems.ReferenceAccepts | patternmatch/patternmatch.go:57-107 | on every path that starts with a slash, final slash or not, the reference matcher accepts a compiled route under exactly that condition, with exactly those captures |
| RouteTheorems.CatchAllValuesAgree | patternmatch/patternmatch.go:114-119 | decoding then splitting a catch-all equals splitting then decoding if and only if every segment unescapes to slash-free text, or some segment does not unescape at all and the others are not changed by unescaping |
| RouteTheorems.TrieAgreesWithReference | patternmatch/radix.go:156-164 | on plain paths the trie finds a route exactly when the reference matcher accepts some route, and with coherent names the parameters are the same map |
| RouteTheorems.ParametersAgreeExactly | patternmatch/radix.go:113-118 | for a hit with distinct names and pairwise distinct values the two parameter maps are equal if and only if the trie names the wildcards on its way as the route does |
| RouteNaming.NamesDecide | patternmatch/radix.go:113-118 | a route that answers some plain path and names its parameters apart gets the reference's parameters on every plain path it answers whose catch-all unescapes alike, coinciding values included, if and only if the trie names the wildcards on its way as the route does |
| RouteTheorems.NamingCanDisagree | patternmatch/radix.go:113-118 | with `/:a/x` and `/:b/y` the request `/1/y` gets its parameter under the other route's name |
| RouteNaming.SlashForExpressionOnly | patternmatch/patternmatch.go:89-89 | `/a//` is normalised to `/a/`, which the expression of `/a` accepts and the trie misses |
| RouteNaming.EmptyForTrieOnly | patternmatch/patternmatch.go:77-79 | on `//x` the trie answers with `/:a/x`, whose expression refuses the empty parameter |
| Validate.ValidationContext.Bump | serveraction/validate.go:68-74 | the counter grows by the count, and the answer is an error exactly when it passes the maximum while a fork was seen |
| Validate.ValidateArray | serveraction/validate.go:122-140 | the array branch has the effect the walk specification states, failures below an element included |
| Validate.ValidateObject | serveraction/validate.go:141-156 | the object branch has that effect for every order of taking the keys |
| Validate.ValidateValue | serveraction/validate.go:92-161 | the walk adds exactly the node's size and fork to the context, answers the sanitized value when every kept node is within its limits, and fails only when the very limit the failure names is broken by a kept node, or the total is |
| Validate.SizeFieldsAnyKey | serveraction/validate.go:146-155 | the size of an object does not depend on the key taken first |
| Validate.ValidateAndSanitizeArgs | serveraction/validate.go:76-90 | arguments are accepted exactly when every kept node is within its limits and not both the total is too large and some kept array forks; the result is the sanitized list; the failure names a limit that some kept node breaks, or the total |
| SanitizeTheorems.AllOkIsEveryKeptNode | serveraction/validate.go:92-161 | the recursive limit check holds exactly when every node that no dangerous key leads to is within its limits |
| SanitizeTheorems.HasForkIsSomeKeptArray | serveraction/validate.go:126-128 | the latched flag means that some kept array has more than one element |
| SizeTheorems.SizeIsSum | serveraction/validate.go:100-156 | what the walk counts of a value is the sum, over the paths of its kept nodes, of the string lengths and of the array lengths plus one |
| SizeTheorems.KeptPathsAre | serveraction/validate.go:145-156 | those paths are exactly the ones that lead to a node and through no dangerous key |
| SizeTheorems.AcceptableByNodes | serveraction/validate.go:63-90 | a list is acceptable if and only if each kept node is within its depth, length and number limits and, if some kept array has two elements, the sum over all kept nodes is at most the maximum |
| SizeTheorems.BreaksIsSomeKeptNode | serveraction/validate.go:92-161 | the limit that a failure names is broken if and only if it is broken by a node at some kept path |
| SanitizeTheorems.SanitizedAt | serveraction/validate.go:145-156 | path by path the sanitized value has exactly the kept nodes of the input, so no dangerous key anywhere |
| SizeTheorems.SanitizedKeys | serveraction/validate.go:163-173 | at a kept node, a key survives if and only if it is none of the seven names |
| SanitizeTheorems.SanitizeKeepsNode | serveraction/validate.go:132-155 | at a kept node nothing changes but that dangerous keys are gone |
| SanitizeTheorems.SanitizeIdempotent | serveraction/validate.go:163-173 | sanitizing twice is sanitizing once |
| SanitizeTheorems.RevalidationIsIdentity | serveraction/validate.go:76-90 | a sanitized argument list is accepted again and comes back unchanged |
| VmPool.Config.Defaults | vmpool/vmpool.go:39-49 | sizes that are not positive become 1 and 64, and the minimum is cut to the maximum |
| VmPool.Pool.DrainAndDispose | vmpool/vmpool.go:149-161 | what is idle is disposed in order, with one token given back for each |
| VmPool.New | vmpool/vmpool.go:63-88 | New succeeds exactly when its factory calls do, with their VMs idle and a token each, which is an initial state of the protocol exactly when the VMs are distinct; a failure disposes the VMs already made |
| VmPool.CountedStep | vmpool/vmpool.go:93-161 | one token per idle VM, held VM or client under way is kept by every step |
| VmPool.PlacedStep | vmpool/vmpool.go:93-161 | every step keeps each created VM in exactly one place: idle, held, carried by one client, or disposed once |
| VmPool.StepKeepsInv | vmpool/vmpool.go:93-161 | every step of every client keeps the pool's invariant |
| VmPool.RunKeepsInv | vmpool/vmpool.go:93-161 | the invariant holds in every state of every interleaving |
| VmPool.TokensConserved | vmpool/vmpool.go:93-161 | tokens equal idle plus held plus in-flight VMs and never exceed the maximum; at rest the created VMs are those idle, held and disposed |
| VmPool.CapacityDecides | vmpool/vmpool.go:101-117 | in every reachable state an Acquire that found nothing idle can create if and only if fewer than MaxSize VMs are idle, held or under way, and starts to wait if and only if MaxSize are |
| VmPool.TriedInVain | vmpool/vmpool.go:94-117 | whoever creates or waits has found the idle channel empty in the same call |
| VmPool.OnlyWaitingBlocks | vmpool/vmpool.go:93-161 | in every reachable state every client inside a call can take a step, except an Acquire that waits on an empty idle channel |
| VmPool.ReleaseNeverBlocks | vmpool/vmpool.go:119-135 | a returning VM always finds room in the idle channel and a freed token is always there to take |
| VmPool.DisposedForGood | vmpool/vmpool.go:124-161 | a disposed VM is never idle, handed out or carried again, nor disposed twice |
| VmPool.CloseDrains | vmpool/vmpool.go:137-161 | when the first Close has returned, no VM is idle that was idle when it began, then or ever after |
| VmPool.HandedOutOnce | vmpool/vmpool.go:93-117 | an Acquire hands out the VM that has been idle longest, or the one it created, which nobody holds or carries and which was not disposed |
| VmPool.LiveNeverDrops | vmpool/vmpool.go:93-135 | before Close the live VMs only grow and there are at least MinSize, which is at least 1, failing factories or not |
| VmPool.BlockedMeansBusy | vmpool/vmpool.go:114-117 | an Acquire blocked on the empty idle channel of an open pool waits for a VM that a client holds or is giving back |
| VmPool.WaitsForGood | vmpool/vmpool.go:114-135 | once the pool is closed, drained and nobody is giving a VM back, an Acquire that waits stays waiting in every later state |
| Watcher.ItemsPerIter | watcher/watcher.go:270-285 | a tick takes all paths or at least 64 of them, and beyond 64 no more than it needs for 20 ticks to take them all |
| Watcher.Poller.constructor | watcher/watcher.go:53-60 | a new poller watches nothing and is well formed |
| Watcher.Poller.SetPaths | watcher/watcher.go:72-101 | exactly the given paths are watched, known entries survive, recent paths that stay keep their order, and the partition holds again |
| Watcher.Poller.PruneRecent | watcher/watcher.go:88-97 | the in-place filter keeps the recent paths still watched, in order, and the mirror set with them |
| Watcher.FilterConcat | watcher/watcher.go:88-97 | the filter takes the paths one by one, in order |
| Watcher.Poller.Rescan | watcher/watcher.go:144-166 | it answers whether a new path appeared; the watched set follows the collected one unless, exactly, paths vanished and repetitions hide it; for duplicate-free input it always does |
| Watcher.Poller.Poll | watcher/watcher.go:168-229 | a quiet tick checks every recent path and the tick's share of the others, each of which is missing as before or there with the stored size, mode and time and no other content, and changes nothing but the scan; a firing one stores one path that differs in one of these and makes it recent |
| Watcher.Poller.CheckPath | watcher/watcher.go:200-229 | it reports a change exactly when one snapshot is missing and the other not, or size, mode or time differ, or both contents were read and differ, and then stores the snapshot |
| Watcher.Poller.PromoteToRecent | watcher/watcher.go:251-268 | a path joins the end of the recent list, the oldest leaves when 16 are there, and the partition holds again |
| Watcher.Poller.RebuildScanOrder | watcher/watcher.go:287-298 | the scan order becomes a permutation of the paths that are not recent, from the start |
| Watcher.Poller.ShuffleScanOrder | watcher/watcher.go:300-305 | any run of swaps leaves a permutation |
| Watcher.CoverFromStart | watcher/watcher.go:180-196 | from a rebuilt order as many checks as there are paths check every path |
| Watcher.CoverFromAnywhere | watcher/watcher.go:180-196 | from any state the rest of the order and then as many checks as there are paths do, whatever each reshuffle picks |
| Watcher.CoverExactly | watcher/watcher.go:180-196 | every run of c checks sees all n paths if and only if c is at least n from the start of an order, or 2n less the position from anywhere else |
| Watcher.PollTicks | watcher/watcher.go:168-198 | when quiet ticks make that many checks, every watched path was seen unchanged on some tick's disk; a firing tick found and stored one changed path |
| Watcher.EnoughTicks | watcher/watcher.go:272-285 | 20 ticks make enough checks after a rebuild, and 40 from any position |
| Watcher.TwentyTicks | watcher/watcher.go:36-38 | the full scan in 20 ticks, about 2 seconds, is certain from every position if and only if at most 640 paths are scanned |
| Utf8.Masks | engine/polyfill/polyfill.go:137-147 | the bit operations on octets equal the arithmetic the model uses |
| Utf8.PointMasks | engine/polyfill/polyfill.go:93-103 | the shifts and masks on code points equal the arithmetic the model uses |
| Utf8.EncodeUTF8 | engine/polyfill/polyfill.go:85-109 | the encoder loop emits the octets of one code point after another |
| Utf8.EncodesAsRfc3629 | engine/polyfill/polyfill.go:89-106 | the octets of a code point are those that section 3 of RFC 3629 prescribes, and no others are |
| Utf8.PairsInOrder | engine/polyfill/polyfill.go:88-88 | surrogate pairs are numbered in order from U+10000 to U+10FFFF |
| Utf8.FromCodePointExactly | engine/polyfill/polyfill.go:133-150 | `fromCodePoint` throws exactly beyond U+10FFFF, and what it yields is read as that code point |
| Utf8.DecodeBytes | engine/polyfill/polyfill.go:126-153 | the decoder loop computes the decoding, and throws where fromCodePoint does |
| Utf8.PointRoundTrip | engine/polyfill/polyfill.go:133-150 | the decoder reads a code point back and takes exactly its octets |
| Utf8.DecodeEncodePrefix | engine/polyfill/polyfill.go:85-153 | the octets of a string followed by anything decode to the string followed by its decoding |
| Utf8.RoundTrip | engine/polyfill/polyfill.go:85-153 | decoding undoes encoding for every sequence of code units, unpaired surrogates included |
| Utf8.DecodeJoinedChunks | engine/polyfill/polyfill.go:126-153 | encoder outputs decode the same joined as chunk by chunk |
| Utf8.EncodeConcat | engine/polyfill/polyfill.go:85-109 | encoding piecewise is encoding the whole if and only if the cut does not split a surrogate pair |
| Utf8.CutsExactly | engine/polyfill/polyfill.go:126-153 | decoding a chunk and then what follows gives the decoding of both together, whatever follows, if and only if the decoder throws on the chunk or takes exactly its octets |
| Utf8.ChunkBoundariesMatter | engine/goja/goja.go:467-473 | the two octets of U+00E9 decoded apart come out as U+00C0 and U+40000 |
| Microtasks.MicrotaskQueue.QueueMicrotask | engine/polyfill/polyfill.go:66-68 | the task goes to the end of the queue and nothing runs |
| Microtasks.MicrotaskQueue.DrainMicrotasks | engine/polyfill/polyfill.go:70-79 | the drain ends in the state after that many batches, each of which found tasks and ran them all; a queue that any number of batches up to 5000 empties is emptied, and otherwise 5000 batches have run |
| Microtasks.BatchesAreFifo | engine/polyfill/polyfill.go:70-79 | any number of batches is a run of the one-at-a-time queue, of at least one task for each batch that found the queue not empty |
| Microtasks.MicrotaskQueue.DrainAgain | engine/polyfill/polyfill.go:70-79 | a drain cut off at the cap goes on where it stopped: the two run as many batches as one drain of their sum, and lose nothing |
| Microtasks.FifoKeepsOrder | engine/polyfill/polyfill.go:66-79 | tasks run in the order in which they were queued, and none is dropped |
| Microtasks.FifoAdd | engine/polyfill/polyfill.go:70-79 | running j tasks and then k is running j + k |
| Promises.Runtime.Resolve | engine/polyfill/polyfill.go:316-343 | a settled promise stays; a pending one is fulfilled by a plain value, rejected by itself or by a throwing getter, and left pending by a thenable with an adoption job queued, and its handlers become jobs in order |
| Promises.Runtime.Reject | engine/polyfill/polyfill.go:345-350 | only a pending promise is rejected, and its handlers become jobs in order |
| Promises.Runtime.Flush | engine/polyfill/polyfill.go:352-356 | every handler of a promise that has just settled becomes a job, first registered first, and the books balance again |
| Promises.Runtime.Register | engine/polyfill/polyfill.go:377-381 | a reaction joins the handlers of a pending promise or the queue, never both |
| Promises.Runtime.Then | engine/polyfill/polyfill.go:374-383 | one reaction is registered, a fresh pending promise is returned, and no job runs |
| Promises.Runtime.CallSettler | engine/polyfill/polyfill.go:329-331 | of the two functions of an adoption the first call settles the promise and the rest do nothing |
| Promises.Runtime.Call | engine/polyfill/polyfill.go:358-372 | one call of a callback with its argument and outcome is recorded and no job runs in it; user code comes back as its answer says and leaves alone what the answer leaves alone, and a function of an adoption settles its promise the first time and no other |
| Promises.Runtime.RunReaction | engine/polyfill/polyfill.go:358-372 | for every answer of user code: exactly one call is made, of the handler that fits the outcome, with the value; what it returned resolves and what it threw rejects a derived promise that was pending and that user code left alone, or that was pending when the call came back; where a promise stays pending, its adoption of that value is the newest job; without a handler no call is made and the outcome is passed on |
| Promises.Runtime.RunAdoption | engine/polyfill/polyfill.go:326-337 | an adopted promise gets the two functions as its reaction; the `then` of a foreign thenable is called once, and for every answer that leaves the promise and the functions alone a throw rejects the pending promise and uses up the functions, unless they were used before, and a return changes nothing; a throw after a use changes nothing either |
| Promises.Runtime.RunNext | engine/polyfill/polyfill.go:70-79 | the first job is taken and has the effect of its reaction or adoption, and whatever it calls takes no further job |
| Promises.Runtime.AnyRun | engine/polyfill/polyfill.go:301-383 | in every run of user code and queue turns settled promises stay as they are, and jobs and registrations only grow at the end |
| Promises.Runtime.ExactlyOnePlace | engine/polyfill/polyfill.go:352-383 | a registered reaction is on the handler list of its pending promise or exactly once among the jobs, of that promise only |
| Promises.Runtime.InRegistrationOrder | engine/polyfill/polyfill.go:352-356 | reactions of one promise become jobs in the order of their registration |
| Streams.Controller.Accept | engine/polyfill/polyfill.go:202-205 | a chunk is accepted at the end unless the stream is closed |
| Streams.Controller.Perform | engine/polyfill/polyfill.go:202-212 | an open stream accepts exactly the chunks enqueued before the first call of `close` or `error`, in order, and is closed by either; a closed one accepts nothing |
| Streams.AcceptedExactly | engine/polyfill/polyfill.go:202-212 | the same of any list of actions |
| Streams.ReadableStream.Pull | engine/polyfill/polyfill.go:242-250 | a pull performs start once, pull and the microtasks after each, hands over everything accepted and not handed over before, in order, and reports the end exactly when the stream is closed and nothing is left |
| Streams.DecodeChunks | engine/goja/goja.go:466-473 | the chunks of a pull are decoded one by one, in order |
| Streams.DrainTurn | engine/goja/goja.go:457-484 | one pull ends the session exactly when it throws, a chunk does not decode, or it reports the end; otherwise its chunks are decoded and written; what the source did before an exception stays accepted |
| Streams.DrainSession | engine/goja/goja.go:451-493 | the session stops at the first such pull or runs through all turns; what was written is the decoding of the delivered chunks; a normal end means that all that was enqueued before the first `close` or `error` was accepted and written; when no pull throws and every chunk decodes, a source that called either by the time of pull k, counted from 0, finishes the session after at most k + 2 pulls |
| Streams.SessionEnds | engine/goja/goja.go:451-493 | the last two hold however a session ends |
| Streams.CompleteChunksJoin | engine/goja/goja.go:465-475 | when every chunk but the last is complete as the decoder reads it, decoding one by one is decoding the whole |
| Streams.EncodedChunksComeBack | engine/goja/goja.go:465-475 | when every chunk encodes a string, the strings come back joined, as decoding the joined chunks would give |
| WatchPipeline.StepKeepsInv | bundler/esbuild/esbuild.go:157-210 | every step of callback, producer, consumer and cancellation keeps the pipeline's invariant |
| WatchPipeline.RunKeepsInv | bundler/esbuild/esbuild.go:157-210 | the invariant holds in every state of every run |
| WatchPipeline.NoSignalLost | bundler/esbuild/esbuild.go:165-189 | while a change is newer than the last taken trigger, the trigger channel is full |
| WatchPipeline.QuietMeansCurrent | bundler/esbuild/esbuild.go:185-208 | at rest after a successful build the newest output has seen every change and is buffered or was consumed last |
| WatchPipeline.ProducerGoesOn | bundler/esbuild/esbuild.go:175-210 | the producer stops only when cancelled, failed builds or not, and until then it can always go on, except that it rests when no trigger is pending |
| WatchPipeline.OutputsInOrder | bundler/esbuild/esbuild.go:197-207 | consumed outputs are in build order without repetition, and the newest is in hand, buffered or consumed last; it is lost only when it was in hand as the pipeline stopped |
| WatchPipeline.SendNeverBlocks | bundler/esbuild/esbuild.go:199-207 | after the drop the send finds room |
| EventBus.EventBus.Publish | internal/eventbus.go:22-32 | with nothing in between, each open subscription on the topic has a full slot afterwards, with the new data if it was empty; nobody else is touched and no send meets a closed channel |
| EventBus.EventBus.Subscribe | internal/eventbus.go:46-60 | a fresh subscription with its own channel listens on exactly its topics |
| EventBus.EventBus.Close | internal/eventbus.go:62-72 | the subscription listens nowhere, its channel is closed once, what is buffered stays, and the others keep listening |
| EventBus.EventBus.Receive | internal/eventbus.go:40-41 | a receive empties the slot, and sees the end only after the last data |
| EventBusRuns.StepKeepsInv | internal/eventbus.go:22-72 | offers under the read lock, receives, and Subscribe and Close under the write lock keep the listeners open and the topics as the subscriptions say |
| EventBusRuns.OfferFills | internal/eventbus.go:26-31 | in every interleaving an offer meets an open channel and leaves its slot full, with the new data when it was empty, and no other slot changed |
| EventBusRuns.PublishReachesAll | internal/eventbus.go:23-32 | between the start of a Publish and its end every subscriber of the topic is offered the data exactly once, whoever else publishes or receives |
| Directive.SkipTrivia | serveraction/directive.go:62-87 | the loops stop where the recursive scan of white space and comments does, without reading out of range, on unterminated comments too |
| Directive.ScanPrologue | serveraction/directive.go:26-59 | the scanner's loop computes the scan from the start of the text, one directive a turn, unterminated literals included |
| Directive.HasUseServerDirective | serveraction/directive.go:12-60 | the answer is true exactly when the source is an optional BOM and a prologue of trivia, complete directives and optional semicolons that reaches `use server` |
| Directive.GrammarScans | serveraction/directive.go:26-59 | every prologue of the grammar is accepted |
| Directive.ScanParses | serveraction/directive.go:26-59 | every accepted text is the text of a prologue of the grammar |
| Directive.ScanIsGrammar | serveraction/directive.go:20-60 | with the BOM stripped the scan accepts exactly the declaring sources |
| Directive.SuffixKeepsDeclaration | serveraction/directive.go:16-19 | whatever is appended to a declaring source, it still declares |
| DirectiveStandard.StandardIsWalk | serveraction/directive.go:38-57 | for every derivation of a prologue, its directives up to `use server` are the standard's exactly when no literal met on the walk over its text runs over a line or on into a longer expression |
| DirectiveStandard.StandardExactly | serveraction/directive.go:12-60 | a source declares by the standard's directives if and only if the scanner accepts it and no literal up to `use server` does so |
| DirectiveStandard.OpeningLiteral | serveraction/directive.go:49-51 | a source that opens with the directive's literal is always accepted, and by the standard exactly when what follows ends the statement |
| DirectiveStandard.OpeningBehindMark | serveraction/directive.go:21-24 | so is one behind the octets EF BB BF |
| DirectiveStandard.ExpressionDeclares | serveraction/directive.go:49-51 | `"use server" + x` is accepted although the standard has no directive there |
| DirectiveStandard.NextLineDecides | serveraction/directive.go:49-51 | behind a line break the two agree if and only if the next line does not go on with the expression |
| EscapeLike.EscapeLike | sqlutil/sqlutil.go:16-30 | the fast path and the loop compute the escaped text |
| EscapeLike.EscapeMatches | sqlutil/sqlutil.go:20-29 | in front of any pattern the escaped text matches that text and nothing else |
| EscapeLike.MatchesItself | sqlutil/sqlutil.go:11-15 | alone, it matches exactly the text it stands for |
| EscapeLike.NeverRefused | sqlutil/sqlutil.go:13-15 | every escape in the result is one the standard admits |
| EscapeLike.FastPathAgrees | sqlutil/sqlutil.go:17-19 | the fast path returns what the loop would if and only if no invalid byte is in the text |
| EscapeLike.LikeArgument | repository/gorm/query.go:79-84 | the three bound patterns select exactly the texts that contain, start with or end with what the argument stands for |
| EscapeLike.ExactUnlessBadAndSpecial | repository/query.go:21-23 | they select exactly what is asked for if and only if the argument does not have both a wildcard and an invalid byte |
| EscapeLike.BadByteIsLost | sqlutil/sqlutil.go:22-28 | the byte FF followed by a percent sign is not found by its own escaped pattern |
| EscapeLike.BadByteBecomes | sqlutil/sqlutil.go:22-28 | an invalid byte of a text with a wildcard is searched for as U+FFFD |
| TsInterfaces.TSType | internal/actionbridge/typemap.go:11-52 | the text depends on the type alone; the map is that of the first-come walk over the type |
| TsInterfaces.RegisteredAdds | internal/actionbridge/typemap.go:39-45 | the walk registers exactly the names the text mentions and the map lacked |
| TsText.TextSays | internal/actionbridge/typemap.go:14-52 | read by the precedences of TypeScript the text of every type says the type with each `[]` on the last operand of a union only |
| TsText.SaysWhatIsMeant | internal/actionbridge/typemap.go:18-26 | that is the type meant if and only if no slice or array has pointers for elements |
| TsText.TextIsFaithful | internal/actionbridge/typemap.go:11-52 | the text is read back as the type that is meant under exactly that condition |
| TsText.ListOfNulls | internal/actionbridge/typemap.go:18-23 | the text of a slice of pointers to strings says a string or a list of nulls |
| TsText.KeyComesFirst | internal/actionbridge/typemap.go:27-44 | of two structs with one name in a map type the key's is registered |
| TsText.EntriesInOrder | internal/actionbridge/gen_ts.go:105-143 | the entries of an interface are those of its fields, in order |
| TsText.EntryOf | internal/actionbridge/gen_ts.go:105-143 | a field has an entry exactly when it is exported, not embedded and not named `-` |
| TsInterfaces.EmitOne | internal/actionbridge/gen_ts.go:95-157 | one turn renders the struct, registers what its fields need in order, and leaves a queue that the scans after its fields can produce |
| TsInterfaces.Enqueue | internal/actionbridge/gen_ts.go:135-139 | the names neither emitted nor queued join the end of the queue, each once, in some order |
| TsInterfaces.TurnIsGood | internal/actionbridge/gen_ts.go:87-158 | every turn keeps emitted or queued what is registered, and emits one more name or shortens the queue |
| TsInterfaces.EmitNamedTypes | internal/actionbridge/gen_ts.go:79-159 | from the sorted names the worklist ends in an outcome of its runs: each registered name has one interface, of the struct registered under it, and the registered names are within reach and closed under mention |
| TsTheorems.OutcomeSettles | internal/actionbridge/gen_ts.go:79-159 | in every outcome of every run each registered name has exactly one interface, and the registration is within reach and closed under mention |
| TsTheorems.OrderDoesNotMatter | internal/actionbridge/gen_ts.go:135-139 | when no two structs within reach share a name, every outcome has the same registration and the same interfaces but for their order |
| TsOrder.ScanIsForced | internal/actionbridge/gen_ts.go:135-139 | the queue after one scan is determined if and only if at most one name is missing |
| TsOrder.ForcedOutcome | internal/actionbridge/gen_ts.go:79-159 | when no field ever brings in two new names there is one outcome, shared names or not |
| TsOrder.TextIsDetermined | internal/actionbridge/gen_ts.go:79-159 | the interfaces with their order are the same in every run if and only if no run meets a struct with a field that brings in two new names |
| TsOrder.OrderCanMatter | internal/actionbridge/gen_ts.go:135-139 | a field that brings in two structs which mention different structs of one name: one run registers the one, another the other, and the emitted interfaces differ, in whatever order they are compared |
| TsTheorems.EmittedIsReach | internal/actionbridge/gen_ts.go:79-159 | then they are exactly those of the structs within reach |
| TsTheorems.FaithfulIffCoherent | internal/actionbridge/typemap.go:39-45 | the interface under a name is right wherever the name is used if and only if no two structs within reach share a name |
| TsTheorems.SameNameLosesOne | internal/actionbridge/typemap.go:41-43 | two packages with a `User` struct: one field gets the other's interface |
| TsTheorems.EmbeddedStructIsEmitted | internal/actionbridge/gen_ts.go:114-123 | an embedded struct always has its interface |
| TsTheorems.ParentsAreEmitted | internal/actionbridge/gen_ts.go:112-126 | in every settled result all names in `extends` clauses are emitted if and only if every embedded type of a registered struct that is not a struct itself has the name of a registered one; with no shared names, of one within reach |
| TsTheorems.EmbeddedMapIsNotEmitted | internal/actionbridge/gen_ts.go:112-126 | a struct that embeds a named map type extends an interface that nobody emits |
| RoutePattern.PathToPattern | routes/pathconv.go:22-42 | the pattern is derived from the directories below the first `routes` segment, and is the root without them |
| RoutePattern.BelowFirstRoutes | routes/pathconv.go:22-42 | what counts is what follows the first directory named `routes`, and without one nothing does |
| RoutePattern.BuildPattern | routes/pathconv.go:53-80 | the loop inserts parameters after registered parents, the override deciding for the last parent only |
| RoutePattern.ParameterInFront | routes/pathconv.go:53-80 | every directory stands in the pattern behind those before it, with a parameter in front if and only if they are a registered package, the override deciding for the last one; it is `:id` for the first and named after its parent otherwise |
| RoutePattern.Plurals | routes/pathconv.go:82-94 | the endings `ies`, `ses`, `xes`, `zes`, `ches` and `shes` lose their plural, `ss` stays |
| RoutePattern.RelativePackagePath | routes/routes.go:48-60 | the relative path is the join of those directories |
| RoutePattern.SplitActions | routes/spec.go:116-136 | one spec per action in order, PUT, PATCH and DELETE below the `/:id` of the base |
| RoutePattern.Discover | routes/spec.go:42-95 | the specs are those of all registrations in order, derived from the set of all registered paths |
| RoutePattern.ErasingGivesBack | routes/pathconv.go:44-80 | erasing the inserted segments gives back the relative path, whatever is registered, overridden or mounted |
| RoutePattern.DistinctPathsDistinctPatterns | routes/pathconv.go:5-15 | routes from distinct relative paths have distinct patterns |
| RoutePattern.ClashExactly | routes/spec.go:120-127 | two actions get the same method and pattern if and only if they share method, relative path and the parameter under the last parent |
| RoutePattern.DiscoveryClashes | routes/spec.go:55-94 | in any set of registrations two discovered specs are equal if and only if their actions are the same route in that sense |

## Left out

- Go's regexp engine: a compiled pattern is a list of pieces with a matcher for them; that this is what the engine does with the expression text is not proved.
- Identity of routes: two compiled routes with one pattern are one value, so the model does not say which of two such objects is returned.
- The library's stable sort: replaced by an in-place insertion sort, which has the same result; performance is not modelled.
- Strings are sequences of bytes, in EscapeLike of runes and invalid bytes; Unicode beyond the UTF-8 codec is not modelled.
- The validator's digit estimate by logarithm, and the texts of its errors: a number carries its estimate, a failure its kind.
- VmPool: that Close racing with Release disposes every VM (a Release that saw the pool open may return its VM after the drain), clients that release what they do not hold, and the reset and dispose callbacks themselves. A dispose call is recorded also when no dispose function is set.
- Real files, clocks, tickers, the safety gap in time and directory walks of the poller; a SetPaths that runs between the two locked regions of `rescan`.
- Watch: the build itself, BeforeRebuild, the poller behind the callback, and closing the output channel.
- Typed subscriptions and their decoder goroutine, and JSON encoding on the event bus.
- Microtasks: a task that calls the drain itself.
- Promises: the constructor's executor beyond resolve and reject calls, `catch`, `finally`, the static combinators; that the first `resolve` with a thenable locks a promise, which the code does not do.
- Streams: `desiredSize`, `byobRequest`, the sleep between empty pulls, `encodeInto`; a source is a finite list of actions per pull.
- Utf8: missing octets at the end of the input are read as 0, as the masks make of `undefined`.
- LIKE collations that ignore case, which some databases apply by default.
- TsInterfaces: a named type that contains itself other than through a struct (`type A []A`), on which the original's recursion does not end; the text of struct tags (a field carries its JSON name); the library sort is an insertion sort.
- TsTheorems.OrderDoesNotMatter: for the registration the condition is sufficient and not necessary, because two mentions of one name in one struct are decided by field order; `OrderCanMatter` shows that it cannot be dropped. For the text the condition of `TextIsDetermined` is exact.
- RouteTheorems.ParametersAgreeExactly: single hits whose captured values coincide, such as `/1/1`, where the maps can agree although the names differ; over all the paths of a route `NamesDecide` is exact.
- RouteNaming.NamesDecide: paths with empty segments, on which the two matchers part already, the root for patterns that start with an empty literal, and catch-alls that do not unescape alike (`CatchAllValuesAgree`).
- DirectiveStandard: whether the rest of the source is a well-formed module, and the validity of escapes inside literals.
- RoutePattern: routes with their own `Path()`, handler adaptation, middleware and metadata. Import paths are assumed to have no empty elements and none that starts with a colon below `routes`, as Go demands. Distinct parameter names in nested member routes are not claimed.
- HTTP handlers, middleware, databases, mailer, image codecs, CLI and templates: I/O or thin wrappers.
- Configuration defaults, pagination and other getters, CamelCase, origin checks: easy members only.
