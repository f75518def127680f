/** The two-tier polling watcher of watcher/watcher.go. The disk is a function
    from paths to snapshots; a shuffle may pick any permutation. */
module Watcher {
  import opened Strings

  const MAX_RECENT_ITEMS := 16
  const MIN_ITEMS_PER_ITER := 64
  const MAX_INTERVALS_BEFORE_UPDATE := 20

  /** What a stat of one path yields; content only within the safety gap. */
  datatype ModEntry = ModEntry(size: int, mtime: int, mode: int, content: Option<seq<int>>, missing: bool)

  type Disk = string -> ModEntry

  /** checkPath's comparison of a stored entry with a new snapshot. */
  predicate Changed(prev: ModEntry, cur: ModEntry) {
    if cur.missing != prev.missing then true
    else if cur.missing then false
    else if cur.size != prev.size || cur.mode != prev.mode then true
    else if cur.mtime != prev.mtime then true
    else cur.content.Some? && prev.content.Some? && cur.content != prev.content
  }

  /** Two snapshots that are taken for the same: both missing, or both there with
      one size, mode and modification time and, where both were read, one content. */
  predicate Alike(a: ModEntry, b: ModEntry) {
    && (a.missing <==> b.missing)
    && (!a.missing ==> a.size == b.size && a.mode == b.mode && a.mtime == b.mtime
                       && (a.content == b.content || a.content == None || b.content == None))
  }

  ghost predicate Distinct(s: seq<string>) { forall i, j :: 0 <= i < j < |s| ==> s[i] != s[j] }

  function Elements(s: seq<string>): set<string> { set p | p in s }

  lemma {:induction false} DistinctSize(s: seq<string>)
    ensures |Elements(s)| <= |s|
    ensures Distinct(s) ==> |Elements(s)| == |s|
  {
    if s != [] {
      var n := |s| - 1;
      DistinctSize(s[..n]);
      assert Elements(s) == Elements(s[..n]) + {s[n]};
      if Distinct(s) { assert s[n] !in Elements(s[..n]); }
    }
  }

  lemma SubsetOfSameSize(a: set<string>, b: set<string>)
    requires a <= b && |a| == |b|
    ensures a == b
  {
    assert b == a + (b - a);
  }

  /** The paths of s that are in keep, in order. */
  function Filter(s: seq<string>, keep: set<string>): (t: seq<string>)
    ensures forall p :: p in t <==> p in s && p in keep
    ensures |t| <= |s|
  {
    if s == [] then []
    else
      var n := |s| - 1;
      if s[n] in keep then Filter(s[..n], keep) + [s[n]] else Filter(s[..n], keep)
  }

  lemma {:induction false} FilterDistinct(s: seq<string>, keep: set<string>)
    requires Distinct(s)
    ensures Distinct(Filter(s, keep))
  {
    if s != [] {
      var n := |s| - 1;
      FilterDistinct(s[..n], keep);
      assert s[n] !in s[..n];
    }
  }

  lemma FilterSnoc(s: seq<string>, p: string, keep: set<string>)
    ensures Filter(s + [p], keep) == Filter(s, keep) + if p in keep then [p] else []
  {
    assert (s + [p])[..|s|] == s;
  }

  /** Path by path, in order: filtering a list is filtering its parts. */
  lemma {:induction false} FilterConcat(a: seq<string>, b: seq<string>, keep: set<string>)
    ensures Filter(a + b, keep) == Filter(a, keep) + Filter(b, keep)
    decreases |b|
  {
    hide Filter;
    if b == [] {
      assert a + b == a && Filter([], keep) == [] by { FilterNone(keep); }
    } else {
      var front, last := b[..|b| - 1], b[|b| - 1];
      FilterConcat(a, front, keep);
      FilterSnoc(a + front, last, keep);
      FilterSnoc(front, last, keep);
      ConcatAssoc(a, front, [last]);
      ConcatAssoc(Filter(a, keep), Filter(front, keep), if last in keep then [last] else []);
      assert b == front + [last];
    }
  }

  lemma FilterNone(keep: set<string>)
    ensures Filter([], keep) == []
  {}

  // -------------------------------------------------------- the second tier

  /** The scan order and the position in it. */
  datatype Scan = Scan(order: seq<string>, index: nat)

  ghost predicate Permuted(a: seq<string>, b: seq<string>) {
    |a| == |b| && Elements(a) == Elements(b) && (Distinct(a) ==> Distinct(b))
  }

  /** One second-tier check: the next path, after a reshuffle at the end. */
  ghost predicate OneCheck(a: Scan, b: Scan, path: string) {
    if a.index < |a.order| then b == Scan(a.order, a.index + 1) && path == a.order[a.index]
    else Permuted(a.order, b.order) && b.order != [] && b.index == 1 && path == b.order[0]
  }

  ghost predicate Trace(scans: seq<Scan>, checked: seq<string>) {
    |scans| == |checked| + 1 && forall i :: 0 <= i < |checked| ==> CheckAt(scans, checked, i)
  }

  ghost predicate CheckAt(scans: seq<Scan>, checked: seq<string>, i: nat)
    requires |scans| == |checked| + 1 && i < |checked|
  {
    OneCheck(scans[i], scans[i + 1], checked[i])
  }

  /** `itemsPerIter`: max(64, ceil(total / 20)) paths a tick, but no more than there are. */
  function ItemsPerIter(total: nat): (n: nat)
    ensures n <= total && 20 * n >= total
    ensures n == total || n >= 64
    ensures n > 64 ==> 20 * (n - 1) < total
  {
    if total == 0 then 0
    else
      var perIter := (total + MAX_INTERVALS_BEFORE_UPDATE - 1) / MAX_INTERVALS_BEFORE_UPDATE;
      var atLeast := if perIter < MIN_ITEMS_PER_ITER then MIN_ITEMS_PER_ITER else perIter;
      if atLeast > total then total else atLeast
  }

  class Poller {
    var items: map<string, ModEntry>
    var recentPaths: seq<string>
    var recentSet: set<string>
    var scanOrder: seq<string>
    var scanIndex: nat

    /** Recent paths are distinct, at most 16 and mirrored by the set; together
        with the scan order they partition the watched paths. */
    ghost predicate Valid()
      reads this
    {
      && RecentOk()
      && Distinct(scanOrder) && Elements(scanOrder) == items.Keys - recentSet
      && scanIndex <= |scanOrder|
    }

    ghost predicate RecentOk()
      reads `items, `recentPaths, `recentSet
    {
      && Distinct(recentPaths) && |recentPaths| <= 16
      && recentSet == Elements(recentPaths) && recentSet <= items.Keys
    }

    ghost function ScanNow(): Scan
      reads `scanOrder, `scanIndex
    {
      Scan(scanOrder, scanIndex)
    }

    constructor ()
      ensures Valid() && items == map[] && recentPaths == []
    {
      items, recentPaths, recentSet, scanOrder, scanIndex := map[], [], {}, [], 0;
    }

    /** Fisher-Yates with an arbitrary choice at each turn. */
    method ShuffleScanOrder()
      requires Distinct(scanOrder)
      modifies `scanOrder
      ensures Permuted(old(scanOrder), scanOrder) && Distinct(scanOrder)
    {
      var i := |scanOrder|;
      while i > 1
        invariant 0 <= i <= |scanOrder|
        invariant Permuted(old(scanOrder), scanOrder) && Distinct(scanOrder)
      {
        i := i - 1;
        var j :| 0 <= j <= i;
        ghost var before := scanOrder;
        scanOrder := scanOrder[i := scanOrder[j]][j := scanOrder[i]];
        SwapPermutes(before, i, j);
      }
    }

    /** Collects the non-recent items in any order, then shuffles. */
    method RebuildScanOrder()
      requires RecentOk()
      modifies `scanOrder, `scanIndex
      ensures Valid() && scanIndex == 0
    {
      scanOrder := [];
      var rest := items.Keys;
      while rest != {}
        invariant rest <= items.Keys && Distinct(scanOrder)
        invariant Elements(scanOrder) == items.Keys - recentSet - rest
        decreases |rest|
      {
        var path :| path in rest;
        TakeOne(items.Keys, recentSet, rest, path);
        rest := rest - {path};
        if path !in recentSet {
          ElementsSnoc(scanOrder, path);
          scanOrder := scanOrder + [path];
        }
      }
      ShuffleScanOrder();
      scanIndex := 0;
    }

    /** Replaces the watched paths: known entries survive, new ones are
        snapshots, recent paths that are gone are dropped in place. */
    method SetPaths(paths: seq<string>, disk: Disk)
      requires Valid()
      modifies this
      ensures Valid() && scanIndex == 0
      ensures items.Keys == Elements(paths)
      ensures forall p :: p in items ==> items[p] == if p in old(items) then old(items)[p] else disk(p)
      ensures recentPaths == Filter(old(recentPaths), Elements(paths))
    {
      var newItems: map<string, ModEntry> := map[];
      for i := 0 to |paths|
        invariant newItems.Keys == Elements(paths[..i])
        invariant forall p :: p in newItems ==> newItems[p] == if p in items then items[p] else disk(p)
      {
        var path := paths[i];
        assert Elements(paths[..i + 1]) == Elements(paths[..i]) + {path};
        newItems := newItems[path := if path in items then items[path] else disk(path)];
      }
      assert paths[..|paths|] == paths;
      items := newItems;
      PruneRecent();
      RebuildScanOrder();
    }

    method PruneRecent()
      requires Distinct(recentPaths) && |recentPaths| <= MAX_RECENT_ITEMS && recentSet == Elements(recentPaths)
      modifies `recentPaths, `recentSet
      ensures RecentOk() && recentPaths == Filter(old(recentPaths), items.Keys)
    {
      var kept: seq<string> := [];
      var was := recentPaths;
      for i := 0 to |was|
        invariant kept == Filter(was[..i], items.Keys)
        invariant recentSet == Elements(was) - (Elements(was[..i]) - items.Keys)
      {
        assert was[..i + 1][..i] == was[..i];
        assert Elements(was[..i + 1]) == Elements(was[..i]) + {was[i]};
        if was[i] in items {
          kept := kept + [was[i]];
        } else {
          recentSet := recentSet - {was[i]};
        }
      }
      assert was[..|was|] == was;
      FilterDistinct(was, items.Keys);
      recentPaths := kept;
      assert recentSet == Elements(recentPaths);
    }

    /** Compares a path with the disk and stores the snapshot when it differs. */
    method CheckPath(path: string, disk: Disk) returns (changed: bool)
      modifies `items
      ensures changed == (path in old(items) && !Alike(old(items)[path], disk(path)))
      ensures items == if changed then old(items)[path := disk(path)] else old(items)
    {
      if path !in items { return false; }
      changed := Changed(items[path], disk(path));
      if changed {
        items := items[path := disk(path)];
      }
    }

    /** Moves a path to the recent list, evicting the oldest when it is full. */
    method PromoteToRecent(path: string)
      requires Valid() && path in items
      modifies `recentPaths, `recentSet, `scanOrder, `scanIndex
      ensures Valid() && path in recentSet
      ensures recentPaths ==
        if path in old(recentSet) then old(recentPaths)
        else (if |old(recentPaths)| == 16 then old(recentPaths)[1..] else old(recentPaths)) + [path]
      ensures path !in old(recentSet) ==> scanIndex == 0
    {
      if path in recentSet { return; }
      if |recentPaths| >= MAX_RECENT_ITEMS {
        var evicted := recentPaths[0];
        assert recentPaths == [evicted] + recentPaths[1..];
        recentPaths := recentPaths[1..];
        recentSet := recentSet - {evicted};
        scanOrder := scanOrder + [evicted];
      }
      assert recentSet == Elements(recentPaths) && Distinct(recentPaths);
      recentPaths := recentPaths + [path];
      recentSet := recentSet + {path};
      RebuildScanOrder();
    }

    /** One tick. A quiet tick finds no change among the recent paths nor among
        the next ItemsPerIter paths of the scan; it stores nothing and only moves
        the scan along. A tick that reports a change stores that one snapshot and
        leaves the changed path recent. */
    method Poll(disk: Disk) returns (fired: bool, ghost scans: seq<Scan>, ghost checked: seq<string>)
      requires Valid()
      modifies this
      ensures Valid() && items.Keys == old(items).Keys
      ensures !fired ==>
        && items == old(items) && recentPaths == old(recentPaths) && recentSet == old(recentSet)
        && |checked| == ItemsPerIter(|scanOrder|) && |scanOrder| == |old(scanOrder)|
        && Trace(scans, checked) && scans[0] == old(ScanNow()) && scans[|checked|] == ScanNow()
        && forall p :: p in recentPaths || p in checked ==>
             p in items && Alike(items[p], disk(p)) && items[p].missing == disk(p).missing
             && (!disk(p).missing ==>
                   disk(p).size == items[p].size && disk(p).mode == items[p].mode && disk(p).mtime == items[p].mtime
                   && (disk(p).content.Some? && items[p].content.Some? ==> disk(p).content == items[p].content))
      ensures fired ==> exists p ::
        && p in old(items) && !Alike(old(items)[p], disk(p)) && items == old(items)[p := disk(p)]
        && p in recentSet
        && (old(items)[p].missing != items[p].missing || old(items)[p].size != items[p].size
            || old(items)[p].mode != items[p].mode || old(items)[p].mtime != items[p].mtime
            || (old(items)[p].content.Some? && items[p].content.Some? && old(items)[p].content != items[p].content))
    {
      scans, checked := [ScanNow()], [];
      for i := 0 to |recentPaths|
        invariant Valid() && items == old(items) && recentPaths == old(recentPaths) && recentSet == old(recentSet)
        invariant ScanNow() == old(ScanNow())
        invariant forall j :: 0 <= j < i ==> Alike(items[recentPaths[j]], disk(recentPaths[j]))
      {
        assert recentPaths[i] in recentSet;
        var changed := CheckPath(recentPaths[i], disk);
        if changed { return true, scans, checked; }
      }
      var n := ItemsPerIter(|scanOrder|);
      var k := 0;
      while k < n
        invariant 0 <= k <= n && |checked| == k
        invariant Valid() && items == old(items) && recentPaths == old(recentPaths) && recentSet == old(recentSet)
        invariant |scanOrder| == |old(scanOrder)|
        invariant Trace(scans, checked) && scans[0] == old(ScanNow()) && scans[k] == ScanNow()
        invariant forall p :: p in checked ==> p in items && Alike(items[p], disk(p))
      {
        ghost var before := ScanNow();
        if scanIndex >= |scanOrder| {
          ShuffleScanOrder();
          scanIndex := 0;
        }
        var path := scanOrder[scanIndex];
        scanIndex := scanIndex + 1;
        assert path in Elements(scanOrder);
        TraceSnoc(scans, checked, ScanNow(), path);
        scans, checked := scans + [ScanNow()], checked + [path];
        var changed := CheckPath(path, disk);
        if changed {
          PromoteToRecent(path);
          return true, scans, checked;
        }
        k := k + 1;
      }
      fired := false;
    }

    /** Re-collects the paths. The watched set follows the collected one unless
        the length comparison is fooled by repeated paths. */
    method Rescan(paths: seq<string>, disk: Disk) returns (hasNew: bool)
      requires Valid()
      modifies this
      ensures Valid()
      ensures hasNew <==> exists p :: p in paths && p !in old(items)
      ensures items.Keys == Elements(paths)
        <==> !(Elements(paths) < old(items).Keys && |paths| == |old(items)|)
      ensures Distinct(paths) ==> items.Keys == Elements(paths)
    {
      hasNew := false;
      var i := 0;
      while i < |paths|
        invariant 0 <= i <= |paths| && (forall j :: 0 <= j < i ==> paths[j] in items)
      {
        if paths[i] !in items { hasNew := true; break; }
        i := i + 1;
      }
      DistinctSize(paths);
      var changed := hasNew || |paths| != |items|;
      if !changed {
        assert Elements(paths) <= items.Keys && |items| == |items.Keys|;
        if Distinct(paths) { SubsetOfSameSize(Elements(paths), items.Keys); }
        return false;
      }
      if Elements(paths) < items.Keys { assert forall p :: p in paths ==> p in items; }
      SetPaths(paths, disk);
    }
  }

  lemma TraceSnoc(scans: seq<Scan>, checked: seq<string>, next: Scan, path: string)
    requires Trace(scans, checked) && OneCheck(scans[|checked|], next, path)
    ensures Trace(scans + [next], checked + [path])
  {
    forall i | 0 <= i < |checked + [path]| ensures CheckAt(scans + [next], checked + [path], i) {
      if i < |checked| { assert CheckAt(scans, checked, i); }
    }
  }

  lemma TakeOne(all: set<string>, recent: set<string>, rest: set<string>, path: string)
    requires path in rest && rest <= all
    ensures path !in all - recent - rest
    ensures all - recent - (rest - {path}) == all - recent - rest + (if path in recent then {} else {path})
  {}

  lemma ElementsSnoc(s: seq<string>, path: string)
    ensures Elements(s + [path]) == Elements(s) + {path}
    ensures Distinct(s) && path !in Elements(s) ==> Distinct(s + [path])
  {}

  lemma SwapPermutes(s: seq<string>, i: nat, j: nat)
    requires i < |s| && j < |s|
    ensures var t := s[i := s[j]][j := s[i]]; Permuted(s, t)
  {
    var t := s[i := s[j]][j := s[i]];
    forall p ensures p in s <==> p in t {
      if p in s {
        var k :| 0 <= k < |s| && s[k] == p;
        assert t[if k == i then j else if k == j then i else k] == p;
      }
      if p in t {
        var k :| 0 <= k < |t| && t[k] == p;
        assert s[if k == i then j else if k == j then i else k] == p;
      }
    }
  }

  // -------------------------------------------------------------- coverage

  /** While the order lasts, checks walk through it one by one. */
  lemma {:induction false} WalkOrder(scans: seq<Scan>, checked: seq<string>, from: nat, k: nat)
    requires Trace(scans, checked) && from + k <= |checked|
    requires scans[from].index + k <= |scans[from].order|
    ensures scans[from + k] == Scan(scans[from].order, scans[from].index + k)
    ensures forall j :: from <= j < from + k ==> checked[j] == scans[from].order[scans[from].index + j - from]
  {
    if k > 0 {
      WalkOrder(scans, checked, from, k - 1);
      assert CheckAt(scans, checked, from + k - 1);
    }
  }

  /** From a rebuilt order, as many checks as there are paths check every path. */
  lemma CoverFromStart(scans: seq<Scan>, checked: seq<string>, path: string)
    requires Trace(scans, checked) && scans[0].index == 0 && |checked| >= |scans[0].order|
    requires path in scans[0].order
    ensures path in checked
  {
    var n := |scans[0].order|;
    WalkOrder(scans, checked, 0, n);
    var k :| 0 <= k < n && scans[0].order[k] == path;
    assert checked[k] == path;
  }

  /** How many checks it takes from position index to be sure of all n paths: the
      rest of this order and then, unless it was whole, all of the next one. */
  function Needed(n: nat, index: nat): nat
    requires index <= n
  {
    if index == 0 then n else 2 * n - index
  }

  /** From any state the rest of this order, then the whole of the next one do,
      whatever permutation it is. */
  lemma CoverFromAnywhere(scans: seq<Scan>, checked: seq<string>, path: string)
    requires Trace(scans, checked) && scans[0].index <= |scans[0].order|
    requires |checked| >= 2 * |scans[0].order| - scans[0].index && path in scans[0].order
    ensures path in checked
  {
    var n := |scans[0].order|;
    var left := n - scans[0].index;
    WalkOrder(scans, checked, 0, left);
    assert CheckAt(scans, checked, left);
    var next := scans[left + 1];
    assert Permuted(scans[0].order, next.order);
    assert path in Elements(next.order);
    var k :| 0 <= k < n && next.order[k] == path;
    WalkOrder(scans, checked, left + 1, n - 1);
    assert checked[left + k] == path;
  }

  lemma TraceConcat(s1: seq<Scan>, c1: seq<string>, s2: seq<Scan>, c2: seq<string>)
    requires Trace(s1, c1) && Trace(s2, c2) && s1[|c1|] == s2[0]
    ensures Trace(s1 + s2[1..], c1 + c2)
  {
    var s, c := s1 + s2[1..], c1 + c2;
    forall i | 0 <= i < |c| ensures CheckAt(s, c, i) {
      if i < |c1| {
        assert CheckAt(s1, c1, i);
      } else {
        assert CheckAt(s2, c2, i - |c1|);
        assert s[i] == s2[i - |c1|] && s[i + 1] == s2[i - |c1| + 1];
      }
    }
  }

  /** Runs ticks against a changing disk until one fires, which it does for a
      path that changed. When none fires and the ticks make as many checks as are
      needed from the position they start at, every watched path was compared
      with the disk at one of them and found unchanged. */
  method PollTicks(p: Poller, disks: seq<Disk>) returns (fired: bool)
    requires p.Valid()
    modifies p
    ensures p.Valid() && p.items.Keys == old(p.items).Keys
    ensures !fired ==> p.items == old(p.items) && p.recentPaths == old(p.recentPaths)
    ensures !fired && disks != []
            && |disks| * ItemsPerIter(|old(p.scanOrder)|) >= Needed(|old(p.scanOrder)|, old(p.scanIndex)) ==>
      forall path :: path in p.items ==> SeenUnchanged(p.items[path], path, disks)
    ensures fired ==> exists path, t ::
      && path in old(p.items) && 0 <= t < |disks| && !Alike(old(p.items)[path], disks[t](path))
      && p.items == old(p.items)[path := disks[t](path)] && path in p.recentSet
  {
    ghost var start := p.ScanNow();
    ghost var scans, checked := [start], [];
    ghost var n := |p.scanOrder|;
    for t := 0 to |disks|
      invariant p.Valid() && p.items == old(p.items) && p.recentPaths == old(p.recentPaths)
      invariant p.recentSet == old(p.recentSet) && |p.scanOrder| == n
      invariant Trace(scans, checked) && scans[0] == start && scans[|checked|] == p.ScanNow()
      invariant |checked| == t * ItemsPerIter(n)
      invariant forall path :: path in checked ==> path in p.items && SeenUnchanged(p.items[path], path, disks[..t])
      invariant t > 0 ==> forall path :: path in p.recentPaths ==>
        path in p.items && SeenUnchanged(p.items[path], path, disks[..t])
    {
      ghost var ss, cs;
      fired, ss, cs := p.Poll(disks[t]);
      if fired { return; }
      TraceConcat(scans, checked, ss, cs);
      scans, checked := scans + ss[1..], checked + cs;
      SeenLater(p.items, disks, t);
    }
    fired := false;
    assert disks[..|disks|] == disks;
    if disks != [] && |checked| >= Needed(n, start.index) {
      Covered(scans, checked);
      forall path | path in p.items ensures SeenUnchanged(p.items[path], path, disks) {
        assert path in p.recentPaths || path in Elements(start.order);
      }
    }
  }

  ghost predicate SeenUnchanged(entry: ModEntry, path: string, disks: seq<Disk>) {
    exists t :: 0 <= t < |disks| && Alike(entry, disks[t](path))
  }

  lemma SeenLater(items: map<string, ModEntry>, disks: seq<Disk>, t: nat)
    requires t < |disks|
    ensures forall path :: path in items && SeenUnchanged(items[path], path, disks[..t]) ==>
      SeenUnchanged(items[path], path, disks[..t + 1])
    ensures forall path :: path in items && Alike(items[path], disks[t](path)) ==>
      SeenUnchanged(items[path], path, disks[..t + 1])
  {
    forall path | path in items && SeenUnchanged(items[path], path, disks[..t])
      ensures SeenUnchanged(items[path], path, disks[..t + 1])
    {
      var k :| 0 <= k < |disks[..t]| && Alike(items[path], disks[..t][k](path));
      assert disks[..t + 1][k] == disks[..t][k];
    }
    forall path | path in items && Alike(items[path], disks[t](path))
      ensures SeenUnchanged(items[path], path, disks[..t + 1])
    {
      assert disks[..t + 1][t] == disks[t];
    }
  }

  lemma Covered(scans: seq<Scan>, checked: seq<string>)
    requires Trace(scans, checked) && scans[0].index <= |scans[0].order|
    requires |checked| >= Needed(|scans[0].order|, scans[0].index)
    ensures forall path :: path in scans[0].order ==> path in checked
  {
    forall path | path in scans[0].order ensures path in checked {
      if scans[0].index == 0 {
        CoverFromStart(scans, checked, path);
      } else {
        CoverFromAnywhere(scans, checked, path);
      }
    }
  }

  /** The scans of k checks that stay inside one order. */
  ghost function Straight(order: seq<string>, index: nat, k: nat): (scans: seq<Scan>)
    ensures |scans| == k + 1
  {
    seq(k + 1, (i: nat) => Scan(order, index + i))
  }

  lemma StraightTrace(order: seq<string>, index: nat, k: nat)
    requires index + k <= |order|
    ensures Trace(Straight(order, index, k), order[index..index + k])
  {
    var scans, checked := Straight(order, index, k), order[index..index + k];
    forall i | 0 <= i < k ensures CheckAt(scans, checked, i) {}
  }

  /** With fewer checks than needed there is a run that misses a path: the last of
      this order, or the first when the next order moves it to the end. */
  lemma MissOne(order: seq<string>, index: nat, c: nat) returns (scans: seq<Scan>, checked: seq<string>, path: string)
    requires Distinct(order) && index <= |order| && c < Needed(|order|, index)
    ensures Trace(scans, checked) && scans[0] == Scan(order, index) && |checked| == c
    ensures path in order && path !in checked
  {
    var n := |order|;
    if index + c < n || (index + c == n && index > 0) {
      scans, checked := Straight(order, index, c), order[index..index + c];
      StraightTrace(order, index, c);
      path := if index + c < n then order[n - 1] else order[0];
    } else {
      path := order[0];
      scans, checked := MissFirst(order, index, c);
    }
  }

  lemma MissFirst(order: seq<string>, index: nat, c: nat) returns (scans: seq<Scan>, checked: seq<string>)
    requires Distinct(order) && 0 < index <= |order| && |order| - index < c < 2 * |order| - index
    ensures Trace(scans, checked) && scans[0] == Scan(order, index) && |checked| == c && order[0] !in checked
  {
    var n, left := |order|, |order| - index;
    var next := order[1..] + [order[0]];
    assert order == [order[0]] + order[1..] && Permuted(order, next);
    var s1, c1 := Straight(order, index, left), order[index..n];
    var s2, c2 := Straight(next, 1, c - left - 1), next[1..c - left];
    StraightTrace(order, index, left);
    StraightTrace(next, 1, c - left - 1);
    assert OneCheck(s1[left], s2[0], next[0]);
    TraceSnoc(s1, c1, s2[0], next[0]);
    TraceConcat(s1 + [s2[0]], c1 + [next[0]], s2, c2);
    scans, checked := s1 + [s2[0]] + s2[1..], c1 + [next[0]] + c2;
    hide *;
    assert forall i :: 0 <= i < n - 1 ==> next[i] == order[i + 1];
    assert order[0] !in c1 && order[0] !in c2 && order[0] != next[0] by { assert Distinct(order); }
  }

  /** Every run of c checks from position index sees all paths, and so does every
      run of ticks that make them, if and only if c is at least Needed. */
  lemma CoverExactly(order: seq<string>, index: nat, c: nat)
    requires Distinct(order) && index <= |order|
    ensures AlwaysCovers(order, index, c) <==> c >= Needed(|order|, index)
  {
    if c >= Needed(|order|, index) {
      forall scans, checked | Trace(scans, checked) && scans[0] == Scan(order, index) && |checked| == c
        ensures Covers(order, checked)
      {
        Covered(scans, checked);
      }
    } else {
      var scans, checked, path := MissOne(order, index, c);
      assert !Covers(order, checked);
    }
  }

  ghost predicate Covers(order: seq<string>, checked: seq<string>) { forall path :: path in order ==> path in checked }

  ghost predicate AlwaysCovers(order: seq<string>, index: nat, c: nat) {
    forall scans, checked :: Trace(scans, checked) && scans[0] == Scan(order, index) && |checked| == c ==>
      Covers(order, checked)
  }

  /** 20 quiet ticks are enough after a rebuild and 40 are always enough. */
  lemma EnoughTicks(n: nat, index: nat, ticks: nat)
    requires index <= n && ticks >= (if index == 0 then 20 else 40)
    ensures ticks * ItemsPerIter(n) >= Needed(n, index)
  {
    var k := ItemsPerIter(n);
    assert ticks * k >= (if index == 0 then 20 else 40) * k;
  }

  /** The full scan in 20 ticks, from wherever the scan stands, is certain exactly
      while no more than 640 paths are scanned. */
  lemma TwentyTicks(order: seq<string>)
    requires Distinct(order)
    ensures (forall index: nat :: index <= |order| ==> AlwaysCovers(order, index, 20 * ItemsPerIter(|order|)))
       <==> |order| <= 640
  {
    var n := |order|;
    var c := 20 * ItemsPerIter(n);
    forall index: nat | index <= n ensures AlwaysCovers(order, index, c) <==> c >= Needed(n, index) {
      CoverExactly(order, index, c);
    }
    if n > 640 { assert c < Needed(n, 1); }
  }
}
