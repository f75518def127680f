/** What the TypeScript text of a type says: a reader for the type expressions that
    internal/actionbridge/typemap.go writes, in which `[]` binds tighter than `|`,
    and the exact condition under which the text says what the Go type means. */
module TsText {
  import opened Strings
  import opened TsInterfaces

  datatype TsType =
    | Name(text: string)
    | List(elem: TsType)
    | Record(key: TsType, elem: TsType)
    | Union(left: TsType, right: TsType)

  const NULL := Name("null")

  // ------------------------------------------------------------------ the reader

  predicate NamePart(c: char) {
    'a' <= c <= 'z' || 'A' <= c <= 'Z' || '0' <= c <= '9' || c == '_' || c >= 0x80 as char
  }

  predicate IsName(s: string) { s != "" && forall i :: 0 <= i < |s| ==> NamePart(s[i]) }

  /** The name at the start of s, empty when there is none. */
  function Word(s: string): (w: string)
    ensures w <= s
  {
    if s == "" || !NamePart(s[0]) then ""
    else
      var w := Word(s[1..]);
      assert s == [s[0]] + s[1..];
      [s[0]] + w
  }

  /** x with the `[]` that follow it. */
  function Lists(x: TsType, rest: string): (r: (TsType, string))
    ensures |r.1| <= |rest|
    decreases |rest|
  {
    if "[]" <= rest then Lists(List(x), rest[2..]) else (x, rest)
  }

  /** A name or a `Record`, with the `[]` that follow it, and what is left. */
  function ReadOperand(s: string): (r: Option<(TsType, string)>)
    ensures r.Some? ==> |r.value.1| < |s|
    decreases |s|, 0
  {
    if "Record<" <= s then
      match ReadType(s[7..])
      case None => None
      case Some((key, r)) =>
        if !(", " <= r) then None
        else match ReadType(r[2..])
          case None => None
          case Some((elem, r')) => if !(">" <= r') then None else Some(Lists(Record(key, elem), r'[1..]))
    else
      var w := Word(s);
      if w == "" then None else Some(Lists(Name(w), s[|w|..]))
  }

  /** x with the operands of `|` that follow it. */
  function Operands(x: TsType, rest: string): (r: Option<(TsType, string)>)
    ensures r.Some? ==> |r.value.1| <= |rest|
    decreases |rest|, 1
  {
    if " | " <= rest then
      match ReadOperand(rest[3..])
      case None => None
      case Some((y, r)) => Operands(Union(x, y), r)
    else Some((x, rest))
  }

  function ReadType(s: string): (r: Option<(TsType, string)>)
    ensures r.Some? ==> |r.value.1| < |s|
    decreases |s|, 2
  {
    match ReadOperand(s)
    case None => None
    case Some((x, r)) => Operands(x, r)
  }

  // ------------------------------------------------------------- what is meant

  /** The type that is meant. */
  function Meant(t: GoType): TsType {
    match t
    case Basic(StringKind) => Name("string")
    case Basic(BoolKind) => Name("boolean")
    case Basic(NumberKind) => Name("number")
    case Basic(OtherKind) => Name("unknown")
    case Pointer(elem) => Union(Meant(elem), NULL)
    case Slice(elem) => List(Meant(elem))
    case Array(elem) => List(Meant(elem))
    case Map(key, elem) => Record(Meant(key), Meant(elem))
    case NamedStruct(name, _, _) => if IsTime(t) then Name("string") else Name(name)
    case NamedOther(_, _, underlying) => if IsError(t) then Name("string") else Meant(underlying)
    case Unknown => Name("unknown")
  }

  /** A list of x, written by appending `[]`: of a union only the last operand. */
  function Listed(x: TsType): TsType {
    match x
    case Union(left, right) => Union(left, List(right))
    case _ => List(x)
  }

  /** The type that is said. */
  function Said(t: GoType): TsType {
    match t
    case Pointer(elem) => Union(Said(elem), NULL)
    case Slice(elem) => Listed(Said(elem))
    case Array(elem) => Listed(Said(elem))
    case Map(key, elem) => Record(Said(key), Said(elem))
    case NamedOther(_, _, underlying) => if IsError(t) then Name("string") else Said(underlying)
    case _ => Meant(t)
  }

  /** The struct names are identifiers. */
  predicate NamesOk(t: GoType) {
    match t
    case Pointer(elem) => NamesOk(elem)
    case Slice(elem) => NamesOk(elem)
    case Array(elem) => NamesOk(elem)
    case Map(key, elem) => NamesOk(key) && NamesOk(elem)
    case NamedStruct(name, _, _) => IsName(name)
    case NamedOther(_, _, underlying) => NamesOk(underlying)
    case _ => true
  }

  // ---------------------------------------------------------------- reading back

  /** What follows does not go on with a name. */
  predicate Apart(rest: string) { rest == "" || (!NamePart(rest[0]) && rest[0] != '<') }

  /** Reading goes on behind a type that was read as x. */
  function GoOn(x: TsType, rest: string): Option<(TsType, string)> {
    match x
    case Union(left, right) => var (y, r) := Lists(right, rest); Operands(Union(left, y), r)
    case _ => var (y, r) := Lists(x, rest); Operands(y, r)
  }

  lemma {:induction false} WordEnds(name: string, rest: string)
    requires (forall i :: 0 <= i < |name| ==> NamePart(name[i])) && Apart(rest)
    ensures Word(name + rest) == name
  {
    if name == "" {
      assert name + rest == rest;
    } else {
      assert (name + rest)[1..] == name[1..] + rest && name == [name[0]] + name[1..];
      WordEnds(name[1..], rest);
    }
  }

  lemma ReadsName(name: string, rest: string)
    requires IsName(name) && Apart(rest)
    ensures ReadOperand(name + rest) == Some(Lists(Name(name), rest))
    ensures ReadType(name + rest) == GoOn(Name(name), rest)
  {
    var s := name + rest;
    WordEnds(name, rest);
    hide Lists, Operands, Word;
    assert s[|name|..] == rest;
    assert !("Record<" <= s) by {
      if "Record<" <= s { assert s[6] == '<' && forall i :: 0 <= i < 6 ==> NamePart(s[i]); }
    }
  }

  /** The words of the basic types, and `null`. */
  predicate IsFixed(w: string) { w in ["string", "boolean", "number", "unknown", "null"] }

  lemma FixedIsName(w: string)
    requires IsFixed(w)
    ensures IsName(w)
  {}

  lemma AppendsList(x: TsType, rest: string)
    ensures GoOn(x, "[]" + rest) == GoOn(Listed(x), rest)
  {
    assert ("[]" + rest)[2..] == rest;
  }

  lemma AppendsNull(x: TsType, rest: string)
    requires Apart(rest)
    ensures GoOn(x, " | null" + rest) == GoOn(Union(x, NULL), rest)
  {
    var s := " | null" + rest;
    assert s[3..] == "null" + rest;
    FixedIsName("null");
    ReadsName("null", rest);
    assert s[0] == ' ';
    hide Word, IsName, NamePart, ReadOperand;
    assert Lists(x, s) == (x, s);
    if x.Union? { assert Lists(x.right, s) == (x.right, s); }
  }

  lemma Follows(a: string, rest: string)
    requires a in ["[]", " | null", ", ", ">"]
    ensures Apart(a + rest)
  {}

  lemma OneRecord(s: string, key: TsType, r: string, elem: TsType, r': string)
    requires "Record<" <= s && ReadType(s[7..]) == Some((key, r)) && ", " <= r
    requires ReadType(r[2..]) == Some((elem, r')) && ">" <= r'
    ensures ReadType(s) == GoOn(Record(key, elem), r'[1..])
  {
    hide Word, Operands;
  }

  /** `Record<`, two types and `>` are read as a record. */
  lemma ReadsRecord(k: string, e: string, key: TsType, elem: TsType, rest: string)
    requires ReadType(k + (", " + (e + (">" + rest)))) == Some((key, ", " + (e + (">" + rest))))
    requires ReadType(e + (">" + rest)) == Some((elem, ">" + rest))
    ensures ReadType("Record<" + k + ", " + e + ">" + rest) == GoOn(Record(key, elem), rest)
  {
    hide *;
    var tail := e + (">" + rest);
    var s := "Record<" + (k + (", " + tail));
    assert "Record<" + k + ", " + e + ">" + rest == s;
    assert s[7..] == k + (", " + tail);
    assert (", " + tail)[2..] == tail && (">" + rest)[1..] == rest;
    OneRecord(s, key, ", " + tail, elem, ">" + rest);
  }

  /** Nothing to go on with. */
  lemma EndsHere(x: TsType, rest: string)
    requires ", " <= rest || ">" <= rest || rest == ""
    ensures GoOn(x, rest) == Some((x, rest))
  {
    if rest != "" { assert rest[0] == ',' || rest[0] == '>'; }
    assert !("[]" <= rest) && !(" | " <= rest);
    if x.Union? { assert Lists(x.right, rest) == (x.right, rest); } else { assert Lists(x, rest) == (x, rest); }
  }

  /** The text of a type is read as what it says, and then the rest. */
  lemma {:induction false} ReadsBack(t: GoType, rest: string)
    requires NamesOk(t) && Apart(rest)
    ensures ReadType(Ts(t) + rest) == GoOn(Said(t), rest)
    decreases t, 0
  {
    hide ReadType, GoOn, Apart, IsName;
    match t {
      case Basic(kind) =>
        FixedIsName(TsBasic(kind));
        ReadsName(TsBasic(kind), rest);
      case Pointer(elem) =>
        Follows(" | null", rest);
        ReadsBack(elem, " | null" + rest);
        AppendsNull(Said(elem), rest);
        ConcatAssoc(Ts(elem), " | null", rest);
      case Slice(elem) => ReadsList(elem, rest);
      case Array(elem) => ReadsList(elem, rest);
      case Map(key, elem) =>
        var tail := Ts(elem) + (">" + rest);
        Follows(", ", tail);
        Follows(">", rest);
        ReadsBack(key, ", " + tail);
        ReadsBack(elem, ">" + rest);
        EndsHere(Said(key), ", " + tail);
        EndsHere(Said(elem), ">" + rest);
        ReadsRecord(Ts(key), Ts(elem), Said(key), Said(elem), rest);
      case NamedStruct(name, _, _) =>
        FixedIsName("string");
        ReadsName(if IsTime(t) then "string" else name, rest);
      case NamedOther(_, _, underlying) =>
        if IsError(t) {
          FixedIsName("string");
          ReadsName("string", rest);
        } else {
          ReadsBack(underlying, rest);
        }
      case Unknown =>
        FixedIsName("unknown");
        ReadsName("unknown", rest);
    }
  }

  lemma {:induction false} ReadsList(elem: GoType, rest: string)
    requires NamesOk(elem) && Apart(rest)
    ensures ReadType(Ts(elem) + "[]" + rest) == GoOn(Listed(Said(elem)), rest)
    decreases elem, 1
  {
    hide ReadType, GoOn, Apart, IsName;
    Follows("[]", rest);
    ReadsBack(elem, "[]" + rest);
    AppendsList(Said(elem), rest);
    ConcatAssoc(Ts(elem), "[]", rest);
  }

  /** The text, read to its end. */
  lemma TextSays(t: GoType)
    requires NamesOk(t)
    ensures ReadType(Ts(t)) == Some((Said(t), ""))
  {
    ReadsBack(t, "");
    EndsHere(Said(t), "");
    assert Ts(t) + "" == Ts(t);
    hide ReadType, GoOn;
  }

  // ------------------------------------------------------------- meant and said

  /** A pointer, or a named type that is one underneath. */
  predicate MayBeNull(t: GoType) {
    t.Pointer? || (t.NamedOther? && !IsError(t) && MayBeNull(t.underlying))
  }

  /** No slice or array of pointers anywhere in the type. */
  predicate NoListOfPointers(t: GoType) {
    match t
    case Pointer(elem) => NoListOfPointers(elem)
    case Slice(elem) => !MayBeNull(elem) && NoListOfPointers(elem)
    case Array(elem) => !MayBeNull(elem) && NoListOfPointers(elem)
    case Map(key, elem) => NoListOfPointers(key) && NoListOfPointers(elem)
    case NamedOther(_, _, underlying) => IsError(t) || NoListOfPointers(underlying)
    case _ => true
  }

  lemma {:induction false} NullIsUnion(t: GoType)
    ensures MayBeNull(t) <==> Meant(t).Union?
    ensures MayBeNull(t) ==> Said(t).Union?
  {
    if t.NamedOther? && !IsError(t) { NullIsUnion(t.underlying); }
  }

  /** The text says what is meant exactly when no slice or array has pointers for
      elements: of `X | null[]` only `null` is listed. */
  lemma {:induction false} SaysWhatIsMeant(t: GoType)
    ensures Said(t) == Meant(t) <==> NoListOfPointers(t)
  {
    match t {
      case Pointer(elem) => SaysWhatIsMeant(elem);
      case Slice(elem) =>
        SaysWhatIsMeant(elem);
        NullIsUnion(elem);
      case Array(elem) =>
        SaysWhatIsMeant(elem);
        NullIsUnion(elem);
      case Map(key, elem) =>
        SaysWhatIsMeant(key);
        SaysWhatIsMeant(elem);
      case NamedOther(_, _, underlying) => if !IsError(t) { SaysWhatIsMeant(underlying); }
      case _ =>
    }
  }

  /** Read by the rules of TypeScript, the text of a type is the type that is meant if
      and only if no slice or array has pointers for elements. */
  lemma TextIsFaithful(t: GoType)
    requires NamesOk(t)
    ensures ReadType(Ts(t)) == Some((Meant(t), "")) <==> NoListOfPointers(t)
  {
    TextSays(t);
    SaysWhatIsMeant(t);
  }

  /** A slice of pointers to strings comes out as a string or a list of nulls. */
  lemma ListOfNulls()
    ensures ReadType(Ts(Slice(Pointer(Basic(StringKind))))) == Some((Union(Name("string"), List(NULL)), ""))
  {
    TextSays(Slice(Pointer(Basic(StringKind))));
  }

  // ------------------------------------------------------- fields and first come

  /** Field by field, in order: the exported, named fields whose JSON name is not `-`. */
  lemma {:induction false} EntriesInOrder(fs: seq<Field>, gs: seq<Field>)
    ensures Entries(fs + gs) == Entries(fs) + Entries(gs)
    decreases |gs|
  {
    if gs == [] {
      assert fs + gs == fs;
    } else {
      var front := gs[..|gs| - 1];
      assert (fs + gs)[..|fs + gs| - 1] == fs + front;
      EntriesInOrder(fs, front);
      hide Ts;
    }
  }

  lemma EntryOf(f: Field)
    ensures Entries([f]) ==
      if f.exported && !f.anonymous && f.jsonName != "-" then [Entry(f.jsonName, Ts(f.typ), f.optional)] else []
  {
    assert [f][..0] == [];
  }

  /** Of two structs with one name in a map type, the key's is registered. */
  lemma KeyComesFirst(m: map<string, StructId>, name: string, a: Option<string>, b: Option<string>, i: StructId,
                      j: StructId)
    requires name !in m && !IsTime(NamedStruct(name, a, i)) && !IsTime(NamedStruct(name, b, j))
    ensures Registered(m, Map(NamedStruct(name, a, i), NamedStruct(name, b, j))) == m[name := i]
  {}
}
