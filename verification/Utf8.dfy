/** The TextEncoder and TextDecoder polyfills of engine/polyfill/polyfill.go.
    A JavaScript string is a sequence of UTF-16 code units. The shifts and masks
    of the code are written as divisions and remainders by powers of two;
    `Masks` and `PointMasks` prove on words that they are the same. */
module Utf8 {
  import opened Strings

  type Unit = u: nat | u < 0x10000
  type Byte = b: nat | b < 0x100

  predicate High(u: Unit) { 0xD800 <= u < 0xDC00 }
  predicate Low(u: Unit) { 0xDC00 <= u < 0xE000 }

  /** The rewritings used on octets. */
  lemma Masks(b: bv8)
    ensures (b & 0xE0 == 0xC0 <==> 0xC0 <= b < 0xE0) && (b & 0xF0 == 0xE0 <==> 0xE0 <= b < 0xF0)
    ensures b & 0x1F == b % 0x20 && b & 0x0F == b % 0x10 && b & 0x07 == b % 8 && b & 0x3F == b % 0x40
    ensures b < 0x40 ==> 0x80 | b == 0x80 + b
    ensures b < 0x20 ==> 0xC0 | b == 0xC0 + b
    ensures b < 0x10 ==> 0xE0 | b == 0xE0 + b
    ensures b < 0x08 ==> 0xF0 | b == 0xF0 + b
  {}

  /** The rewritings used on code points. */
  lemma PointMasks(cp: bv32)
    ensures cp >> 6 == cp / 0x40 && cp >> 12 == cp / 0x1000 && cp >> 18 == cp / 0x40000
    ensures cp & 0x3F == cp % 0x40
  {}

  /** `str.codePointAt(i)`: a surrogate pair is one code point, a lone surrogate its own. */
  function CodePointAt(str: seq<Unit>, i: nat): (cp: nat)
    requires i < |str|
    ensures cp <= 0x10FFFF
  {
    if High(str[i]) && i + 1 < |str| && Low(str[i + 1]) then Pair(str[i], str[i + 1]) else str[i]
  }

  function Pair(hi: Unit, lo: Unit): (cp: nat)
    requires High(hi) && Low(lo)
    ensures 0x10000 <= cp <= 0x10FFFF
  {
    0x10000 + (hi - 0xD800) * 0x400 + (lo - 0xDC00)
  }

  /** `String.fromCodePoint(cp)`; None is its RangeError. */
  function FromCodePoint(cp: nat): Option<seq<Unit>> {
    if cp > 0x10FFFF then None
    else if cp < 0x10000 then Some([cp])
    else Some([0xD800 + (cp - 0x10000) / 0x400, 0xDC00 + (cp - 0x10000) % 0x400])
  }

  /** Surrogate pairs are numbered in order, without gaps, up to the last code point. */
  lemma PairsInOrder(hi: Unit, lo: Unit, hi': Unit, lo': Unit)
    requires High(hi) && Low(lo) && High(hi') && Low(lo')
    ensures Pair(hi, lo) < Pair(hi', lo') <==> hi < hi' || (hi == hi' && lo < lo')
    ensures Pair(0xD800, 0xDC00) == 0x10000 && Pair(0xDBFF, 0xDFFF) == 0x10FFFF
  {}

  /** `fromCodePoint` throws beyond U+10FFFF only, and otherwise yields the string
      that `codePointAt` reads as that code point. */
  lemma FromCodePointExactly(cp: nat)
    ensures FromCodePoint(cp).Some? <==> cp <= 0x10FFFF
    ensures cp <= 0x10FFFF ==>
      var str := FromCodePoint(cp).value;
      && |str| == (if cp <= 0xFFFF then 1 else 2) && CodePointAt(str, 0) == cp
  {}

  // ---------------------------------------------------------------- encoding

  /** A continuation octet: 10 and the low six bits. */
  function Cont(x: nat): Byte { 0x80 + x % 0x40 }

  function EncodePoint(cp: nat): (bs: seq<Byte>)
    requires cp <= 0x10FFFF
    ensures 1 <= |bs| <= 4
  {
    if cp < 0x80 then [cp]
    else if cp < 0x800 then [0xC0 + cp / 0x40, Cont(cp)]
    else if cp < 0x10000 then [0xE0 + cp / 0x1000, Cont(cp / 0x40), Cont(cp)]
    else [0xF0 + cp / 0x40000, Cont(cp / 0x1000), Cont(cp / 0x40), Cont(cp)]
  }

  /** How many code units a code point takes. */
  function Width(cp: nat): nat { if cp < 0x10000 then 1 else 2 }

  function Encode(str: seq<Unit>): seq<Byte> {
    if str == [] then []
    else
      var cp := CodePointAt(str, 0);
      EncodePoint(cp) + Encode(str[Width(cp)..])
  }

  /** Section 3 of RFC 3629: the number range decides the number of octets, the
      lead octet's high bits say how many, each further octet carries six bits. */
  predicate Rfc3629(cp: nat, bs: seq<Byte>) {
    if cp <= 0x7F then |bs| == 1 && bs[0] == cp
    else if cp <= 0x7FF then |bs| == 2 && Two(cp, bs[0], bs[1])
    else if cp <= 0xFFFF then |bs| == 3 && Three(cp, bs[0], bs[1], bs[2])
    else |bs| == 4 && Four(cp, bs[0], bs[1], bs[2], bs[3])
  }

  /** An octet of the form 10xxxxxx. */
  predicate Tail(b: int) { b / 0x40 == 2 }

  predicate Two(cp: int, a: int, b: int) {
    a / 0x20 == 6 && Tail(b) && cp == a % 0x20 * 0x40 + b % 0x40
  }

  predicate Three(cp: int, a: int, b: int, c: int) {
    a / 0x10 == 14 && Tail(b) && Tail(c) && cp == a % 0x10 * 0x1000 + b % 0x40 * 0x40 + c % 0x40
  }

  predicate Four(cp: int, a: int, b: int, c: int, d: int) {
    && a / 0x08 == 30 && Tail(b) && Tail(c) && Tail(d)
    && cp == a % 0x08 * 0x40000 + b % 0x40 * 0x1000 + c % 0x40 * 0x40 + d % 0x40
  }

  lemma TwoOctets(cp: int, a: int, b: int)
    requires 0x80 <= cp < 0x800
    ensures Two(cp, a, b) <==> a == 0xC0 + cp / 0x40 && b == 0x80 + cp % 0x40
  {}

  lemma SixBits(hi: int, x: int)
    requires 0 <= x < 0x40
    ensures (hi * 0x40 + x) / 0x40 == hi && (hi * 0x40 + x) % 0x40 == x
  {}

  lemma ThreeOctets(cp: int, a: int, b: int, c: int)
    requires 0x800 <= cp < 0x10000
    ensures Three(cp, a, b, c) <==> a == 0xE0 + cp / 0x1000 && b == 0x80 + cp / 0x40 % 0x40 && c == 0x80 + cp % 0x40
  {
    assert cp / 0x1000 == cp / 0x40 / 0x40;
    if Three(cp, a, b, c) {
      SixBits(a % 0x10 * 0x40 + b % 0x40, c % 0x40);
      SixBits(a % 0x10, b % 0x40);
    }
  }

  lemma FourOctets(cp: int, a: int, b: int, c: int, d: int)
    requires 0x10000 <= cp <= 0x10FFFF
    ensures Four(cp, a, b, c, d) <==>
      a == 0xF0 + cp / 0x40000 && b == 0x80 + cp / 0x1000 % 0x40 && c == 0x80 + cp / 0x40 % 0x40 && d == 0x80 + cp % 0x40
  {
    assert cp / 0x1000 == cp / 0x40 / 0x40 && cp / 0x40000 == cp / 0x40 / 0x40 / 0x40;
    if Four(cp, a, b, c, d) {
      var hi := a % 0x08 * 0x40 + b % 0x40;
      SixBits(hi * 0x40 + c % 0x40, d % 0x40);
      SixBits(hi, c % 0x40);
      SixBits(a % 0x08, b % 0x40);
    }
  }

  /** The encoder's octets are the ones RFC 3629 prescribes, and no others are. */
  lemma EncodesAsRfc3629(cp: nat, bs: seq<Byte>)
    requires cp <= 0x10FFFF
    ensures Rfc3629(cp, bs) <==> bs == EncodePoint(cp)
  {
    var e := EncodePoint(cp);
    if |bs| == |e| {
      assert bs == e <==> forall i :: 0 <= i < |e| ==> bs[i] == e[i];
      if |e| == 2 {
        TwoOctets(cp, bs[0], bs[1]);
      } else if |e| == 3 {
        ThreeOctets(cp, bs[0], bs[1], bs[2]);
      } else if |e| == 4 {
        FourOctets(cp, bs[0], bs[1], bs[2], bs[3]);
      }
    }
  }

  /** encodeUTF8: one code point a turn. */
  method EncodeUTF8(str: seq<Unit>) returns (result: seq<Byte>)
    ensures result == Encode(str)
  {
    assert Encode([]) == [];
    hide Encode, CodePointAt, Width;
    result := [];
    var i := 0;
    while i < |str|
      invariant 0 <= i <= |str|
      invariant result + Encode(str[i..]) == Encode(str)
    {
      var cp := CodePointAt(str, i);
      EncodeFrom(str, i);
      ghost var next, rest := result + EncodePoint(cp), i + Width(cp);
      assert next + Encode(str[rest..]) == Encode(str) by {
        ConcatAssoc(result, EncodePoint(cp), Encode(str[rest..]));
      }
      assert Width(cp) == if cp < 0x10000 then 1 else 2 by { WidthOf(cp); }
      if cp < 0x80 {
        result := result + [cp];
        i := i + 1;
      } else if cp < 0x800 {
        result := result + [0xC0 + cp / 0x40, Cont(cp)];
        i := i + 1;
      } else if cp < 0x10000 {
        result := result + [0xE0 + cp / 0x1000, Cont(cp / 0x40), Cont(cp)];
        i := i + 1;
      } else {
        result := result + [0xF0 + cp / 0x40000, Cont(cp / 0x1000), Cont(cp / 0x40), Cont(cp)];
        i := i + 2;
      }
      assert result == next && i == rest;
    }
    assert str[i..] == [];
  }

  lemma WidthOf(cp: nat)
    ensures Width(cp) == if cp < 0x10000 then 1 else 2
  {}

  lemma EncodeFrom(str: seq<Unit>, i: nat)
    requires i < |str|
    ensures var cp := CodePointAt(str, i);
      i + Width(cp) <= |str| && Encode(str[i..]) == EncodePoint(cp) + Encode(str[i + Width(cp)..])
  {
    var cp := CodePointAt(str, i);
    assert CodePointAt(str[i..], 0) == cp;
    assert str[i..][Width(cp)..] == str[i + Width(cp)..];
  }

  // ---------------------------------------------------------------- decoding

  /** A read past the end is `undefined`, whose masked value is 0. */
  function ByteAt(arr: seq<Byte>, i: nat): nat { if i < |arr| then arr[i] else 0 }

  /** The number of octets the decoder takes for a lead octet. */
  function Taken(b: nat): (n: nat)
    ensures 1 <= n <= 4
  {
    if b < 0x80 then 1 else if 0xC0 <= b < 0xE0 then 2 else if 0xE0 <= b < 0xF0 then 3 else 4
  }

  function DecodePoint(arr: seq<Byte>, i: nat): nat
    requires i < |arr|
  {
    var b: nat := arr[i];
    if Taken(b) == 1 then b
    else if Taken(b) == 2 then b % 0x20 * 0x40 + ByteAt(arr, i + 1) % 0x40
    else if Taken(b) == 3 then b % 0x10 * 0x1000 + ByteAt(arr, i + 1) % 0x40 * 0x40 + ByteAt(arr, i + 2) % 0x40
    else
      b % 0x08 * 0x40000 + ByteAt(arr, i + 1) % 0x40 * 0x1000
      + ByteAt(arr, i + 2) % 0x40 * 0x40 + ByteAt(arr, i + 3) % 0x40
  }

  /** The whole decoder; None when fromCodePoint throws. */
  function Decode(arr: seq<Byte>): Option<seq<Unit>> {
    DecodeFrom(arr, 0)
  }

  function DecodeFrom(arr: seq<Byte>, i: nat): Option<seq<Unit>>
    decreases |arr| - i
  {
    if i >= |arr| then Some([])
    else
      var head := FromCodePoint(DecodePoint(arr, i));
      var rest := DecodeFrom(arr, i + Taken(arr[i]));
      if head.None? || rest.None? then None else Some(head.value + rest.value)
  }

  method DecodeBytes(arr: seq<Byte>) returns (r: Option<seq<Unit>>)
    ensures r == Decode(arr)
  {
    var result: seq<Unit> := [];
    var i := 0;
    PrependNothing(DecodeFrom(arr, 0));
    while i < |arr|
      invariant 0 <= i
      invariant Decode(arr) == Prepend(result, DecodeFrom(arr, i))
      decreases |arr| - i
    {
      var b: nat := arr[i];
      var cp: nat;
      if b < 0x80 {
        cp := b;
      } else if 0xC0 <= b < 0xE0 {
        cp := b % 0x20 * 0x40 + ByteAt(arr, i + 1) % 0x40;
      } else if 0xE0 <= b < 0xF0 {
        cp := b % 0x10 * 0x1000 + ByteAt(arr, i + 1) % 0x40 * 0x40 + ByteAt(arr, i + 2) % 0x40;
      } else {
        cp := b % 0x08 * 0x40000 + ByteAt(arr, i + 1) % 0x40 * 0x1000
              + ByteAt(arr, i + 2) % 0x40 * 0x40 + ByteAt(arr, i + 3) % 0x40;
      }
      var piece := FromCodePoint(cp);
      if piece.None? { return None; }
      PrependTwice(result, piece.value, DecodeFrom(arr, i + Taken(b)));
      result := result + piece.value;
      i := i + (if b < 0x80 then 1 else if 0xC0 <= b < 0xE0 then 2 else if 0xE0 <= b < 0xF0 then 3 else 4);
    }
    assert result + [] == result;
    return Some(result);
  }

  lemma PrependNothing(o: Option<seq<Unit>>)
    ensures Prepend([], o) == o
  {
    if o.Some? { assert [] + o.value == o.value; }
  }

  function Prepend(s: seq<Unit>, o: Option<seq<Unit>>): Option<seq<Unit>> {
    match o case None => None case Some(t) => Some(s + t)
  }

  lemma PrependTwice(s: seq<Unit>, t: seq<Unit>, o: Option<seq<Unit>>)
    ensures Prepend(s, Prepend(t, o)) == Prepend(s + t, o)
  {
    if o.Some? { ConcatAssoc(s, t, o.value); }
  }

  // -------------------------------------------------------------- round trip

  lemma PairRoundTrip(hi: Unit, lo: Unit)
    requires High(hi) && Low(lo)
    ensures FromCodePoint(Pair(hi, lo)) == Some([hi, lo])
  {}

  /** The decoder reads one code point back and takes exactly its octets. */
  lemma PointRoundTrip(cp: nat, rest: seq<Byte>)
    requires cp <= 0x10FFFF
    ensures var arr := EncodePoint(cp) + rest;
      DecodePoint(arr, 0) == cp && Taken(arr[0]) == |EncodePoint(cp)|
  {
    var arr, e := EncodePoint(cp) + rest, EncodePoint(cp);
    assert forall i: nat :: i < |e| ==> ByteAt(arr, i) == e[i];
    EncodesAsRfc3629(cp, e);
    assert arr[0] == e[0];
    if |e| == 2 {
      LeadTwo(e[0]);
    } else if |e| == 3 {
      LeadThree(e[0]);
    } else if |e| == 4 {
      LeadFour(e[0]);
    }
  }

  lemma LeadTwo(a: nat)
    requires a / 0x20 == 6
    ensures Taken(a) == 2
  {}

  lemma LeadThree(a: nat)
    requires a / 0x10 == 14
    ensures Taken(a) == 3
  {}

  lemma LeadFour(a: nat)
    requires a / 0x08 == 30
    ensures Taken(a) == 4
  {}

  lemma {:induction false} DecodeShift(pre: seq<Byte>, arr: seq<Byte>, i: nat)
    ensures DecodeFrom(pre + arr, |pre| + i) == DecodeFrom(arr, i)
    decreases |arr| - i
  {
    if i < |arr| {
      assert forall k: nat :: ByteAt(pre + arr, |pre| + k) == ByteAt(arr, k);
      assert (pre + arr)[|pre| + i] == arr[i];
      assert DecodePoint(pre + arr, |pre| + i) == DecodePoint(arr, i) by {
        assert ByteAt(pre + arr, |pre| + (i + 1)) == ByteAt(arr, i + 1);
        assert ByteAt(pre + arr, |pre| + (i + 2)) == ByteAt(arr, i + 2);
        assert ByteAt(pre + arr, |pre| + (i + 3)) == ByteAt(arr, i + 3);
      }
      DecodeShift(pre, arr, i + Taken(arr[i]));
    }
  }

  lemma DecodeOnePoint(cp: nat, more: seq<Byte>)
    requires cp <= 0x10FFFF
    ensures Decode(EncodePoint(cp) + more) == Prepend(FromCodePoint(cp).value, Decode(more))
  {
    PointRoundTrip(cp, more);
    DecodeShift(EncodePoint(cp), more, 0);
  }

  /** The octets of a string followed by anything decode to the string followed
      by what the rest decodes to. */
  lemma {:induction false} DecodeEncodePrefix(str: seq<Unit>, rest: seq<Byte>)
    ensures Decode(Encode(str) + rest) == Prepend(str, Decode(rest))
    decreases |str|
  {
    if str == [] {
      assert Encode(str) + rest == rest;
      PrependNothing(Decode(rest));
    } else {
      var cp := CodePointAt(str, 0);
      var w := Width(cp);
      EncodeFrom(str, 0);
      assert str[0..] == str;
      ConcatAssoc(EncodePoint(cp), Encode(str[w..]), rest);
      DecodeOnePoint(cp, Encode(str[w..]) + rest);
      DecodeEncodePrefix(str[w..], rest);
      FirstPoint(str);
      PrependTwice(str[..w], str[w..], Decode(rest));
    }
  }

  lemma FirstPoint(str: seq<Unit>)
    requires str != []
    ensures var cp := CodePointAt(str, 0);
      Width(cp) <= |str| && FromCodePoint(cp) == Some(str[..Width(cp)]) && str == str[..Width(cp)] + str[Width(cp)..]
  {
    var w := Width(CodePointAt(str, 0));
    if w == 2 {
      PairRoundTrip(str[0], str[1]);
    }
    assert str[..w] == if w == 1 then [str[0]] else [str[0], str[1]];
  }

  /** Decoding undoes encoding for every string, unpaired surrogates included. */
  lemma RoundTrip(str: seq<Unit>)
    ensures Decode(Encode(str)) == Some(str)
  {
    DecodeEncodePrefix(str, []);
    assert Encode(str) + [] == Encode(str) && str + [] == str;
  }

  function Flatten<T>(chunks: seq<seq<T>>): seq<T> {
    if chunks == [] then [] else chunks[0] + Flatten(chunks[1..])
  }

  function EncodeAll(strs: seq<seq<Unit>>): (chunks: seq<seq<Byte>>)
    ensures |chunks| == |strs|
  {
    seq(|strs|, i requires 0 <= i < |strs| => Encode(strs[i]))
  }

  /** Encoder outputs may be joined before decoding: chunk by chunk or all at
      once, the decoder gives back the strings in order. */
  lemma {:induction false} DecodeJoinedChunks(strs: seq<seq<Unit>>)
    ensures Decode(Flatten(EncodeAll(strs))) == Some(Flatten(strs))
  {
    if strs != [] {
      DecodeJoinedChunks(strs[1..]);
      assert EncodeAll(strs)[1..] == EncodeAll(strs[1..]);
      DecodeEncodePrefix(strs[0], Flatten(EncodeAll(strs[1..])));
    }
  }

  predicate SplitsPair(s: seq<Unit>, t: seq<Unit>) {
    s != [] && t != [] && High(s[|s| - 1]) && Low(t[0])
  }

  /** Encoding piecewise is encoding the whole exactly when the cut does not
      separate a surrogate pair. */
  lemma {:induction false} EncodeConcat(s: seq<Unit>, t: seq<Unit>)
    ensures Encode(s + t) == Encode(s) + Encode(t) <==> !SplitsPair(s, t)
    ensures |Encode(s + t)| == |Encode(s)| + |Encode(t)| - (if SplitsPair(s, t) then 2 else 0)
    decreases |s|
  {
    if s == [] {
      assert s + t == t;
    } else {
      var cp := CodePointAt(s, 0);
      var w := Width(cp);
      if |s| == 1 && SplitsPair(s, t) {
        assert (s + t)[2..] == t[1..];
        assert CodePointAt(s + t, 0) == Pair(s[0], t[0]);
        assert s[1..] == [] && CodePointAt(t, 0) == t[0];
      } else {
        assert CodePointAt(s + t, 0) == cp;
        assert (s + t)[w..] == s[w..] + t;
        EncodeConcat(s[w..], t);
        assert SplitsPair(s[w..], t) == SplitsPair(s, t);
        ConcatAssoc(EncodePoint(cp), Encode(s[w..]), Encode(t));
      }
    }
  }

  // ------------------------------------------------- where chunks may be cut

  /** The decoder's steps from i on end exactly at the end of the octets. */
  predicate EndsExactly(arr: seq<Byte>, i: nat)
    decreases |arr| - i
  {
    if i >= |arr| then i == |arr| else EndsExactly(arr, i + Taken(arr[i]))
  }

  /** The chunk is not cut inside a character, as the decoder reads it. */
  predicate Complete(arr: seq<Byte>) { EndsExactly(arr, 0) }

  function Joined(a: Option<seq<Unit>>, b: Option<seq<Unit>>): Option<seq<Unit>> {
    if a.None? then None else Prepend(a.value, b)
  }

  /** Octets behind a character leave it alone, or complete it to a larger code point. */
  lemma PointBefore(a: seq<Byte>, b: seq<Byte>, i: nat)
    requires i < |a|
    ensures DecodePoint(a + b, i) >= DecodePoint(a, i) && (a + b)[i] == a[i]
    ensures i + Taken(a[i]) <= |a| ==> DecodePoint(a + b, i) == DecodePoint(a, i)
  {
    assert ByteAt(a, i + 1) % 0x40 <= ByteAt(a + b, i + 1) % 0x40;
    assert ByteAt(a, i + 2) % 0x40 <= ByteAt(a + b, i + 2) % 0x40;
    assert ByteAt(a, i + 3) % 0x40 <= ByteAt(a + b, i + 3) % 0x40;
  }

  lemma {:induction false} JoinsComplete(a: seq<Byte>, b: seq<Byte>, i: nat)
    requires EndsExactly(a, i)
    ensures DecodeFrom(a + b, i) == Joined(DecodeFrom(a, i), Decode(b))
    decreases |a| - i
  {
    hide DecodePoint, FromCodePoint;
    if i >= |a| {
      DecodeShift(a, b, 0);
      PrependNothing(Decode(b));
    } else {
      PointWithin(a, i);
      PointBefore(a, b, i);
      JoinsComplete(a, b, i + Taken(a[i]));
      var head, rest := FromCodePoint(DecodePoint(a, i)), DecodeFrom(a, i + Taken(a[i]));
      if head.Some? && rest.Some? { PrependTwice(head.value, rest.value, Decode(b)); }
    }
  }

  lemma {:induction false} PointWithin(a: seq<Byte>, i: nat)
    requires i < |a| && EndsExactly(a, i)
    ensures i + Taken(a[i]) <= |a|
  {}

  lemma {:induction false} FailureStays(a: seq<Byte>, b: seq<Byte>, i: nat)
    requires DecodeFrom(a, i).None?
    ensures DecodeFrom(a + b, i).None?
    decreases |a| - i
  {
    hide DecodePoint;
    PointBefore(a, b, i);
    if FromCodePoint(DecodePoint(a, i)).Some? { FailureStays(a, b, i + Taken(a[i])); }
  }

  /** A zero octet behind octets cut inside a character changes nothing. */
  lemma {:induction false} ZeroIsSwallowed(a: seq<Byte>, i: nat)
    requires !EndsExactly(a, i)
    ensures DecodeFrom(a + [0], i) == DecodeFrom(a, i)
    decreases |a| - i
  {
    if i < |a| {
      assert ByteAt(a + [0], i + 1) == ByteAt(a, i + 1) && ByteAt(a + [0], i + 2) == ByteAt(a, i + 2);
      assert ByteAt(a + [0], i + 3) == ByteAt(a, i + 3) && (a + [0])[i] == a[i];
      assert DecodePoint(a + [0], i) == DecodePoint(a, i);
      hide DecodePoint, FromCodePoint;
      ZeroIsSwallowed(a, i + Taken(a[i]));
    }
  }

  /** Decoding what follows on its own is right, whatever follows, if and only if
      the decoder throws on the chunk or takes exactly its octets. */
  lemma CutsExactly(a: seq<Byte>)
    ensures (forall b: seq<Byte> :: Decode(a + b) == Joined(Decode(a), Decode(b))) <==> Decode(a).None? || Complete(a)
  {
    forall b: seq<Byte> | Decode(a).None? || Complete(a) ensures Decode(a + b) == Joined(Decode(a), Decode(b)) {
      if Decode(a).None? { FailureStays(a, b, 0); } else { JoinsComplete(a, b, 0); }
    }
    if Decode(a).Some? && !Complete(a) {
      ZeroIsSwallowed(a, 0);
      ZeroDecodes();
      assert |Joined(Decode(a), Decode([0])).value| == |Decode(a).value| + 1;
      assert Decode(a + [0]) != Joined(Decode(a), Decode([0]));
    }
  }

  lemma ZeroDecodes()
    ensures Decode([0]) == Some([0])
  {
    var arr: seq<Byte> := [0];
    assert DecodeFrom(arr, 1) == Some([]) && DecodePoint(arr, 0) == 0;
    assert [0] + [] == [0];
  }

  /** Chunk by chunk is all at once when every chunk but the last is complete. */
  lemma {:induction false} CompleteChunks(chunks: seq<seq<Byte>>)
    requires chunks != [] && forall i :: 0 <= i < |chunks| - 1 ==> Complete(chunks[i])
    ensures Decode(Flatten(chunks)) ==
      if |chunks| == 1 then Decode(chunks[0]) else Joined(Decode(chunks[0]), Decode(Flatten(chunks[1..])))
  {
    hide Decode, Complete;
    if |chunks| == 1 {
      assert chunks[0] + Flatten(chunks[1..]) == chunks[0];
    } else {
      CutsExactly(chunks[0]);
    }
  }

  /** The two octets of U+00E9 cut apart decode to two other characters. */
  lemma ChunkBoundariesMatter()
    ensures Decode([0xC3, 0xA9]) == Some([0xE9])
    ensures Decode([0xC3]) == Some([0xC0])
    ensures Decode([0xA9]) == FromCodePoint(0x40000)
  {
    var both, first, second: seq<Byte> := [0xC3, 0xA9], [0xC3], [0xA9];
    assert forall u: Unit :: [u] + [] == [u];
    assert FromCodePoint(0x40000).value + [] == FromCodePoint(0x40000).value;
    assert DecodeFrom(both, 2) == Some([]) && DecodePoint(both, 0) == 0xE9;
    assert DecodeFrom(first, 2) == Some([]) && DecodePoint(first, 0) == 0xC0;
    assert DecodeFrom(second, 4) == Some([]) && DecodePoint(second, 0) == 0x40000;
  }
}
