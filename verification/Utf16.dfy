/** UTF-16 code units (RFC 2781 sections 2.1 and 2.2): the lenient conversions of the string class and
    the strict pair of conversions. */
module Utf16 {
  import opened Common
  import opened Utf8
  import opened Utf8RoundTrip

  type Units = seq<bv16>

  // Code units

  predicate HighUnit(w: bv16) { 0xD800 <= w <= 0xDBFF }

  predicate LowUnit(w: bv16) { 0xDC00 <= w <= 0xDFFF }

  function Wide16(w: bv16): bv32 { w as bv32 }

  /** Truncation to a code unit. */
  function Narrow16(cp: bv32): bv16 { (cp & 0xFFFF) as bv16 }

  function HighOf(cp: bv32): bv16 { Narrow16(0xD800 | (((cp - 0x10000) >> 10) & 0x3FF)) }

  function LowOf(cp: bv32): bv16 { Narrow16(0xDC00 | ((cp - 0x10000) & 0x3FF)) }

  function JoinPair(w1: bv16, w2: bv16): bv32 {
    (Wide16(w1 - 0xD800) << 10) + Wide16(w2 - 0xDC00) + 0x10000
  }

  /** The code units of one code point. */
  function UnitsOf(cp: bv32): (w: Units)
    ensures 1 <= |w| <= 2
  {
    if cp <= 0xFFFF then [Narrow16(if Surrogate(cp) then REPLACEMENT else cp)] else [HighOf(cp), LowOf(cp)]
  }

  function EncodeUnits(u: Codes): Units {
    if u == [] then [] else UnitsOf(u[0]) + EncodeUnits(u[1..])
  }

  /** Every high unit is followed by a low one, and there are no other surrogates. */
  predicate WellFormed16(w: Units) {
    w == []
    || (!HighUnit(w[0]) && !LowUnit(w[0]) && WellFormed16(w[1..]))
    || (|w| >= 2 && HighUnit(w[0]) && LowUnit(w[1]) && WellFormed16(w[2..]))
  }

  // The strict conversions

  function Prepend<T>(xs: seq<T>, rest: Option<seq<T>>): Option<seq<T>> {
    match rest
    case None => None
    case Some(ys) => Some(xs + ys)
  }

  function Utf16ToUtf32(w: Units): Option<Codes> {
    if w == [] then Some([])
    else if HighUnit(w[0]) then
      if |w| < 2 || !LowUnit(w[1]) then None else Prepend([JoinPair(w[0], w[1])], Utf16ToUtf32(w[2..]))
    else if LowUnit(w[0]) then None
    else Prepend([Wide16(w[0])], Utf16ToUtf32(w[1..]))
  }

  function Utf32ToUtf16(u: Codes): Option<Units> {
    if u == [] then Some([])
    else if !Scalar(u[0]) then None
    else Prepend(UnitsOf(u[0]), Utf32ToUtf16(u[1..]))
  }

  lemma PrependTwice<T>(xs: seq<T>, ys: seq<T>, rest: Option<seq<T>>)
    ensures Prepend(xs, Prepend(ys, rest)) == Prepend(xs + ys, rest)
    ensures Prepend([], rest) == rest
  {
    if rest.Some? {
      assert xs + (ys + rest.value) == (xs + ys) + rest.value;
      assert [] + rest.value == rest.value;
    }
  }

  method Utf16ToUtf32Impl(u16: Units) returns (ok: bool, out: Codes)
    ensures ok <==> Utf16ToUtf32(u16).Some?
    ensures ok ==> Utf16ToUtf32(u16) == Some(out)
  {
    hide HighUnit, LowUnit, JoinPair, Wide16;
    out := [];
    var i := 0;
    assert u16[0..] == u16;
    PrependTwice([], [], Utf16ToUtf32(u16));
    while i < |u16|
      invariant 0 <= i <= |u16|
      invariant Utf16ToUtf32(u16) == Prepend(out, Utf16ToUtf32(u16[i..]))
    {
      var cu := u16[i];
      assert u16[i..][1..] == u16[i + 1..];
      if HighUnit(cu) {
        if i + 1 >= |u16| { return false, out; }
        var cu2 := u16[i + 1];
        if !LowUnit(cu2) { return false, out; }
        assert u16[i..][2..] == u16[i + 2..];
        PrependTwice(out, [JoinPair(cu, cu2)], Utf16ToUtf32(u16[i + 2..]));
        out := out + [JoinPair(cu, cu2)];
        i := i + 1;
      } else if LowUnit(cu) {
        return false, out;
      } else {
        PrependTwice(out, [Wide16(cu)], Utf16ToUtf32(u16[i + 1..]));
        out := out + [Wide16(cu)];
      }
      i := i + 1;
    }
    assert out + [] == out;
    return true, out;
  }

  lemma PlusIsOr(cp: bv32)
    ensures Narrow16(0xD800 + (((cp - 0x10000) >> 10) & 0x3FF)) == HighOf(cp)
    ensures Narrow16(0xDC00 + ((cp - 0x10000) & 0x3FF)) == LowOf(cp)
  {}

  method Utf32ToUtf16Impl(u32: Codes) returns (ok: bool, out: Units)
    ensures ok <==> Utf32ToUtf16(u32).Some?
    ensures ok ==> Utf32ToUtf16(u32) == Some(out)
  {
    hide HighOf, LowOf, Narrow16;
    out := [];
    assert u32[0..] == u32;
    PrependTwice([], [], Utf32ToUtf16(u32));
    for i := 0 to |u32|
      invariant Utf32ToUtf16(u32) == Prepend(out, Utf32ToUtf16(u32[i..]))
    {
      var v := u32[i];
      assert u32[i..][1..] == u32[i + 1..];
      PrependTwice(out, UnitsOf(v), Utf32ToUtf16(u32[i + 1..]));
      if v <= 0xFFFF {
        if 0xD800 <= v <= 0xDFFF { return false, out; }
        out := out + [Narrow16(v)];
      } else if v <= 0x10FFFF {
        PlusIsOr(v);
        var high := Narrow16(0xD800 + (((v - 0x10000) >> 10) & 0x3FF));
        var low := Narrow16(0xDC00 + ((v - 0x10000) & 0x3FF));
        Regrouped(out, [high], [low]);
        assert [high] + [low] == UnitsOf(v);
        out := out + [high];
        out := out + [low];
      } else {
        return false, out;
      }
    }
    assert out + [] == out;
    return true, out;
  }

  // The lenient conversions

  method ToU16String(s: Bytes) returns (r: Units)
    ensures r == EncodeUnits(Decode(s))
  {
    hide DecodeFirst, UnitsOf, HighOf, LowOf, Narrow16;
    r := [];
    var index := 0;
    assert s[0..] == s;
    while index < |s|
      invariant 0 <= index <= |s|
      invariant EncodeUnits(Decode(s)) == r + EncodeUnits(Decode(s[index..]))
    {
      var more, index', cp := NextCodePoint(s, index);
      assert s[index..][index' - index..] == s[index'..];
      assert Decode(s[index..])[1..] == Decode(s[index'..]);
      var units := UnitsFor(cp);
      Regrouped(r, units, EncodeUnits(Decode(s[index'..])));
      r := r + units;
      index := index';
    }
    Regrouped(r, [], []);
  }

  /** The body of the loop of `to_u16string`. */
  method UnitsFor(cp: bv32) returns (w: Units)
    ensures w == UnitsOf(cp)
  {
    hide Narrow16;
    if cp <= 0xFFFF {
      var c := cp;
      if 0xD800 <= c <= 0xDFFF { c := 0xFFFD; }
      w := [Narrow16(c)];
    } else {
      w := [HighOf(cp), LowOf(cp)];
    }
  }

  datatype Read = Read(cp: bv32, len: nat)

  /** The first code point of the units; a surrogate without its partner is replaced. */
  function ReadFirst(w: Units): Read
    requires w != []
  {
    if HighUnit(w[0]) then
      if |w| >= 2 && LowUnit(w[1]) then Read(JoinPair(w[0], w[1]), 2) else Read(REPLACEMENT, 1)
    else if LowUnit(w[0]) then Read(REPLACEMENT, 1)
    else Read(Wide16(w[0]), 1)
  }

  function DecodeUnits(w: Units): Codes {
    if w == [] then [] else [ReadFirst(w).cp] + DecodeUnits(w[ReadFirst(w).len..])
  }

  method U16ToU8String(s16: Units) returns (out: Bytes)
    ensures out == Encode(DecodeUnits(s16))
  {
    hide HighUnit, LowUnit, JoinPair, Wide16, EncodeCode;
    out := [];
    var i := 0;
    assert s16[0..] == s16;
    while i < |s16|
      invariant 0 <= i <= |s16|
      invariant Encode(DecodeUnits(s16)) == out + Encode(DecodeUnits(s16[i..]))
    {
      ghost var start := i;
      var w1 := s16[i];
      i := i + 1;
      var cp: bv32;
      if HighUnit(w1) {
        if i < |s16| {
          var w2 := s16[i];
          if LowUnit(w2) {
            i := i + 1;
            cp := JoinPair(w1, w2);
          } else {
            cp := 0xFFFD;
          }
        } else {
          cp := 0xFFFD;
        }
      } else if LowUnit(w1) {
        cp := 0xFFFD;
      } else {
        cp := Wide16(w1);
      }
      assert ReadFirst(s16[start..]) == Read(cp, i - start);
      assert s16[start..][i - start..] == s16[i..];
      assert DecodeUnits(s16[start..])[1..] == DecodeUnits(s16[i..]);
      Regrouped(out, EncodeCode(cp), Encode(DecodeUnits(s16[i..])));
      out := AppendUtf8(cp, out);
    }
    Regrouped(out, [], []);
  }

  // Facts about the bit patterns

  lemma PairJoins(cp: bv32)
    ensures 0x10000 <= cp <= 0x10FFFF ==> HighUnit(HighOf(cp)) && LowUnit(LowOf(cp))
    ensures 0x10000 <= cp <= 0x10FFFF ==> JoinPair(HighOf(cp), LowOf(cp)) == cp
  {}

  lemma JoinSplits(w1: bv16, w2: bv16)
    ensures HighUnit(w1) && LowUnit(w2) ==> 0x10000 <= JoinPair(w1, w2) <= 0x10FFFF
    ensures HighUnit(w1) && LowUnit(w2) ==> HighOf(JoinPair(w1, w2)) == w1 && LowOf(JoinPair(w1, w2)) == w2
  {}

  lemma SingleUnit(w: bv16)
    ensures Narrow16(Wide16(w)) == w && Wide16(w) <= 0xFFFF
    ensures Surrogate(Wide16(w)) <==> HighUnit(w) || LowUnit(w)
  {}

  lemma SingleCode(cp: bv32)
    ensures cp <= 0xFFFF ==> Wide16(Narrow16(cp)) == cp
  {}

  // Strict conversions against each other

  lemma UnitsOfScalar(cp: bv32, rest: Units)
    requires Scalar(cp)
    ensures Utf16ToUtf32(UnitsOf(cp) + rest) == Prepend([cp], Utf16ToUtf32(rest))
    ensures WellFormed16(UnitsOf(cp) + rest) <==> WellFormed16(rest)
  {
    hide HighUnit, LowUnit, JoinPair, Wide16, HighOf, LowOf, Narrow16;
    var w := UnitsOf(cp);
    var all := w + rest;
    assert all[0] == w[0];
    if cp <= 0xFFFF {
      SingleCode(cp);
      SingleUnit(w[0]);
      assert all[1..] == rest;
    } else {
      PairJoins(cp);
      assert all[1] == w[1];
      assert all[2..] == rest;
      HighIsNotLow(w[0]);
    }
  }

  lemma HighIsNotLow(w: bv16)
    ensures !(HighUnit(w) && LowUnit(w))
  {}

  lemma {:induction false} EncodedUnitsComeBack(u: Codes)
    requires AllScalar(u)
    ensures WellFormed16(EncodeUnits(u))
    ensures Utf16ToUtf32(EncodeUnits(u)) == Some(u)
  {
    hide UnitsOf, Scalar, Utf16ToUtf32, WellFormed16;
    NoUnits();
    if u != [] {
      EncodedUnitsComeBack(u[1..]);
      UnitsOfScalar(u[0], EncodeUnits(u[1..]));
      assert u == [u[0]] + u[1..];
    }
  }

  lemma NoUnits()
    ensures Utf16ToUtf32([]) == Some([]) && WellFormed16([])
  {}

  lemma {:induction false} StrictEncoderAcceptsScalars(u: Codes)
    ensures Utf32ToUtf16(u) == if AllScalar(u) then Some(EncodeUnits(u)) else None
  {
    hide UnitsOf, Scalar;
    if u != [] {
      StrictEncoderAcceptsScalars(u[1..]);
      if AllScalar(u) { assert AllScalar(u[1..]); }
      if Scalar(u[0]) && AllScalar(u[1..]) { assert AllScalar(u) by { ScalarsJoined(u); } }
    }
  }

  lemma ScalarsJoined(u: Codes)
    requires u != [] && Scalar(u[0]) && AllScalar(u[1..])
    ensures AllScalar(u)
  {
    hide Scalar;
    forall i | 0 <= i < |u|
      ensures Scalar(u[i])
    {
      if i > 0 { assert u[1..][i - 1] == u[i]; }
    }
  }

  lemma FirstOfWellFormed(w: Units)
    requires w != [] && WellFormed16(w)
    ensures var r := ReadFirst(w);
            r.len <= |w| && UnitsOf(r.cp) == w[..r.len] && Scalar(r.cp) && WellFormed16(w[r.len..])
    ensures Utf16ToUtf32(w) == Prepend([ReadFirst(w).cp], Utf16ToUtf32(w[ReadFirst(w).len..]))
  {
    hide HighUnit, LowUnit, JoinPair, Wide16, HighOf, LowOf, Narrow16, Surrogate;
    HighIsNotLow(w[0]);
    if HighUnit(w[0]) {
      JoinSplits(w[0], w[1]);
      LargeIsScalar(JoinPair(w[0], w[1]));
    } else {
      SingleUnit(w[0]);
      MediumIsScalar(Wide16(w[0]));
    }
  }

  /** The lenient reading of well-formed units is the strict one, and encodes back to them. */
  lemma {:induction false} WellFormedUnitsComeBack(w: Units)
    requires WellFormed16(w)
    ensures Utf16ToUtf32(w) == Some(DecodeUnits(w))
    ensures EncodeUnits(DecodeUnits(w)) == w
  {
    hide UnitsOf, Scalar, Utf16ToUtf32, WellFormed16, ReadFirst;
    NoUnits();
    if w != [] {
      FirstOfWellFormed(w);
      var r := ReadFirst(w);
      ReadLength(w);
      WellFormedUnitsComeBack(w[r.len..]);
      assert DecodeUnits(w)[1..] == DecodeUnits(w[r.len..]);
      assert w == w[..r.len] + w[r.len..];
    }
  }

  lemma ReadLength(w: Units)
    requires w != []
    ensures 1 <= ReadFirst(w).len <= |w|
  {}

  /** The strict decoder accepts exactly the well-formed units. */
  lemma {:induction false} StrictDecoderAcceptsWellFormed(w: Units)
    ensures Utf16ToUtf32(w).Some? <==> WellFormed16(w)
  {
    hide HighUnit, LowUnit, JoinPair, Wide16;
    if w != [] {
      HighIsNotLow(w[0]);
      StrictDecoderAcceptsWellFormed(w[1..]);
      if |w| >= 2 { StrictDecoderAcceptsWellFormed(w[2..]); }
    }
  }

  /** Every code point the lenient reader produces is a scalar value. */
  lemma ReadIsScalar(w: Units)
    requires w != []
    ensures Scalar(ReadFirst(w).cp)
  {
    hide HighUnit, LowUnit, JoinPair, Wide16, Scalar, Surrogate;
    ReplacementIsScalar();
    SingleUnit(w[0]);
    MediumIsScalar(Wide16(w[0]));
    if |w| >= 2 {
      JoinSplits(w[0], w[1]);
      LargeIsScalar(JoinPair(w[0], w[1]));
    }
  }

  lemma {:induction false} DecodedUnitsAreScalar(w: Units)
    ensures AllScalar(DecodeUnits(w))
  {
    hide ReadFirst, Scalar;
    if w != [] {
      ReadIsScalar(w);
      ReadLength(w);
      DecodedUnitsAreScalar(w[ReadFirst(w).len..]);
    }
  }

  /** The strict conversions are inverse to each other: either both hold of a pair of texts or neither. */
  lemma StrictConversionsAreInverse(u: Codes, w: Units)
    ensures Utf32ToUtf16(u) == Some(w) <==> Utf16ToUtf32(w) == Some(u)
  {
    hide Utf32ToUtf16, Utf16ToUtf32, WellFormed16, EncodeUnits, DecodeUnits;
    StrictEncoderAcceptsScalars(u);
    StrictDecoderAcceptsWellFormed(w);
    if AllScalar(u) { EncodedUnitsComeBack(u); }
    if WellFormed16(w) {
      WellFormedUnitsComeBack(w);
      DecodedUnitsAreScalar(w);
    }
  }

  // Lenient conversions

  /** For every byte string, even a malformed one, the UTF-16 form is well-formed and the strict
      decoder maps it to exactly the code points of the UTF-32 form. */
  lemma U16StringIsStrictlyDecodable(s: Bytes)
    ensures WellFormed16(EncodeUnits(Decode(s)))
    ensures Utf16ToUtf32(EncodeUnits(Decode(s))) == Some(Decode(s))
  {
    hide Decode, EncodeUnits, WellFormed16, Utf16ToUtf32;
    DecodedIsScalar(s);
    EncodedUnitsComeBack(Decode(s));
  }

  /** UTF-16 survives the way through UTF-8 exactly when it is well-formed. */
  lemma UnitsSurviveExactlyWhenWellFormed(w: Units)
    ensures EncodeUnits(Decode(Encode(DecodeUnits(w)))) == w <==> WellFormed16(w)
  {
    hide Decode, Encode, EncodeUnits, DecodeUnits, WellFormed16, Utf16ToUtf32;
    DecodedUnitsAreScalar(w);
    DecodeRestoresExactlyScalars(DecodeUnits(w));
    EncodedUnitsComeBack(DecodeUnits(w));
    if WellFormed16(w) { WellFormedUnitsComeBack(w); }
  }
}
