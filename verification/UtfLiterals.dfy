/** The encodings of code points by ranges and arithmetic. */
module UtfLiterals {
  import opened Common
  import opened Utf8
  import opened Utf16

  // Bytes

  lemma Leads(b: bv8)
    ensures Ascii(b) <==> b < 0x80
    ensures Tail(b) <==> 0x80 <= b < 0xC0
    ensures Lead2(b) <==> 0xC0 <= b < 0xE0
    ensures Lead3(b) <==> 0xE0 <= b < 0xF0
    ensures Lead4(b) <==> 0xF0 <= b < 0xF8
  {}

  /** The six bits that a continuation byte carries. */
  function Six(b: bv8): bv32 {
    (b as bv32) - 0x80
  }

  function Sum2(b0: bv8, b1: bv8): bv32 {
    ((b0 as bv32) - 0xC0) * 64 + Six(b1)
  }

  function Sum3(b0: bv8, b1: bv8, b2: bv8): bv32 {
    ((b0 as bv32) - 0xE0) * 4096 + Six(b1) * 64 + Six(b2)
  }

  function Sum4(b0: bv8, b1: bv8, b2: bv8, b3: bv8): bv32 {
    ((b0 as bv32) - 0xF0) * 262144 + Six(b1) * 4096 + Six(b2) * 64 + Six(b3)
  }

  lemma JoinsAdd(b0: bv8, b1: bv8, b2: bv8, b3: bv8)
    ensures Lead2(b0) && Tail(b1) ==> Join2(b0, b1) == Sum2(b0, b1)
    ensures Lead3(b0) && Tail(b1) && Tail(b2) ==> Join3(b0, b1, b2) == Sum3(b0, b1, b2)
    ensures Lead4(b0) && Tail(b1) && Tail(b2) && Tail(b3) ==> Join4(b0, b1, b2, b3) == Sum4(b0, b1, b2, b3)
  {}

  predicate IsTail(s: Bytes, i: nat) {
    i < |s| && 0x80 <= s[i] < 0xC0
  }

  lemma IsTailIs(s: Bytes, i: nat)
    ensures IsTail(s, i) <==> i < |s| && Tail(s[i])
  {
    if i < |s| { Leads(s[i]); }
  }

  /** What the first bytes stand for, and how many they are. A byte that starts nothing, or whose sequence is cut
      short, is replaced alone; overlong forms, surrogates and numbers that are too large are replaced as a whole. */
  lemma BytesDecoded(s: Bytes)
    requires s != []
    ensures s[0] < 0x80 ==> DecodeFirst(s) == Decoded(s[0] as bv32, 1)
    ensures 0x80 <= s[0] < 0xC0 || 0xF8 <= s[0] ==> DecodeFirst(s) == Decoded(0xFFFD, 1)
    ensures 0xC0 <= s[0] < 0xE0 ==>
              if !IsTail(s, 1) then DecodeFirst(s) == Decoded(0xFFFD, 1)
              else
                var cp := Sum2(s[0], s[1]);
                DecodeFirst(s) == Decoded(if cp < 0x80 then 0xFFFD else cp, 2)
    ensures 0xE0 <= s[0] < 0xF0 ==>
              if !IsTail(s, 1) || !IsTail(s, 2) then DecodeFirst(s) == Decoded(0xFFFD, 1)
              else
                var cp := Sum3(s[0], s[1], s[2]);
                DecodeFirst(s) == Decoded(if cp < 0x800 || 0xD800 <= cp <= 0xDFFF then 0xFFFD else cp, 3)
    ensures 0xF0 <= s[0] < 0xF8 ==>
              if !IsTail(s, 1) || !IsTail(s, 2) || !IsTail(s, 3) then DecodeFirst(s) == Decoded(0xFFFD, 1)
              else
                var cp := Sum4(s[0], s[1], s[2], s[3]);
                DecodeFirst(s) == Decoded(if cp < 0x10000 || cp > 0x10FFFF then 0xFFFD else cp, 4)
  {
    hide Decode2, Decode3, Decode4, Ascii, Tail, Lead2, Lead3, Lead4, IsTail, Sum2, Sum3, Sum4, Wide;
    Leads(s[0]);
    LeadsDiffer(s[0]);
    WidthKept(s[0]);
    assert REPLACEMENT == 0xFFFD;
    if Lead2(s[0]) { TwoDecoded(s); }
    if Lead3(s[0]) { ThreeDecoded(s); }
    if Lead4(s[0]) { FourDecoded(s); }
  }

  lemma TwoDecoded(s: Bytes)
    requires s != [] && Lead2(s[0])
    ensures if !IsTail(s, 1) then Decode2(s) == Decoded(0xFFFD, 1)
            else Decode2(s) == Decoded(if Sum2(s[0], s[1]) < 0x80 then 0xFFFD else Sum2(s[0], s[1]), 2)
  {
    hide Tail, Lead2, Join2, Sum2, IsTail;
    IsTailIs(s, 1);
    if |s| >= 2 { JoinsAdd(s[0], s[1], 0, 0); }
  }

  lemma ThreeDecoded(s: Bytes)
    requires s != [] && Lead3(s[0])
    ensures if !IsTail(s, 1) || !IsTail(s, 2) then Decode3(s) == Decoded(0xFFFD, 1)
            else
              var cp := Sum3(s[0], s[1], s[2]);
              Decode3(s) == Decoded(if cp < 0x800 || 0xD800 <= cp <= 0xDFFF then 0xFFFD else cp, 3)
  {
    hide Tail, Lead3, Join3, Sum3, IsTail;
    IsTailIs(s, 1);
    IsTailIs(s, 2);
    if |s| >= 3 { JoinsAdd(s[0], s[1], s[2], 0); }
  }

  lemma FourDecoded(s: Bytes)
    requires s != [] && Lead4(s[0])
    ensures if !IsTail(s, 1) || !IsTail(s, 2) || !IsTail(s, 3) then Decode4(s) == Decoded(0xFFFD, 1)
            else
              var cp := Sum4(s[0], s[1], s[2], s[3]);
              Decode4(s) == Decoded(if cp < 0x10000 || cp > 0x10FFFF then 0xFFFD else cp, 4)
  {
    hide Tail, Lead4, Join4, Sum4, IsTail;
    IsTailIs(s, 1);
    IsTailIs(s, 2);
    IsTailIs(s, 3);
    if |s| >= 4 { JoinsAdd(s[0], s[1], s[2], s[3]); }
  }

  lemma WidthKept(b: bv8)
    ensures Wide(b) == b as bv32
  {}

  /** The bytes of a code point; surrogates and numbers that are too large are written as U+FFFD. */
  lemma CodesEncoded(cp: bv32)
    ensures cp < 0x80 ==> EncodeCode(cp) == [cp as bv8]
    ensures 0x80 <= cp < 0x800 ==> EncodeCode(cp) == [(0xC0 + cp / 64) as bv8, (0x80 + cp % 64) as bv8]
    ensures 0x800 <= cp < 0x10000 && !(0xD800 <= cp <= 0xDFFF) ==>
              EncodeCode(cp) == [(0xE0 + cp / 4096) as bv8, (0x80 + cp / 64 % 64) as bv8, (0x80 + cp % 64) as bv8]
    ensures 0x10000 <= cp <= 0x10FFFF ==>
              EncodeCode(cp) == [(0xF0 + cp / 262144) as bv8, (0x80 + cp / 4096 % 64) as bv8,
                                 (0x80 + cp / 64 % 64) as bv8, (0x80 + cp % 64) as bv8]
    ensures 0xD800 <= cp <= 0xDFFF || cp > 0x10FFFF ==> EncodeCode(cp) == [0xEF, 0xBF, 0xBD]
  {}

  // Code units

  function SumPair(w1: bv16, w2: bv16): bv32 {
    ((w1 as bv32) - 0xD800) * 0x400 + ((w2 as bv32) - 0xDC00) + 0x10000
  }

  predicate IsHigh(w: Units, i: nat) {
    i < |w| && 0xD800 <= w[i] < 0xDC00
  }

  predicate IsLow(w: Units, i: nat) {
    i < |w| && 0xDC00 <= w[i] < 0xE000
  }

  lemma UnitIs(w: Units, i: nat)
    requires i < |w|
    ensures IsHigh(w, i) <==> HighUnit(w[i])
    ensures IsLow(w, i) <==> LowUnit(w[i])
    ensures Wide16(w[i]) == w[i] as bv32
  {
    UnitRanges(w[i]);
  }

  /** A high and a low surrogate make one code point; a surrogate on its own is one unit and is read as U+FFFD. */
  lemma UnitsDecoded(w: Units)
    requires w != []
    ensures !IsHigh(w, 0) && !IsLow(w, 0) ==> ReadFirst(w) == Read(w[0] as bv32, 1)
    ensures IsHigh(w, 0) && IsLow(w, 1) ==> ReadFirst(w) == Read(SumPair(w[0], w[1]), 2)
    ensures IsHigh(w, 0) && !IsLow(w, 1) ==> ReadFirst(w) == Read(0xFFFD, 1)
    ensures IsLow(w, 0) ==> ReadFirst(w) == Read(0xFFFD, 1)
  {
    hide JoinPair, HighUnit, LowUnit, Wide16, SumPair, IsHigh, IsLow;
    UnitIs(w, 0);
    HighIsNotLow(w[0]);
    assert REPLACEMENT == 0xFFFD;
    if |w| >= 2 {
      UnitIs(w, 1);
      PairRead(w);
    } else {
      NoSecond(w);
    }
  }

  lemma PairRead(w: Units)
    requires |w| >= 2
    ensures IsHigh(w, 0) && IsLow(w, 1) ==> JoinPair(w[0], w[1]) == SumPair(w[0], w[1])
  {
    hide JoinPair, SumPair;
    PairAdds(w[0], w[1]);
  }

  lemma NoSecond(w: Units)
    requires |w| < 2
    ensures !IsLow(w, 1)
  {}

  lemma UnitRanges(w: bv16)
    ensures HighUnit(w) <==> 0xD800 <= w < 0xDC00
    ensures LowUnit(w) <==> 0xDC00 <= w < 0xE000
    ensures Wide16(w) == w as bv32
  {}

  lemma PairAdds(w1: bv16, w2: bv16)
    ensures 0xD800 <= w1 < 0xDC00 && 0xDC00 <= w2 < 0xE000 ==>
              JoinPair(w1, w2) == SumPair(w1, w2)
  {}

  /** The code units of a code point; a surrogate is written as U+FFFD. */
  lemma UnitsEncoded(cp: bv32)
    ensures cp < 0xD800 || 0xE000 <= cp < 0x10000 ==> UnitsOf(cp) == [cp as bv16]
    ensures 0xD800 <= cp < 0xE000 ==> UnitsOf(cp) == [0xFFFD]
    ensures 0x10000 <= cp <= 0x10FFFF ==>
              UnitsOf(cp) == [(0xD800 + (cp - 0x10000) / 0x400) as bv16, (0xDC00 + (cp - 0x10000) % 0x400) as bv16]
  {}
}
