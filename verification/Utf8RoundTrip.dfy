/** The UTF-8 decoder and encoder against each other and against the grammar of RFC 3629 section 4. */
module Utf8RoundTrip {
  import opened Common
  import opened Utf8

  // Encode, then decode

  lemma DecodeEncoded1(cp: bv32, rest: Bytes)
    requires cp <= 0x7F
    ensures DecodeFirst(Encode1(cp) + rest) == Decoded(cp, 1)
  {
    hide Ascii, Narrow, Wide;
    NarrowAscii(cp);
    WideNarrow(cp);
    assert (Encode1(cp) + rest)[0] == Narrow(cp);
  }

  lemma DecodeEncoded2(cp: bv32, rest: Bytes)
    requires 0x80 <= cp <= 0x7FF
    ensures DecodeFirst(Encode2(cp) + rest) == Decoded(cp, 2)
  {
    hide Ascii, Lead2, Lead3, Lead4, Tail, First2, Tail0, Join2;
    First2Leads(cp);
    LeadsDiffer(First2(cp));
    TailsAreTails(cp);
    JoinSplit2(cp);
    var s := Encode2(cp) + rest;
    assert s[0] == First2(cp) && s[1] == Tail0(cp);
  }

  lemma DecodeEncoded3(cp: bv32, rest: Bytes)
    requires 0x800 <= cp <= 0xFFFF && !Surrogate(cp)
    ensures DecodeFirst(Encode3(cp) + rest) == Decoded(cp, 3)
  {
    hide Ascii, Lead2, Lead3, Lead4, Tail, First3, Tail0, Tail6, Join3;
    First3Leads(cp);
    LeadsDiffer(First3(cp));
    TailsAreTails(cp);
    JoinSplit3(cp);
    var s := Encode3(cp) + rest;
    assert s[0] == First3(cp) && s[1] == Tail6(cp) && s[2] == Tail0(cp);
  }

  lemma DecodeEncoded4(cp: bv32, rest: Bytes)
    requires 0x10000 <= cp <= 0x10FFFF
    ensures DecodeFirst(Encode4(cp) + rest) == Decoded(cp, 4)
  {
    hide Ascii, Lead2, Lead3, Lead4, Tail, First4, Tail0, Tail6, Tail12, Join4;
    First4Leads(cp);
    LeadsDiffer(First4(cp));
    TailsAreTails(cp);
    JoinSplit4(cp);
    var s := Encode4(cp) + rest;
    assert s[0] == First4(cp) && s[1] == Tail12(cp) && s[2] == Tail6(cp) && s[3] == Tail0(cp);
  }

  /** The bytes of one code point decode to it, whatever follows; what is no scalar value is replaced. */
  lemma DecodeEncodedCode(cp: bv32, rest: Bytes)
    ensures DecodeFirst(EncodeCode(cp) + rest) == Decoded(Sanitize(cp), |EncodeCode(cp)|)
  {
    hide DecodeFirst, Narrow, First2, First3, First4, Tail0, Tail6, Tail12;
    if cp <= 0x7F {
      DecodeEncoded1(cp, rest);
    } else if cp <= 0x7FF {
      DecodeEncoded2(cp, rest);
    } else if cp <= 0xFFFF && !Surrogate(cp) {
      DecodeEncoded3(cp, rest);
    } else if cp <= 0xFFFF || cp > 0x10FFFF {
      DecodeEncoded3(REPLACEMENT, rest);
    } else {
      DecodeEncoded4(cp, rest);
    }
  }

  function SanitizeAll(u: Codes): (v: Codes)
    ensures |v| == |u|
    ensures forall i :: 0 <= i < |u| ==> v[i] == Sanitize(u[i])
  {
    seq(|u|, i requires 0 <= i < |u| => Sanitize(u[i]))
  }

  /** Decoding what was encoded gives the code points back, with those that are no scalar values replaced. */
  lemma {:induction false} DecodeAfterEncode(u: Codes)
    ensures Decode(Encode(u)) == SanitizeAll(u)
  {
    hide DecodeFirst, EncodeCode, Sanitize;
    if u != [] {
      var first, rest := EncodeCode(u[0]), Encode(u[1..]);
      DecodeEncodedCode(u[0], rest);
      EncodedIsNotEmpty(u[0]);
      assert (first + rest)[|first|..] == rest;
      DecodeAfterEncode(u[1..]);
      assert SanitizeAll(u) == [Sanitize(u[0])] + SanitizeAll(u[1..]);
    }
  }

  lemma EncodedIsNotEmpty(cp: bv32)
    ensures 1 <= |EncodeCode(cp)| <= 4
  {}

  // Well-formed bytes

  predicate Between(lo: bv8, b: bv8, hi: bv8) { lo <= b <= hi }

  /** Whether `s` starts with one of the byte sequences of the standard, and how long it is; 0 if not. */
  function CharLength(s: Bytes): (n: nat)
    ensures n <= |s|
  {
    if s == [] then 0
    else if Between(0x00, s[0], 0x7F) then 1
    else if |s| >= 2 && IsChar2(s[0], s[1]) then 2
    else if |s| >= 3 && IsChar3(s[0], s[1], s[2]) then 3
    else if |s| >= 4 && IsChar4(s[0], s[1], s[2], s[3]) then 4
    else 0
  }

  predicate IsTail(b: bv8) { Between(0x80, b, 0xBF) }

  predicate IsChar2(b0: bv8, b1: bv8) {
    Between(0xC2, b0, 0xDF) && IsTail(b1)
  }

  predicate IsChar3(b0: bv8, b1: bv8, b2: bv8) {
    || (b0 == 0xE0 && Between(0xA0, b1, 0xBF) && IsTail(b2))
    || (Between(0xE1, b0, 0xEC) && IsTail(b1) && IsTail(b2))
    || (b0 == 0xED && Between(0x80, b1, 0x9F) && IsTail(b2))
    || (Between(0xEE, b0, 0xEF) && IsTail(b1) && IsTail(b2))
  }

  predicate IsChar4(b0: bv8, b1: bv8, b2: bv8, b3: bv8) {
    || (b0 == 0xF0 && Between(0x90, b1, 0xBF) && IsTail(b2) && IsTail(b3))
    || (Between(0xF1, b0, 0xF3) && IsTail(b1) && IsTail(b2) && IsTail(b3))
    || (b0 == 0xF4 && Between(0x80, b1, 0x8F) && IsTail(b2) && IsTail(b3))
  }

  /** The bytes are a sequence of the characters of the standard. */
  predicate WellFormed(s: Bytes) {
    s == [] || (CharLength(s) > 0 && WellFormed(s[CharLength(s)..]))
  }

  lemma AsciiInGrammar(b: bv8)
    ensures Ascii(b) <==> Between(0x00, b, 0x7F)
  {}

  lemma Char2InGrammar(b0: bv8, b1: bv8)
    ensures IsChar2(b0, b1) <==> Lead2(b0) && Tail(b1) && Join2(b0, b1) >= 0x80
  {}

  lemma Char3InGrammar(b0: bv8, b1: bv8, b2: bv8)
    ensures IsChar3(b0, b1, b2) <==>
            Lead3(b0) && Tail(b1) && Tail(b2) && Join3(b0, b1, b2) >= 0x800 && !Surrogate(Join3(b0, b1, b2))
  {}

  lemma Char4InGrammar(b0: bv8, b1: bv8, b2: bv8, b3: bv8)
    ensures IsChar4(b0, b1, b2, b3) <==>
            Lead4(b0) && Tail(b1) && Tail(b2) && Tail(b3) && 0x10000 <= Join4(b0, b1, b2, b3) <= 0x10FFFF
  {
    hide Join4, Lead4, Tail;
    TailRange(b1);
    TailRange(b2);
    TailRange(b3);
    Lead4Range(b0);
    Join4Low(b0, b1, b2, b3);
    Join4High(b0, b1, b2, b3);
  }

  lemma TailRange(b: bv8)
    ensures Tail(b) <==> IsTail(b)
  {}

  lemma Lead4Range(b: bv8)
    ensures Lead4(b) <==> 0xF0 <= b <= 0xF7
  {}

  lemma Join4Low(b0: bv8, b1: bv8, b2: bv8, b3: bv8)
    ensures Lead4(b0) && Tail(b1) ==> (0x10000 <= Join4(b0, b1, b2, b3) <==> b0 > 0xF0 || b1 >= 0x90)
  {}

  lemma Join4High(b0: bv8, b1: bv8, b2: bv8, b3: bv8)
    ensures Lead4(b0) && Tail(b1) ==> (Join4(b0, b1, b2, b3) <= 0x10FFFF <==> b0 < 0xF4 || (b0 == 0xF4 && b1 <= 0x8F))
  {}

  /** A first character of the grammar encodes back to its own bytes. */
  lemma GrammarComesBack(s: Bytes)
    requires CharLength(s) > 0
    ensures DecodeFirst(s).len == CharLength(s)
    ensures EncodeCode(DecodeFirst(s).cp) == s[..CharLength(s)]
  {
    hide Ascii, Lead2, Lead3, Lead4, Tail, Join2, Join3, Join4, IsChar2, IsChar3, IsChar4, Between, Wide, Narrow,
         First2, First3, First4, Tail0, Tail6, Tail12, Surrogate;
    AsciiInGrammar(s[0]);
    LeadsDiffer(s[0]);
    WideAscii(s[0]);
    NarrowWide(s[0]);
    if |s| >= 2 { Char2InGrammar(s[0], s[1]); SplitJoin2(s[0], s[1]); JoinRanges(s[0], s[1], 0, 0); }
    if |s| >= 3 { Char3InGrammar(s[0], s[1], s[2]); SplitJoin3(s[0], s[1], s[2]); JoinRanges(s[0], s[1], s[2], 0); }
    if |s| >= 4 { Char4InGrammar(s[0], s[1], s[2], s[3]); SplitJoin4(s[0], s[1], s[2], s[3]); }
  }

  /** What the encoder writes is always a character of the grammar. */
  lemma EncodedInGrammar(cp: bv32, rest: Bytes)
    ensures CharLength(EncodeCode(cp) + rest) == |EncodeCode(cp)|
  {
    hide Ascii, Lead2, Lead3, Lead4, Tail, Join2, Join3, Join4, IsChar2, IsChar3, IsChar4, Between, Narrow,
         First2, First3, First4, Tail0, Tail6, Tail12;
    var c := Sanitize(cp);
    assert EncodeCode(cp) == EncodeCode(c);
    var s := EncodeCode(c) + rest;
    TailsAreTails(c);
    NarrowAscii(c);
    First2Leads(c);
    First3Leads(c);
    First4Leads(c);
    JoinSplit2(c);
    JoinSplit3(c);
    JoinSplit4(c);
    AsciiInGrammar(s[0]);
    LeadsDiffer(s[0]);
    if |s| >= 2 { Char2InGrammar(s[0], s[1]); }
    if |s| >= 3 { Char3InGrammar(s[0], s[1], s[2]); }
    if |s| >= 4 { Char4InGrammar(s[0], s[1], s[2], s[3]); }
  }

  lemma {:induction false} EncodedIsWellFormed(u: Codes)
    ensures WellFormed(Encode(u))
  {
    hide EncodeCode, CharLength;
    if u != [] {
      EncodedIsNotEmpty(u[0]);
      EncodedInGrammar(u[0], Encode(u[1..]));
      assert Encode(u)[|EncodeCode(u[0])|..] == Encode(u[1..]);
      EncodedIsWellFormed(u[1..]);
    }
  }

  lemma {:induction false} WellFormedComesBack(s: Bytes)
    requires WellFormed(s)
    ensures Encode(Decode(s)) == s
  {
    hide EncodeCode, CharLength, DecodeFirst;
    if s != [] {
      GrammarComesBack(s);
      var n := CharLength(s);
      WellFormedComesBack(s[n..]);
      assert Decode(s) == [DecodeFirst(s).cp] + Decode(s[n..]);
      assert Decode(s)[1..] == Decode(s[n..]);
      assert s == s[..n] + s[n..];
    }
  }

  /** A byte string survives decoding and encoding exactly when it is well-formed UTF-8. */
  lemma EncodeAfterDecode(s: Bytes)
    ensures Encode(Decode(s)) == s <==> WellFormed(s)
  {
    EncodedIsWellFormed(Decode(s));
    if WellFormed(s) { WellFormedComesBack(s); }
  }

  /** The decoder only ever produces scalar values. */
  lemma DecodedFirstIsScalar(s: Bytes)
    requires s != []
    ensures Scalar(DecodeFirst(s).cp)
  {
    hide Ascii, Lead2, Lead3, Lead4, Tail, Join2, Join3, Join4, Wide, Scalar;
    WideAscii(s[0]);
    SmallIsScalar(Wide(s[0]));
    ReplacementIsScalar();
    if |s| >= 2 { SmallIsScalar(Join2(s[0], s[1])); JoinRanges(s[0], s[1], 0, 0); }
    if |s| >= 3 { MediumIsScalar(Join3(s[0], s[1], s[2])); JoinRanges(s[0], s[1], s[2], 0); }
    if |s| >= 4 { LargeIsScalar(Join4(s[0], s[1], s[2], s[3])); }
  }

  lemma SmallIsScalar(cp: bv32)
    ensures cp <= 0x7FF ==> Scalar(cp)
  {}

  lemma MediumIsScalar(cp: bv32)
    ensures cp <= 0xFFFF && !Surrogate(cp) ==> Scalar(cp)
  {}

  lemma LargeIsScalar(cp: bv32)
    ensures 0x10000 <= cp <= 0x10FFFF ==> Scalar(cp)
  {}

  lemma ReplacementIsScalar()
    ensures Scalar(REPLACEMENT)
  {}

  ghost predicate AllScalar(u: Codes) {
    forall i :: 0 <= i < |u| ==> Scalar(u[i])
  }

  lemma {:induction false} DecodedIsScalar(s: Bytes)
    ensures AllScalar(Decode(s))
  {
    hide DecodeFirst, Scalar;
    if s != [] {
      DecodedFirstIsScalar(s);
      DecodedIsScalar(s[LengthOfFirst(s)..]);
    }
  }

  lemma SanitizeKeepsScalars(u: Codes)
    ensures SanitizeAll(u) == u <==> AllScalar(u)
  {
    if AllScalar(u) {
      assert SanitizeAll(u) == u;
    } else {
      var i :| 0 <= i < |u| && !Scalar(u[i]);
      assert SanitizeAll(u)[i] == REPLACEMENT;
      assert Scalar(REPLACEMENT);
    }
  }

  /** Code points survive encoding and decoding exactly when all are scalar values. */
  lemma DecodeRestoresExactlyScalars(u: Codes)
    ensures Decode(Encode(u)) == u <==> AllScalar(u)
  {
    DecodeAfterEncode(u);
    SanitizeKeepsScalars(u);
  }

  // Joining texts

  /** A character of the grammar is decoded in the same way whatever follows it. */
  lemma GrammarIgnoresContext(s: Bytes, t: Bytes)
    requires CharLength(s) > 0
    ensures CharLength(s + t) == CharLength(s)
    ensures DecodeFirst(s + t) == DecodeFirst(s)
  {
    var n := CharLength(s);
    GrammarComesBack(s);
    GrammarLocal(s, t);
    GrammarComesBack(s + t);
    assert (s + t)[..n] == s[..n];
    var cp := DecodeFirst(s).cp;
    DecodedFirstIsScalar(s);
    DecodedFirstIsScalar(s + t);
    DecodeEncodedCode(cp, []);
    DecodeEncodedCode(DecodeFirst(s + t).cp, []);
  }

  lemma GrammarLocal(s: Bytes, t: Bytes)
    requires CharLength(s) > 0
    ensures CharLength(s + t) == CharLength(s)
  {
    hide Between;
    if |s| >= 1 { assert (s + t)[0] == s[0]; }
    if |s| >= 2 { assert (s + t)[1] == s[1]; }
    if |s| >= 3 { assert (s + t)[2] == s[2]; }
    if |s| >= 4 { assert (s + t)[3] == s[3]; }
    GrammarIsExclusive(s + t);
  }

  /** No character of the grammar starts another. */
  lemma GrammarIsExclusive(s: Bytes)
    ensures |s| >= 2 && IsChar2(s[0], s[1]) ==> !Between(0x00, s[0], 0x7F)
    ensures |s| >= 3 && IsChar3(s[0], s[1], s[2]) ==> !Between(0x00, s[0], 0x7F) && !IsChar2(s[0], s[1])
    ensures |s| >= 4 && IsChar4(s[0], s[1], s[2], s[3]) ==>
              !Between(0x00, s[0], 0x7F) && !IsChar2(s[0], s[1]) && !IsChar3(s[0], s[1], s[2])
  {}

  lemma DecodeSplit(s: Bytes)
    requires CharLength(s) > 0
    ensures Decode(s) == [DecodeFirst(s).cp] + Decode(s[CharLength(s)..])
    ensures WellFormed(s) <==> WellFormed(s[CharLength(s)..])
  {
    hide CharLength, DecodeFirst, EncodeCode;
    GrammarComesBack(s);
  }

  lemma {:induction false} DecodeJoined(s: Bytes, t: Bytes)
    requires WellFormed(s)
    ensures Decode(s + t) == Decode(s) + Decode(t)
    ensures WellFormed(t) ==> WellFormed(s + t)
  {
    hide CharLength, DecodeFirst, Decode;
    if s == [] {
      assert s + t == t;
      NothingDecoded();
    } else {
      var n := CharLength(s);
      DecodeSplit(s);
      GrammarIgnoresContext(s, t);
      DecodeSplit(s + t);
      assert (s + t)[n..] == s[n..] + t;
      DecodeJoined(s[n..], t);
    }
  }

  lemma NothingDecoded()
    ensures Decode([]) == []
  {}
}
