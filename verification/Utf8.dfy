/** UTF-8 bytes and code points (RFC 3629 sections 3 and 4), as the lenient decoder and the encoder treat them. The
    patterns of bits are predicates and functions of their own, each with the few facts about it that the rest
    of the model uses; decoding replaces what it cannot read, encoding replaces what is no scalar value. */
module Utf8 {
  import opened Common

  type Codes = seq<bv32>

  const REPLACEMENT: bv32 := 0xFFFD

  // Bit patterns

  predicate Ascii(b: bv8) { b & 0x80 == 0 }

  predicate Lead2(b: bv8) { b & 0xE0 == 0xC0 }

  predicate Lead3(b: bv8) { b & 0xF0 == 0xE0 }

  predicate Lead4(b: bv8) { b & 0xF8 == 0xF0 }

  predicate Tail(b: bv8) { b & 0xC0 == 0x80 }

  function Wide(b: bv8): bv32 { b as bv32 }

  /** Truncation to a byte. */
  function Narrow(cp: bv32): bv8 { (cp & 0xFF) as bv8 }

  function Join2(b0: bv8, b1: bv8): bv32 {
    (Wide(b0 & 0x1F) << 6) | Wide(b1 & 0x3F)
  }

  function Join3(b0: bv8, b1: bv8, b2: bv8): bv32 {
    (Wide(b0 & 0x0F) << 12) | (Wide(b1 & 0x3F) << 6) | Wide(b2 & 0x3F)
  }

  function Join4(b0: bv8, b1: bv8, b2: bv8, b3: bv8): bv32 {
    (Wide(b0 & 0x07) << 18) | (Wide(b1 & 0x3F) << 12) | (Wide(b2 & 0x3F) << 6) | Wide(b3 & 0x3F)
  }

  function First2(cp: bv32): bv8 { Narrow(0xC0 | (cp >> 6)) }

  function First3(cp: bv32): bv8 { Narrow(0xE0 | (cp >> 12)) }

  function First4(cp: bv32): bv8 { Narrow(0xF0 | (cp >> 18)) }

  function Tail0(cp: bv32): bv8 { Narrow(0x80 | (cp & 0x3F)) }

  function Tail6(cp: bv32): bv8 { Narrow(0x80 | ((cp >> 6) & 0x3F)) }

  function Tail12(cp: bv32): bv8 { Narrow(0x80 | ((cp >> 12) & 0x3F)) }

  predicate Surrogate(cp: bv32) { 0xD800 <= cp <= 0xDFFF }

  /** A Unicode scalar value. */
  predicate Scalar(cp: bv32) { cp <= 0x10FFFF && !Surrogate(cp) }

  function Sanitize(cp: bv32): bv32 {
    if Scalar(cp) then cp else REPLACEMENT
  }

  // Decoding

  datatype Decoded = Decoded(cp: bv32, len: nat)

  function Bad(): Decoded { Decoded(REPLACEMENT, 1) }

  function Decode2(s: Bytes): Decoded
    requires s != []
  {
    if |s| < 2 || !Tail(s[1]) then Bad()
    else Decoded(if Join2(s[0], s[1]) < 0x80 then REPLACEMENT else Join2(s[0], s[1]), 2)
  }

  function Decode3(s: Bytes): Decoded
    requires s != []
  {
    if |s| < 3 || !Tail(s[1]) || !Tail(s[2]) then Bad()
    else
      var cp := Join3(s[0], s[1], s[2]);
      Decoded(if cp < 0x800 || Surrogate(cp) then REPLACEMENT else cp, 3)
  }

  function Decode4(s: Bytes): Decoded
    requires s != []
  {
    if |s| < 4 || !Tail(s[1]) || !Tail(s[2]) || !Tail(s[3]) then Bad()
    else
      var cp := Join4(s[0], s[1], s[2], s[3]);
      Decoded(if cp < 0x10000 || cp > 0x10FFFF then REPLACEMENT else cp, 4)
  }

  /** The first code point of `s` and the bytes it takes. */
  function DecodeFirst(s: Bytes): Decoded
    requires s != []
  {
    if Ascii(s[0]) then Decoded(Wide(s[0]), 1)
    else if Lead2(s[0]) then Decode2(s)
    else if Lead3(s[0]) then Decode3(s)
    else if Lead4(s[0]) then Decode4(s)
    else Bad()
  }

  function LengthOfFirst(s: Bytes): (n: nat)
    requires s != []
    ensures 1 <= n <= 4 && n <= |s|
  {
    DecodeFirst(s).len
  }

  function Decode(s: Bytes): Codes {
    if s == [] then [] else [DecodeFirst(s).cp] + Decode(s[LengthOfFirst(s)..])
  }

  /** `next_code_point` on the rest of the data. */
  method NextCodePoint(data: Bytes, index: nat) returns (more: bool, index': nat, cp: bv32)
    requires index <= |data|
    ensures more <==> index < |data|
    ensures more ==> var d := DecodeFirst(data[index..]); cp == d.cp && index' == index + d.len <= |data|
    ensures !more ==> index' == index
  {
    hide Ascii, Lead2, Lead3, Lead4, Tail, Join2, Join3, Join4, Surrogate;
    cp := 0;
    if index >= |data| { return false, index, cp; }
    more := true;
    var b0 := data[index];
    if Ascii(b0) {
      return true, index + 1, Wide(b0);
    }
    if Lead2(b0) {
      if index + 1 >= |data| { return true, index + 1, 0xFFFD; }
      var b1 := data[index + 1];
      if !Tail(b1) { return true, index + 1, 0xFFFD; }
      cp := Join2(b0, b1);
      return true, index + 2, if cp < 0x80 then 0xFFFD else cp;
    }
    if Lead3(b0) {
      if index + 2 >= |data| { return true, index + 1, 0xFFFD; }
      var b1, b2 := data[index + 1], data[index + 2];
      if !Tail(b1) || !Tail(b2) { return true, index + 1, 0xFFFD; }
      cp := Join3(b0, b1, b2);
      return true, index + 3, if cp < 0x800 || Surrogate(cp) then 0xFFFD else cp;
    }
    if Lead4(b0) {
      if index + 3 >= |data| { return true, index + 1, 0xFFFD; }
      var b1, b2, b3 := data[index + 1], data[index + 2], data[index + 3];
      if !Tail(b1) || !Tail(b2) || !Tail(b3) { return true, index + 1, 0xFFFD; }
      cp := Join4(b0, b1, b2, b3);
      return true, index + 4, if cp < 0x10000 || cp > 0x10FFFF then 0xFFFD else cp;
    }
    return true, index + 1, 0xFFFD;
  }

  method ToU32String(s: Bytes) returns (out: Codes)
    ensures out == Decode(s)
  {
    hide DecodeFirst;
    out := [];
    var index := 0;
    assert s[0..] == s;
    while index < |s|
      invariant 0 <= index <= |s|
      invariant Decode(s) == out + Decode(s[index..])
    {
      var more, index', cp := NextCodePoint(s, index);
      assert s[index..][index' - index..] == s[index'..];
      Regrouped(out, [cp], Decode(s[index'..]));
      out := out + [cp];
      index := index';
    }
    Regrouped(out, [], []);
  }

  // Encoding

  /** The bytes of a code point of each size. */
  function Encode1(cp: bv32): Bytes { [Narrow(cp)] }

  function Encode2(cp: bv32): Bytes { [First2(cp), Tail0(cp)] }

  function Encode3(cp: bv32): Bytes { [First3(cp), Tail6(cp), Tail0(cp)] }

  function Encode4(cp: bv32): Bytes { [First4(cp), Tail12(cp), Tail6(cp), Tail0(cp)] }

  function EncodeCode(cp: bv32): Bytes {
    if cp <= 0x7F then Encode1(cp)
    else if cp <= 0x7FF then Encode2(cp)
    else if cp <= 0xFFFF then Encode3(if Surrogate(cp) then REPLACEMENT else cp)
    else if cp <= 0x10FFFF then Encode4(cp)
    else Encode3(REPLACEMENT)
  }

  function Encode(u: Codes): Bytes {
    if u == [] then [] else EncodeCode(u[0]) + Encode(u[1..])
  }

  method AppendUtf8(cp0: bv32, out0: Bytes) returns (out: Bytes)
    ensures out == out0 + EncodeCode(cp0)
    decreases if cp0 > 0x10FFFF then 1 else 0
  {
    hide Narrow, First2, First3, First4, Tail0, Tail6, Tail12;
    var cp := cp0;
    out := out0;
    if cp <= 0x7F {
      out := out + [Narrow(cp)];
    } else if cp <= 0x7FF {
      out := out + [First2(cp)];
      out := out + [Tail0(cp)];
    } else if cp <= 0xFFFF {
      if Surrogate(cp) { cp := 0xFFFD; }
      out := out + [First3(cp)];
      out := out + [Tail6(cp)];
      out := out + [Tail0(cp)];
    } else if cp <= 0x10FFFF {
      out := out + [First4(cp)];
      out := out + [Tail12(cp)];
      out := out + [Tail6(cp)];
      out := out + [Tail0(cp)];
    } else {
      out := AppendUtf8(0xFFFD, out);
    }
  }

  method ToU8String(u: Codes) returns (out: Bytes)
    ensures out == Encode(u)
  {
    hide EncodeCode;
    out := [];
    assert u[0..] == u;
    for i := 0 to |u|
      invariant Encode(u) == out + Encode(u[i..])
    {
      assert u[i..][1..] == u[i + 1..];
      Regrouped(out, EncodeCode(u[i]), Encode(u[i + 1..]));
      out := AppendUtf8(u[i], out);
    }
    Regrouped(out, [], []);
  }

  // Facts about the bit patterns

  lemma NarrowAscii(cp: bv32)
    ensures cp <= 0x7F ==> Ascii(Narrow(cp))
  {}

  lemma WideNarrow(cp: bv32)
    ensures cp <= 0x7F ==> Wide(Narrow(cp)) == cp
  {}

  lemma NarrowWide(b: bv8)
    ensures Narrow(Wide(b)) == b
  {}

  lemma WideAscii(b: bv8)
    ensures Ascii(b) ==> Wide(b) <= 0x7F
  {}

  lemma First2Leads(cp: bv32)
    ensures cp <= 0x7FF ==> Lead2(First2(cp))
  {}

  lemma First3Leads(cp: bv32)
    ensures cp <= 0xFFFF ==> Lead3(First3(cp))
  {}

  lemma First4Leads(cp: bv32)
    ensures cp <= 0x10FFFF ==> Lead4(First4(cp))
  {}

  lemma TailsAreTails(cp: bv32)
    ensures Tail(Tail0(cp)) && Tail(Tail6(cp)) && Tail(Tail12(cp))
  {}

  lemma LeadsDiffer(b: bv8)
    ensures Lead2(b) ==> !Ascii(b)
    ensures Lead3(b) ==> !Ascii(b) && !Lead2(b)
    ensures Lead4(b) ==> !Ascii(b) && !Lead2(b) && !Lead3(b)
    ensures Tail(b) ==> !Ascii(b) && !Lead2(b) && !Lead3(b) && !Lead4(b)
  {}

  lemma JoinSplit2(cp: bv32)
    ensures cp <= 0x7FF ==> Join2(First2(cp), Tail0(cp)) == cp
  {}

  lemma JoinSplit3(cp: bv32)
    ensures cp <= 0xFFFF ==> Join3(First3(cp), Tail6(cp), Tail0(cp)) == cp
  {}

  lemma JoinSplit4(cp: bv32)
    ensures cp <= 0x10FFFF ==> Join4(First4(cp), Tail12(cp), Tail6(cp), Tail0(cp)) == cp
  {}

  lemma SplitJoin2(b0: bv8, b1: bv8)
    ensures Lead2(b0) && Tail(b1) ==> First2(Join2(b0, b1)) == b0 && Tail0(Join2(b0, b1)) == b1
  {}

  lemma SplitJoin3(b0: bv8, b1: bv8, b2: bv8)
    ensures Lead3(b0) && Tail(b1) && Tail(b2) ==>
              First3(Join3(b0, b1, b2)) == b0 && Tail6(Join3(b0, b1, b2)) == b1 && Tail0(Join3(b0, b1, b2)) == b2
  {}

  lemma SplitJoin4(b0: bv8, b1: bv8, b2: bv8, b3: bv8)
    ensures Lead4(b0) && Tail(b1) && Tail(b2) && Tail(b3) ==>
              && First4(Join4(b0, b1, b2, b3)) == b0 && Tail12(Join4(b0, b1, b2, b3)) == b1
              && Tail6(Join4(b0, b1, b2, b3)) == b2 && Tail0(Join4(b0, b1, b2, b3)) == b3
  {}

  lemma JoinRanges(b0: bv8, b1: bv8, b2: bv8, b3: bv8)
    ensures Join2(b0, b1) <= 0x7FF
    ensures Join3(b0, b1, b2) <= 0xFFFF
  {}
}
