/** Padding and hexadecimal text of the cipher (RFC 5652 section 6.3). Padding may be asked for with any block
    size but is removed under the fixed limit of 16 bytes; hexadecimal text is read with the tolerance of the
    C library, so that both round trips have conditions of their own. */
module CipherText {
  import opened Common
  import opened CStrings

  /** A call that may end in a C++ exception. */
  datatype Outcome<T> = Returns(value: T) | Throws

  // Padding

  function Repeat(b: bv8, n: nat): (s: Bytes)
    ensures |s| == n
  {
    seq(n, i => b)
  }

  function PaddingLength(length: nat, blockSize: nat): (n: nat)
    requires 0 < blockSize
    ensures 1 <= n <= blockSize
  {
    blockSize - length % blockSize
  }

  /** Truncation to eight bits. */
  function Byte(n: nat): bv8 {
    (n % 256) as bv8
  }

  function AddPadding(input: Bytes, blockSize: nat): Bytes
    requires 0 < blockSize
  {
    var n := PaddingLength(|input|, blockSize);
    input + Repeat(Byte(n), n)
  }

  method AddPaddingTo(input: Bytes, blockSize: nat) returns (data: Bytes)
    requires 0 < blockSize
    ensures data == AddPadding(input, blockSize)
  {
    var paddingLen := PaddingLength(|input|, blockSize);
    data := input;
    for i := 0 to paddingLen
      invariant data == input + Repeat(Byte(paddingLen), i)
    {
      data := data + [Byte(paddingLen)];
    }
  }

  /** The last `n` bytes of `d` all equal `b`. */
  predicate EndsWith(d: Bytes, b: bv8, n: nat) {
    n <= |d| && d[|d| - n..] == Repeat(b, n)
  }

  function RemovePadding(input: Bytes): Bytes {
    if input == [] then []
    else
      var b := input[|input| - 1];
      var n := b as nat;
      if n == 0 || n > 16 || !EndsWith(input, b, n) then [] else input[..|input| - n]
  }

  method RemovePaddingFrom(input: Bytes) returns (plain: Bytes)
    ensures plain == RemovePadding(input)
  {
    if input == [] { return []; }
    var b := input[|input| - 1];
    var paddingLen := b as nat;
    if paddingLen == 0 || paddingLen > 16 || paddingLen > |input| { return []; }
    var padded := IsPadded(input, b, paddingLen);
    if !padded { return []; }
    return input[..|input| - paddingLen];
  }

  /** The loop over the padding bytes. */
  method IsPadded(input: Bytes, b: bv8, n: nat) returns (padded: bool)
    requires n <= |input|
    ensures padded == EndsWith(input, b, n)
  {
    for i := 0 to n
      invariant input[|input| - i..] == Repeat(b, i)
    {
      if input[|input| - 1 - i] != b {
        assert input[|input| - n..][n - 1 - i] != Repeat(b, n)[n - 1 - i];
        return false;
      }
      assert input[|input| - 1 - i..] == [b] + input[|input| - i..];
    }
    return true;
  }

  lemma ByteKeepsSmallNumbers(n: nat)
    requires n < 256
    ensures Byte(n) as nat == n
  {
    assert n % 256 == n;
    assert (n as bv8) as nat == n;
  }

  lemma ByteTruncates(n: nat)
    ensures Byte(n) as nat == n % 256
  {
    ByteKeepsSmallNumbers(n % 256);
  }

  lemma LastOfPadded(p: Bytes, b: bv8, n: nat, k: nat)
    requires 1 <= n && k <= n
    ensures var d := p + Repeat(b, n); d[|d| - 1] == b && EndsWith(d, b, k)
  {
    var d := p + Repeat(b, n);
    assert d[|d| - k..] == Repeat(b, k);
  }

  /** What is left when a run of `n` bytes `b`, each of value `v`, is taken for padding. */
  lemma RemoveRun(p: Bytes, b: bv8, n: nat, v: nat)
    requires 1 <= n && v == b as nat
    ensures v == 0 || v > 16 ==> RemovePadding(p + Repeat(b, n)) == []
    ensures 1 <= v <= 16 && v <= n ==> RemovePadding(p + Repeat(b, n)) == p + Repeat(b, n - v)
  {
    hide EndsWith;
    LastOfPadded(p, b, n, if v <= n then v else n);
    if v <= n {
      assert (p + Repeat(b, n))[..|p| + n - v] == p + Repeat(b, n - v);
    }
  }

  /** Removing the padding restores every input exactly when the padding length survives in one
      byte that `remove_padding` accepts, or the input is empty and the padding is rejected. */
  lemma PaddingRoundTrip(p: Bytes, blockSize: nat)
    requires 0 < blockSize
    ensures var n := PaddingLength(|p|, blockSize);
            RemovePadding(AddPadding(p, blockSize)) == p
            <==> n <= 16 || (p == [] && (n % 256 == 0 || n % 256 > 16))
  {
    hide Byte, RemovePadding, Repeat;
    var n := PaddingLength(|p|, blockSize);
    ByteTruncates(n);
    RemoveRun(p, Byte(n), n, n % 256);
    if n <= 16 {
      assert p + Repeat(Byte(n), 0) == p;
    }
  }

  /** What `remove_padding` strips is a well-formed padding, and it is never longer than a block. */
  lemma RemovedPaddingIsWellFormed(d: Bytes)
    requires RemovePadding(d) != []
    ensures var n := |d| - |RemovePadding(d)|;
            1 <= n <= 16 && d == RemovePadding(d) + Repeat(Byte(n), n)
  {
    var b := d[|d| - 1];
    var n := b as nat;
    ByteKeepsSmallNumbers(n);
    assert Byte(n) == b;
    assert d == d[..|d| - n] + d[|d| - n..];
  }

  /** The bytes end in 1 to 16 bytes that all hold their own number. */
  predicate EndsInPadding(d: Bytes) {
    d != [] && var b := d[|d| - 1]; 1 <= b as nat <= 16 && EndsWith(d, b, b as nat)
  }

  /** What is whole blocks and ends in a padding is the padding of what is left without it. */
  lemma PaddingComesBack(d: Bytes)
    requires |d| % 16 == 0 && EndsInPadding(d)
    ensures AddPadding(RemovePadding(d), 16) == d
  {
    hide Byte;
    var b := d[|d| - 1];
    var n := b as nat;
    var p := d[..|d| - n];
    ByteOfSmall(b);
    assert PaddingLength(|p|, 16) == n;
    assert d == p + d[|d| - n..];
  }

  lemma ByteOfSmall(b: bv8)
    ensures Byte(b as nat) == b
  {
    ByteKeepsSmallNumbers(b as nat);
  }

  lemma PaddedEndsInPadding(p: Bytes)
    ensures EndsInPadding(AddPadding(p, 16))
  {
    hide Byte, Repeat, EndsWith;
    var n := PaddingLength(|p|, 16);
    ByteKeepsSmallNumbers(n);
    LastOfPadded(p, Byte(n), n, n);
  }

  // Hexadecimal text

  function HexDigit(n: bv8): char {
    if n == 0 then '0' else if n == 1 then '1' else if n == 2 then '2' else if n == 3 then '3'
    else if n == 4 then '4' else if n == 5 then '5' else if n == 6 then '6' else if n == 7 then '7'
    else if n == 8 then '8' else if n == 9 then '9' else if n == 10 then 'a' else if n == 11 then 'b'
    else if n == 12 then 'c' else if n == 13 then 'd' else if n == 14 then 'e' else 'f'
  }

  predicate IsHex(c: char) {
    '0' <= c <= '9' || 'a' <= c <= 'f' || 'A' <= c <= 'F'
  }

  function HexValue(c: char): bv8 {
    if c == '0' then 0 else if c == '1' then 1 else if c == '2' then 2 else if c == '3' then 3
    else if c == '4' then 4 else if c == '5' then 5 else if c == '6' then 6 else if c == '7' then 7
    else if c == '8' then 8 else if c == '9' then 9 else if c == 'a' || c == 'A' then 10
    else if c == 'b' || c == 'B' then 11 else if c == 'c' || c == 'C' then 12
    else if c == 'd' || c == 'D' then 13 else if c == 'e' || c == 'E' then 14 else 15
  }

  function HighNibble(b: bv8): bv8 {
    b >> 4
  }

  function LowNibble(b: bv8): bv8 {
    b & 15
  }

  function Joined(h: bv8, l: bv8): bv8 {
    (h << 4) | l
  }

  function Negated(b: bv8): bv8 {
    0 - b
  }

  function HexPair(b: bv8): (s: string)
    ensures |s| == 2
  {
    [HexDigit(HighNibble(b)), HexDigit(LowNibble(b))]
  }

  function ToHex(data: Bytes): string {
    if data == [] then "" else HexPair(data[0]) + ToHex(data[1..])
  }

  /** `std::stoul` in base 16 on two characters, truncated to a byte: the leading white space, sign
      and "0x" that it tolerates, the second character it may leave unread, and its exception. */
  function PairValue(c: char, d: char): Outcome<bv8> {
    if IsHex(c) then Returns(if IsHex(d) then Joined(HexValue(c), HexValue(d)) else HexValue(c))
    else if (IsSpace(c) || c == '+') && IsHex(d) then Returns(HexValue(d))
    else if c == '-' && IsHex(d) then Returns(Negated(HexValue(d)))
    else Throws
  }

  /** The bytes of an even number of characters. */
  function Pairs(hex: string): Outcome<Bytes>
    requires |hex| % 2 == 0
  {
    if hex == "" then Returns([])
    else
      match PairValue(hex[0], hex[1])
      case Throws => Throws
      case Returns(b) =>
        After([b], Pairs(hex[2..]))
  }

  function After(data: Bytes, rest: Outcome<Bytes>): Outcome<Bytes> {
    match rest
    case Throws => Throws
    case Returns(more) => Returns(data + more)
  }

  lemma AfterAfter(d: Bytes, e: Bytes, rest: Outcome<Bytes>)
    ensures After(d, After(e, rest)) == After(d + e, rest)
  {
    if rest.Returns? {
      assert d + (e + rest.value) == (d + e) + rest.value;
    }
  }

  lemma WithNothingBefore(rest: Outcome<Bytes>)
    ensures After([], rest) == rest
  {
    if rest.Returns? {
      assert [] + rest.value == rest.value;
    }
  }

  function FromHex(hex: string): Outcome<Bytes> {
    if |hex| % 2 != 0 then Returns([]) else Pairs(hex)
  }

  method ToHexText(data: Bytes) returns (s: string)
    ensures s == ToHex(data)
  {
    s := "";
    for i := 0 to |data|
      invariant s == ToHex(data[..i])
    {
      ToHexOfAppended(data[..i], data[i]);
      assert data[..i + 1] == data[..i] + [data[i]];
      s := s + HexPair(data[i]);
    }
    assert data[..|data|] == data;
  }

  lemma {:induction false} ToHexOfAppended(data: Bytes, b: bv8)
    ensures ToHex(data + [b]) == ToHex(data) + HexPair(b)
  {
    hide HexPair;
    if data == [] {
      assert ([b])[1..] == [];
    } else {
      ToHexOfAppended(data[1..], b);
      assert (data + [b])[1..] == data[1..] + [b];
    }
  }

  method FromHexText(hex: string) returns (r: Outcome<Bytes>)
    ensures r == FromHex(hex)
  {
    if |hex| % 2 != 0 { return Returns([]); }
    var data: Bytes := [];
    var i := 0;
    assert hex[0..] == hex;
    WithNothingBefore(Pairs(hex));
    while i < |hex|
      invariant 0 <= i <= |hex| && i % 2 == 0
      invariant FromHex(hex) == After(data, Pairs(hex[i..]))
    {
      var rest := hex[i..];
      assert rest[2..] == hex[i + 2..];
      match PairValue(hex[i], hex[i + 1])
      case Throws => return Throws;
      case Returns(b) =>
        AfterAfter(data, [b], Pairs(rest[2..]));
        data := data + [b];
        i := i + 2;
    }
    assert hex[i..] == "";
    assert data + [] == data;
    return Returns(data);
  }

  lemma HexDigitHasValue(n: bv8)
    requires n < 16
    ensures IsHex(HexDigit(n)) && HexValue(HexDigit(n)) == n
  {}

  lemma NibblesJoin(b: bv8)
    ensures Joined(HighNibble(b), LowNibble(b)) == b
  {}

  lemma NibblesAreSmall(b: bv8)
    ensures HighNibble(b) < 16 && LowNibble(b) < 16
  {}

  lemma PairRoundTrip(b: bv8)
    ensures PairValue(HexPair(b)[0], HexPair(b)[1]) == Returns(b)
  {
    hide HighNibble, LowNibble, HexDigit, HexValue, IsHex, Joined;
    NibblesAreSmall(b);
    HexDigitHasValue(HighNibble(b));
    HexDigitHasValue(LowNibble(b));
    NibblesJoin(b);
  }

  lemma {:induction false} HexRoundTripPairs(data: Bytes)
    ensures |ToHex(data)| == 2 * |data| && Pairs(ToHex(data)) == Returns(data)
  {
    hide HexPair, PairValue;
    if data != [] {
      HexRoundTripPairs(data[1..]);
      PairRoundTrip(data[0]);
      assert ToHex(data)[2..] == ToHex(data[1..]);
      assert data == [data[0]] + data[1..];
      assert ToHex(data)[0] == HexPair(data[0])[0] && ToHex(data)[1] == HexPair(data[0])[1];
    }
  }

  lemma HexRoundTrip(data: Bytes)
    ensures FromHex(ToHex(data)) == Returns(data)
  {
    hide ToHex, Pairs, HexPair, PairValue;
    HexRoundTripPairs(data);
  }

  predicate IsLowerHex(c: char) {
    '0' <= c <= '9' || 'a' <= c <= 'f'
  }

  lemma LowerDigitRoundTrip(c: char)
    requires IsLowerHex(c)
    ensures HexDigit(HexValue(c)) == c && HexValue(c) < 16 && IsHex(c)
  {}

  lemma JoinedNibbles(h: bv8, l: bv8)
    ensures h < 16 && l < 16 ==> HighNibble(Joined(h, l)) == h
    ensures h < 16 && l < 16 ==> LowNibble(Joined(h, l)) == l
  {}

  lemma HexDigitIsLower(n: bv8)
    ensures IsLowerHex(HexDigit(n))
  {}

  predicate AllLowerHex(s: string) {
    forall i :: 0 <= i < |s| ==> IsLowerHex(s[i])
  }

  lemma PairPrintsBack(c: char, d: char)
    requires IsLowerHex(c) && IsLowerHex(d)
    ensures PairValue(c, d).Returns? && HexPair(PairValue(c, d).value) == [c, d]
  {
    hide HighNibble, LowNibble, HexDigit, HexValue, IsHex, Joined, IsLowerHex;
    LowerDigitRoundTrip(c);
    LowerDigitRoundTrip(d);
    JoinedNibbles(HexValue(c), HexValue(d));
  }

  lemma {:induction false} ToHexIsLower(data: Bytes)
    ensures AllLowerHex(ToHex(data))
  {
    hide IsLowerHex, HexDigit, HighNibble, LowNibble;
    if data != [] {
      ToHexIsLower(data[1..]);
      HexDigitIsLower(HighNibble(data[0]));
      HexDigitIsLower(LowNibble(data[0]));
    }
  }

  lemma {:induction false} PairsPrintBack(hex: string)
    requires |hex| % 2 == 0 && AllLowerHex(hex)
    ensures Pairs(hex).Returns? && ToHex(Pairs(hex).value) == hex
  {
    hide PairValue, HexPair, IsLowerHex;
    if hex != "" {
      PairPrintsBack(hex[0], hex[1]);
      PairsPrintBack(hex[2..]);
      var rest := Pairs(hex[2..]).value;
      var b := PairValue(hex[0], hex[1]).value;
      assert ([b] + rest)[1..] == rest;
      assert hex == [hex[0], hex[1]] + hex[2..];
    }
  }

  /** Parsing and printing again keeps exactly the texts of whole bytes in lower-case digits. */
  lemma PrintedHexComesBack(hex: string)
    ensures FromHex(hex).Returns? && ToHex(FromHex(hex).value) == hex <==> |hex| % 2 == 0 && AllLowerHex(hex)
  {
    if |hex| % 2 == 0 && AllLowerHex(hex) {
      PairsPrintBack(hex);
    }
    if FromHex(hex).Returns? && ToHex(FromHex(hex).value) == hex {
      ToHexIsLower(FromHex(hex).value);
      HexRoundTripPairs(FromHex(hex).value);
    }
  }
}
