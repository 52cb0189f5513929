/** Padding and hexadecimal digits of the cipher in literal characters and numbers. */
module CipherLiterals {
  import opened Common
  import opened CStrings
  import opened CipherText

  // Padding

  /** One to sixteen bytes, each of which is their number, fill the last block. */
  lemma PaddingByBytes(p: Bytes)
    ensures var d := AddPadding(p, 16);
            var n := |d| - |p|;
            && 1 <= n <= 16 && |d| % 16 == 0 && d[..|p|] == p
            && forall i :: |p| <= i < |d| ==> d[i] as nat == n
  {
    hide Byte;
    var n := PaddingLength(|p|, 16);
    ByteKeepsSmallNumbers(n);
    WholeBlocks(|p|);
  }

  lemma WholeBlocks(length: nat)
    ensures (length + PaddingLength(length, 16)) % 16 == 0
  {}

  /** Padding is taken off only if the last byte is a number from 1 to 16 and as many last bytes are equal to it;
      otherwise nothing is left. */
  lemma UnpaddingByBytes(d: Bytes)
    ensures var n := if d == [] then 0 else d[|d| - 1] as nat;
            RemovePadding(d) ==
            if 1 <= n <= 16 && n <= |d| && (forall i :: |d| - n <= i < |d| ==> d[i] as nat == n) then d[..|d| - n]
            else []
  {
    hide EndsWith;
    if d != [] && d[|d| - 1] as nat <= |d| { RunIs(d, d[|d| - 1], d[|d| - 1] as nat); }
    assert d != [] && d[|d| - 1] as nat > |d| ==> !EndsWith(d, d[|d| - 1], d[|d| - 1] as nat) by { TooLong(d); }
  }

  lemma TooLong(d: Bytes)
    ensures d != [] && d[|d| - 1] as nat > |d| ==> !EndsWith(d, d[|d| - 1], d[|d| - 1] as nat)
  {}

  lemma RunIs(d: Bytes, b: bv8, n: nat)
    requires n <= |d| && n == b as nat
    ensures EndsWith(d, b, n) <==> forall i :: |d| - n <= i < |d| ==> d[i] as nat == n
  {
    var run := d[|d| - n..];
    if forall i :: |d| - n <= i < |d| ==> d[i] as nat == n {
      forall i | 0 <= i < n ensures run[i] == b { SameByte(d[|d| - n + i], b); }
      assert run == Repeat(b, n);
    }
    if EndsWith(d, b, n) {
      forall i | |d| - n <= i < |d| ensures d[i] == b { assert run[i - (|d| - n)] == d[i]; }
    }
  }

  lemma SameByte(b: bv8, c: bv8)
    requires b as nat == c as nat
    ensures b == c
  {
    ByteOfSmall(b);
    ByteOfSmall(c);
  }

  // Digits

  /** The ASCII code of a digit of the printer. */
  function DigitCode(n: bv8): int {
    if n < 10 then 48 + n as int else 87 + n as int
  }

  lemma DigitPrinted(n: bv8)
    requires n < 16
    ensures HexDigit(n) as int == DigitCode(n)
  {}

  lemma NibblesAre(b: bv8)
    ensures HighNibble(b) == b / 16 && LowNibble(b) == b % 16
    ensures b / 16 < 16 && b % 16 < 16
  {}

  /** Every byte is printed as its two digits, the higher one first, in small letters. */
  lemma {:induction false} BytesPrinted(data: Bytes, i: nat)
    requires i < |data|
    ensures |ToHex(data)| == 2 * |data|
    ensures ToHex(data)[2 * i] as int == DigitCode(data[i] / 16)
    ensures ToHex(data)[2 * i + 1] as int == DigitCode(data[i] % 16)
  {
    hide HexDigit, HighNibble, LowNibble, DigitCode;
    assert ToHex(data) == HexPair(data[0]) + ToHex(data[1..]);
    if i == 0 {
      NibblesAre(data[0]);
      DigitPrinted(data[0] / 16);
      DigitPrinted(data[0] % 16);
      HexRoundTripPairs(data[1..]);
    } else {
      BytesPrinted(data[1..], i - 1);
    }
  }

  /** The value of a digit in either case. */
  function HexNumber(c: char): Option<bv8> {
    var n := c as int;
    if 48 <= n <= 57 then Some((n - 48) as bv8)
    else if 97 <= n <= 102 then Some((n - 87) as bv8)
    else if 65 <= n <= 70 then Some((n - 55) as bv8)
    else None
  }

  lemma HexNumberIs(c: char)
    ensures HexNumber(c) == if IsHex(c) then Some(HexValue(c)) else None
  {
    hide HexValue;
    if IsDigit(c) {
      DecimalDigit(c);
    } else if 'a' <= c <= 'f' {
      SmallLetter(c);
    } else if 'A' <= c <= 'F' {
      CapitalLetter(c);
    }
  }

  lemma DecimalDigit(c: char)
    requires IsDigit(c)
    ensures HexNumber(c) == Some(HexValue(c))
  {
    match c {
      case '0' => case '1' => case '2' => case '3' => case '4' =>
      case '5' => case '6' => case '7' => case '8' => case _ => assert c == '9';
    }
  }

  lemma SmallLetter(c: char)
    requires 'a' <= c <= 'f'
    ensures HexNumber(c) == Some(HexValue(c))
  {
    if c == 'a' || c == 'b' {
    } else if c == 'c' || c == 'd' {
    } else {
      assert c == 'e' || c == 'f';
    }
  }

  lemma CapitalLetter(c: char)
    requires 'A' <= c <= 'F'
    ensures HexNumber(c) == Some(HexValue(c))
  {
    if c == 'A' || c == 'B' {
    } else if c == 'C' || c == 'D' {
    } else {
      assert c == 'E' || c == 'F';
    }
  }

  lemma ValuesJoin(h: bv8, l: bv8)
    ensures h < 16 && l < 16 ==> CipherText.Joined(h, l) == 16 * h + l
  {}

  lemma HexIsSmall(c: char)
    ensures HexValue(c) < 16
  {}

  /** Two characters are read as a byte: two digits; a digit alone in front of anything else; a digit behind white
      space or a sign, a minus sign taking it from 256. Everything else is refused. */
  lemma PairsRead(c: char, d: char)
    ensures PairValue(c, d) ==
            match (HexNumber(c), HexNumber(d))
            case (Some(h), Some(l)) => Returns(16 * h + l)
            case (Some(h), None) => Returns(h)
            case (None, Some(l)) =>
              if c in " \t\n\U{0b}\U{0c}\r+" then Returns(l) else if c == '-' then Returns(0 - l) else Throws
            case (None, None) => Throws
  {
    hide HexNumber, HexValue, CipherText.Joined;
    HexNumberIs(c);
    HexNumberIs(d);
    HexIsSmall(c);
    HexIsSmall(d);
    ValuesJoin(HexValue(c), HexValue(d));
  }
}
