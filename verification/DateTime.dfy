/** Formatting dates by tokens, and parsing them back strictly. */
module DateTime {
  import opened Common
  import opened CStrings

  datatype Fields = Fields(year: int, month: int, day: int, hour: int, minute: int, second: int, ms: int)

  datatype Token = Year | Month | Day | Hour | Minute | Second | Millisecond | Literal

  // Tokens

  /** `match_token` and `fmt_match`. */
  method MatchToken(fmt: string, pos: nat, tok: string) returns (matched: bool)
    requires pos <= |fmt|
    ensures matched == StartsWith(fmt[pos..], tok)
  {
    for i := 0 to |tok|
      invariant pos + i <= |fmt| && forall j :: 0 <= j < i ==> fmt[pos + j] == tok[j]
    {
      if pos + i >= |fmt| { return false; }
      if fmt[pos + i] != tok[i] {
        assert fmt[pos..][i] != tok[i];
        return false;
      }
    }
    assert fmt[pos..][..|tok|] == tok;
    return true;
  }

  /** The token at the start of the format, in the order of the parser's tests. */
  function TokenAt(fmt: string): Token {
    if StartsWith(fmt, "YYYY") then Year
    else if StartsWith(fmt, "MM") then Month
    else if StartsWith(fmt, "DD") then Day
    else if StartsWith(fmt, "hh") then Hour
    else if StartsWith(fmt, "mm") then Minute
    else if StartsWith(fmt, "ss") then Second
    else if StartsWith(fmt, "SSS") then Millisecond
    else Literal
  }

  function Width(t: Token): (n: nat)
    ensures 1 <= n <= 4
  {
    match t
    case Year => 4
    case Millisecond => 3
    case Literal => 1
    case _ => 2
  }

  lemma TokenFits(fmt: string)
    requires fmt != ""
    ensures Width(TokenAt(fmt)) <= |fmt|
  {}

  function FieldOf(f: Fields, t: Token): int {
    match t
    case Year => f.year
    case Month => f.month
    case Day => f.day
    case Hour => f.hour
    case Minute => f.minute
    case Second => f.second
    case Millisecond => f.ms
    case Literal => 0
  }

  function WithField(f: Fields, t: Token, v: int): Fields {
    match t
    case Year => f.(year := v)
    case Month => f.(month := v)
    case Day => f.(day := v)
    case Hour => f.(hour := v)
    case Minute => f.(minute := v)
    case Second => f.(second := v)
    case Millisecond => f.(ms := v)
    case Literal => f
  }

  // Digits

  /** The lowest `width` digits of a number. */
  function Digits(v: nat, width: nat): (s: string)
    ensures |s| == width
  {
    if width == 0 then "" else Digits(v / 10, width - 1) + [DigitChar(v % 10)]
  }

  /** `append_ndigits`: a negative value counts as 0. */
  method AppendNDigits(out: string, value: int, width: nat) returns (r: string)
    ensures r == out + Digits(if value < 0 then 0 else value, width)
  {
    var v: nat := if value < 0 then 0 else value;
    ghost var v0 := v;
    var buf := "";
    for i := 0 to width
      invariant Digits(v, width - i) + buf == Digits(v0, width)
    {
      var d := v % 10;
      Regrouped(Digits(v / 10, width - i - 1), [DigitChar(d)], buf);
      v := v / 10;
      buf := [DigitChar(d)] + buf;
    }
    assert Digits(v, 0) + buf == buf;
    r := out + buf;
  }

  /** `snprintf` with zero padding into a buffer that holds `width` characters. */
  function Padded(v: nat, width: nat): string {
    var d := DecimalOf(v);
    if |d| <= width then seq(width - |d|, i => '0') + d else d[..width]
  }

  function ValueOf(c: char): int { c as int - '0' as int }

  /** The number that the first `n` characters spell, if all are digits. */
  function ReadDigits(s: string, n: nat): Option<int> {
    if n == 0 then Some(0)
    else if |s| < n || !IsDigit(s[n - 1]) then None
    else
      match ReadDigits(s, n - 1)
      case None => None
      case Some(v) => Some(v * 10 + ValueOf(s[n - 1]))
  }

  /** `read_ndigits`: the position moves and the value is stored only on success. */
  method ReadNDigits(s: string, pos: nat, n: nat, out: int) returns (ok: bool, pos': nat, out': int)
    requires pos <= |s|
    ensures match ReadDigits(s[pos..], n)
            case None => !ok && pos' == pos && out' == out
            case Some(v) => ok && pos' == pos + n && pos' <= |s| && out' == v
  {
    pos', out' := pos, out;
    if pos + n > |s| {
      TooShort(s[pos..], n);
      return false, pos, out;
    }
    var v := 0;
    for i := 0 to n
      invariant ReadDigits(s[pos..], i) == Some(v)
    {
      var c := s[pos + i];
      if !IsDigit(c) {
        NotAllDigits(s[pos..], i, n);
        return false, pos, out;
      }
      v := v * 10 + ValueOf(c);
    }
    return true, pos + n, v;
  }

  lemma {:induction false} TooShort(s: string, n: nat)
    requires |s| < n
    ensures ReadDigits(s, n) == None
  {}

  lemma {:induction false} NotAllDigits(s: string, i: nat, n: nat)
    requires i < n <= |s| && !IsDigit(s[i])
    ensures ReadDigits(s, n) == None
  {
    if i < n - 1 { NotAllDigits(s, i, n - 1); }
  }

  function Power(n: nat): (p: nat)
    ensures p >= 1
  {
    if n == 0 then 1 else 10 * Power(n - 1)
  }

  lemma DigitCharIsDigit(d: nat)
    requires d < 10
    ensures IsDigit(DigitChar(d)) && ValueOf(DigitChar(d)) == d
  {}

  lemma {:induction false} ReadPrefix(s: string, t: string, n: nat)
    requires n <= |s|
    ensures ReadDigits(s + t, n) == ReadDigits(s, n)
  {
    if n > 0 { ReadPrefix(s, t, n - 1); }
  }

  /** Digits read back as the number, when there are enough of them. */
  lemma {:induction false} ReadPrintedDigits(v: nat, width: nat)
    requires v < Power(width)
    ensures ReadDigits(Digits(v, width), width) == Some(v)
  {
    hide DigitChar, IsDigit, ValueOf;
    if width > 0 {
      var s := Digits(v / 10, width - 1);
      ReadPrintedDigits(v / 10, width - 1);
      ReadPrefix(s, [DigitChar(v % 10)], width - 1);
      DigitCharIsDigit(v % 10);
    }
  }

  /** Printing through `snprintf` gives the same digits as long as the number fits. */
  lemma {:induction false} PaddedIsDigits(v: nat, width: nat)
    requires v < Power(width) && width > 0
    ensures Padded(v, width) == Digits(v, width)
    ensures |DecimalOf(v)| <= width
  {
    hide DigitChar;
    if v < 10 {
      ZeroDigits(width - 1);
    } else {
      PaddedIsDigits(v / 10, width - 1);
      var d := DecimalOf(v / 10);
      Regrouped(seq(width - 1 - |d|, i => '0'), d, [DigitChar(v % 10)]);
      assert seq(width - |DecimalOf(v)|, i => '0') == seq(width - 1 - |d|, i => '0');
    }
  }

  lemma {:induction false} ZeroDigits(n: nat)
    ensures Digits(0, n) == seq(n, i => '0')
  {
    if n > 0 {
      ZeroDigits(n - 1);
      assert seq(n, i => '0') == seq(n - 1, i => '0') + ['0'];
    }
  }

  // Formatting

  /** The text of one token; a literal stands for itself. */
  function Printed(fmt: string, f: Fields, t: Token): string
    requires fmt != ""
  {
    if t == Literal then [fmt[0]] else Digits(if FieldOf(f, t) < 0 then 0 else FieldOf(f, t), Width(t))
  }

  /** The formatter without milliseconds takes the letters of that token as literals. */
  function CoreToken(fmt: string): Token {
    if TokenAt(fmt) == Millisecond then Literal else TokenAt(fmt)
  }

  function FormatCore(fmt: string, f: Fields): string {
    if fmt == "" then ""
    else
      TokenFits(fmt);
      Printed(fmt, f, CoreToken(fmt)) + FormatCore(fmt[Width(CoreToken(fmt))..], f)
  }

  method FormatFromTmCore(f: Fields, fmt: string) returns (out: string)
    ensures out == FormatCore(fmt, f)
  {
    hide Digits, StartsWith;
    out := "";
    var fp := 0;
    assert fmt[0..] == fmt;
    while fp < |fmt|
      invariant 0 <= fp <= |fmt|
      invariant out + FormatCore(fmt[fp..], f) == FormatCore(fmt, f)
    {
      var t := ParseToken(fmt, fp);
      if t == Millisecond { t := Literal; }
      TokenFits(fmt[fp..]);
      Regrouped(out, Printed(fmt[fp..], f, t), FormatCore(fmt[fp..][Width(t)..], f));
      assert fmt[fp..][Width(t)..] == fmt[fp + Width(t)..];
      if t == Literal {
        out := out + [fmt[fp]];
      } else {
        out := AppendNDigits(out, FieldOf(f, t), Width(t));
      }
      fp := fp + Width(t);
    }
    Regrouped(out, "", "");
  }

  /** The chain of tests that picks the token at a position. */
  method ParseToken(fmt: string, fp: nat) returns (t: Token)
    requires fp < |fmt|
    ensures t == TokenAt(fmt[fp..])
  {
    hide StartsWith;
    var m := MatchToken(fmt, fp, "YYYY");
    if m { return Year; }
    m := MatchToken(fmt, fp, "MM");
    if m { return Month; }
    m := MatchToken(fmt, fp, "DD");
    if m { return Day; }
    m := MatchToken(fmt, fp, "hh");
    if m { return Hour; }
    m := MatchToken(fmt, fp, "mm");
    if m { return Minute; }
    m := MatchToken(fmt, fp, "ss");
    if m { return Second; }
    m := MatchToken(fmt, fp, "SSS");
    if m { return Millisecond; }
    return Literal;
  }

  /** The current-time formatter tests for milliseconds right after the year. */
  function ClockToken(fmt: string): Token {
    if StartsWith(fmt, "YYYY") then Year
    else if StartsWith(fmt, "SSS") then Millisecond
    else if StartsWith(fmt, "MM") then Month
    else if StartsWith(fmt, "DD") then Day
    else if StartsWith(fmt, "hh") then Hour
    else if StartsWith(fmt, "mm") then Minute
    else if StartsWith(fmt, "ss") then Second
    else Literal
  }

  /** No two tokens start alike, so the order of the tests does not matter. */
  lemma TokensAreTheSame(fmt: string)
    ensures ClockToken(fmt) == TokenAt(fmt)
  {
    if fmt != "" && (StartsWith(fmt, "SSS") || StartsWith(fmt, "MM") || StartsWith(fmt, "DD") || StartsWith(fmt, "hh")
                     || StartsWith(fmt, "mm") || StartsWith(fmt, "ss")) {
      assert fmt[0] in "SMDhms";
    }
  }

  /** The broken-down time of a clock: no field is negative. */
  predicate FromClock(f: Fields) {
    f.year >= 0 && f.month >= 0 && f.day >= 0 && f.hour >= 0 && f.minute >= 0 && f.second >= 0 && f.ms >= 0
  }

  function FormatClock(fmt: string, f: Fields): string
    requires FromClock(f)
  {
    if fmt == "" then ""
    else
      TokensAreTheSame(fmt);
      TokenFits(fmt);
      var t := ClockToken(fmt);
      (if t == Literal then [fmt[0]] else Padded(FieldOf(f, t), Width(t))) + FormatClock(fmt[Width(t)..], f)
  }

  /** `current_time_string`, given the time. */
  method CurrentTimeString(f: Fields, fmt: string) returns (out: string)
    requires FromClock(f)
    ensures out == FormatClock(fmt, f)
  {
    hide Padded, StartsWith, TokenAt;
    out := "";
    var i := 0;
    assert fmt[0..] == fmt;
    while i < |fmt|
      invariant 0 <= i <= |fmt|
      invariant out + FormatClock(fmt[i..], f) == FormatClock(fmt, f)
    {
      var t := ClockTokenAt(fmt, i);
      TokensAreTheSame(fmt[i..]);
      TokenFits(fmt[i..]);
      var text := if t == Literal then [fmt[i]] else Padded(FieldOf(f, t), Width(t));
      assert fmt[i..][Width(t)..] == fmt[i + Width(t)..];
      Regrouped(out, text, FormatClock(fmt[i + Width(t)..], f));
      out := out + text;
      i := i + Width(t);
    }
    Regrouped(out, "", "");
  }

  method ClockTokenAt(fmt: string, i: nat) returns (t: Token)
    requires i < |fmt|
    ensures t == ClockToken(fmt[i..])
  {
    if i + 4 <= |fmt| && fmt[i..i + 4] == "YYYY" {
      assert fmt[i..][..4] == "YYYY";
      return Year;
    }
    assert |fmt[i..]| >= 4 ==> fmt[i..][..4] == fmt[i..i + 4];
    if i + 3 <= |fmt| && fmt[i..i + 3] == "SSS" {
      assert fmt[i..][..3] == "SSS";
      return Millisecond;
    }
    assert |fmt[i..]| >= 3 ==> fmt[i..][..3] == fmt[i..i + 3];
    if i + 2 <= |fmt| {
      var token := fmt[i..i + 2];
      assert fmt[i..][..2] == token;
      if token == "MM" { return Month; }
      if token == "DD" { return Day; }
      if token == "hh" { return Hour; }
      if token == "mm" { return Minute; }
      if token == "ss" { return Second; }
    }
    return Literal;
  }
}
