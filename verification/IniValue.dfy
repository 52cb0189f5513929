/** How the INI store prints and reads back one value. */
module IniValue {
  import opened Common
  import opened CStrings
  import opened IniText

  // Integers

  /** The value of a digit, or 99. */
  function DigitOf(c: char): nat {
    if '0' <= c <= '9' then (c - '0') as nat
    else if 'a' <= c <= 'f' then (c - 'a') as nat + 10
    else if 'A' <= c <= 'F' then (c - 'A') as nat + 10
    else 99
  }

  predicate AllDigits(s: string, base: nat) {
    forall i :: 0 <= i < |s| ==> DigitOf(s[i]) < base
  }

  function NumberOf(s: string, base: nat): nat {
    if s == "" then 0 else NumberOf(s[..|s| - 1], base) * base + DigitOf(s[|s| - 1])
  }

  predicate IsInt64(n: int) {
    -0x8000_0000_0000_0000 <= n < 0x8000_0000_0000_0000
  }

  predicate StartsHex(s: string) {
    |s| > 2 && s[0] == '0' && (s[1] == 'x' || s[1] == 'X') && DigitOf(s[2]) < 16
  }

  /** The digits after the sign, in the base their prefix selects. */
  function ParseDigits(s: string): Option<int> {
    var base := if StartsHex(s) then 16 else if s != "" && s[0] == '0' then 8 else 10;
    var digits := if StartsHex(s) then s[2..] else s;
    if digits == "" || !AllDigits(digits, base) then None else Some(NumberOf(digits, base))
  }

  /** `strtoll` in base 0 with nothing left over, inside 64 bits. */
  function ParseInt(v: string): Option<int> {
    var s := SkipSpace(CText(v));
    var negative := s != "" && s[0] == '-';
    var rest := if s != "" && (s[0] == '-' || s[0] == '+') then s[1..] else s;
    match ParseDigits(rest)
    case None => None
    case Some(n) =>
      var value: int := if negative then -n else n;
      if IsInt64(value) then Some(value) else None
  }

  function Decimal(n: int): string {
    if n < 0 then "-" + DecimalOf(-n) else DecimalOf(n)
  }

  lemma {:induction false} DecimalShape(n: nat)
    ensures AllDigits(DecimalOf(n), 10)
    ensures forall i :: 0 <= i < |DecimalOf(n)| ==> '0' <= DecimalOf(n)[i] <= '9'
    ensures DecimalOf(n)[0] == '0' ==> n == 0
    ensures n == 0 ==> DecimalOf(n) == "0"
  {
    if n >= 10 { DecimalShape(n / 10); }
  }

  lemma {:induction false} NumberOfDecimal(n: nat)
    ensures NumberOf(DecimalOf(n), 10) == n
  {
    if n < 10 {
      assert [DigitChar(n)][..0] == "";
    } else {
      NumberOfDecimal(n / 10);
      assert DecimalOf(n)[..|DecimalOf(n)| - 1] == DecimalOf(n / 10);
    }
  }

  lemma ParseDecimalDigits(n: nat)
    ensures ParseDigits(DecimalOf(n)) == Some(n)
  {
    DecimalShape(n);
    NumberOfDecimal(n);
    if n == 0 {
      assert "0"[..0] == "";
      assert NumberOf("0", 8) == 0;
    }
  }

  /** What `std::to_string` prints, `strtoll` in base 0 reads back. */
  lemma ParsePrintedInt(n: int)
    ensures ParseInt(Decimal(n)) == if IsInt64(n) then Some(n) else None
  {
    hide ParseDigits, DecimalOf;
    var d := DecimalOf(if n < 0 then -n else n);
    DecimalShape(if n < 0 then -n else n);
    ParseDecimalDigits(if n < 0 then -n else n);
    CTextWithoutNul(Decimal(n));
    if n < 0 {
      assert Decimal(n)[1..] == d;
    }
  }

  // Booleans

  function LowerText(s: string): string {
    seq(|s|, i requires 0 <= i < |s| => Lower(s[i]))
  }

  function ParseBool(v: string): Option<bool> {
    if LowerText(v) == "true" then Some(true)
    else if LowerText(v) == "false" then Some(false)
    else None
  }

  // Values

  datatype Kind = Str | Bool | Int | Double

  datatype Value = Value(text: string, kind: Kind, literal: bool)

  predicate IsNumberChar(c: char) {
    IsDigit(c) || c == '.' || c == 'e' || c == '+' || c == '-'
  }

  function Unsigned(t: string): string {
    if t != "" && t[0] == '-' then t[1..] else t
  }

  /** The texts `format_double` prints: a sign, then "inf", "nan" or digits with a point or an exponent, where
      no digit follows a leading zero. */
  predicate FormattedDouble(t: string) {
    var u := Unsigned(t);
    || u == "inf" || u == "nan"
    || (u != "" && IsDigit(u[0]) && (u[0] == '0' && |u| > 1 ==> u[1] == '.')
        && forall i :: 0 <= i < |u| ==> IsNumberChar(u[i]))
  }

  /** `strtod` followed by `format_double`: what a text is reprinted as, if it is a number. */
  type Reals = f: string -> Option<string> | forall s :: f(s).Some? ==> FormattedDouble(f(s).value)
    witness s => None

  predicate Surrounded(v: string, quote: char) {
    |v| >= 2 && v[0] == quote && v[|v| - 1] == quote
  }

  /** A value that is not in quotes. */
  function ReadPlain(v: string, reals: Reals): Value {
    match ParseBool(v)
    case Some(b) => Value(if b then "true" else "false", Bool, false)
    case None =>
      match ParseInt(v)
      case Some(n) => Value(Decimal(n), Int, false)
      case None =>
        match reals(v)
        case Some(t) => Value(t, Double, false)
        case None => Value(Decode(v), Str, false)
  }

  function ReadTrimmed(v: string, reals: Reals): Value {
    if Surrounded(v, '\'') then Value(Decode(v[1..|v| - 1]), Str, false)
    else if Surrounded(v, '"') then Value(DecodeLiteral(v[1..|v| - 1]), Str, true)
    else ReadPlain(v, reals)
  }

  /** What `load` makes of the text after the equals sign. */
  function ReadValue(raw: string, reals: Reals): Value {
    ReadTrimmed(Trim(StripComment(raw)), reals)
  }

  /** What `save` writes after the equals sign. */
  function WriteValue(v: Value): string {
    match v.kind
    case Str => if v.literal then "\"" + EncodeLiteral(v.text) + "\"" else "'" + Encode(v.text) + "'"
    case Bool => if v.text == "true" then "true" else "false"
    case Int => v.text
    case Double => v.text
  }

  /** The values that the setters and `load` can store. */
  ghost predicate Storable(v: Value) {
    match v.kind
    case Str => true
    case Bool => !v.literal && (v.text == "true" || v.text == "false")
    case Int => !v.literal && exists n: int :: IsInt64(n) && v.text == Decimal(n)
    case Double => !v.literal && FormattedDouble(v.text)
  }

  /** Whatever `load` reads is a value the setters could have stored. */
  lemma ReadIsStorable(raw: string, reals: Reals)
    ensures Storable(ReadValue(raw, reals))
  {
    hide FormattedDouble, ParseBool, Trim, StripComment, Decode, DecodeLiteral, Decimal;
    var v := Trim(StripComment(raw));
    if ParseInt(v).Some? { ParsedIsInt64(v); }
  }

  lemma ParsedIsInt64(v: string)
    requires ParseInt(v).Some?
    ensures IsInt64(ParseInt(v).value)
  {}

  method ParseValue(raw: string, reals: Reals) returns (v: Value)
    ensures v == ReadValue(raw, reals)
  {
    var stripped := StripInlineComment(raw);
    var value := TrimText(stripped);
    if |value| >= 2 && value[0] == '\'' && value[|value| - 1] == '\'' {
      var text := DecodeEscapes(value[1..|value| - 1]);
      return Value(text, Str, false);
    }
    if |value| >= 2 && value[0] == '"' && value[|value| - 1] == '"' {
      var text := UnescapeLiteral(value[1..|value| - 1]);
      return Value(text, Str, true);
    }
    if ParseBool(value).Some? { return Value(if ParseBool(value).value then "true" else "false", Bool, false); }
    if ParseInt(value).Some? { return Value(Decimal(ParseInt(value).value), Int, false); }
    if reals(value).Some? { return Value(reals(value).value, Double, false); }
    var text := DecodeEscapes(value);
    return Value(text, Str, false);
  }

  // The quote scanner on encoded text

  /** No comment character outside quotes, scanning from state `q`. */
  predicate Quiet(q: Quotes, s: string)
    decreases |s|
  {
    s == "" || (!(Next(q, s[0]) == OUTSIDE && IsComment(s[0])) && Quiet(Next(q, s[0]), s[1..]))
  }

  lemma {:induction false} QuietMeansNoComment(q: Quotes, s: string)
    ensures Quiet(q, s) <==> CommentAt(q, s) == |s|
    decreases |s|
  {
    if s != "" { QuietMeansNoComment(Next(q, s[0]), s[1..]); }
  }

  lemma {:induction false} QuietJoined(q: Quotes, a: string, b: string)
    ensures Quiet(q, a + b) <==> Quiet(q, a) && Quiet(After(q, a), b)
    ensures After(q, a + b) == After(After(q, a), b)
    decreases |a|
  {
    if a == "" {
      assert a + b == b;
    } else {
      assert (a + b)[1..] == a[1..] + b;
      QuietJoined(Next(q, a[0]), a[1..], b);
    }
  }

  lemma QuietCharacter(q: Quotes, c: char)
    ensures Quiet(q, [c]) <==> !(Next(q, c) == OUTSIDE && IsComment(c))
    ensures After(q, [c]) == Next(q, c)
  {
    assert [c][1..] == "";
    assert After(Next(q, c), "") == Next(q, c);
  }

  lemma QuietPair(q: Quotes, c: char, d: char)
    ensures Quiet(q, [c, d]) <==> Quiet(q, [c]) && Quiet(Next(q, c), [d])
    ensures After(q, [c, d]) == Next(Next(q, c), d)
  {
    assert [c, d] == [c] + [d];
    QuietJoined(q, [c], [d]);
    QuietCharacter(q, c);
    QuietCharacter(Next(q, c), d);
  }

  lemma EscapeScansAlike(q: Quotes, c: char)
    ensures Quiet(q, EscapeOf(c)) <==> Quiet(q, [c])
    ensures After(q, EscapeOf(c)) == Next(q, c)
  {
    hide Quiet, After;
    var e := EscapeOf(c);
    QuietCharacter(q, c);
    if |e| == 2 {
      QuietPair(q, '\\', e[1]);
      QuietCharacter(q, '\\');
      QuietCharacter(q, e[1]);
      assert e == ['\\', e[1]];
    }
  }

  lemma QuietSplit(q: Quotes, s: string)
    requires s != ""
    ensures Quiet(q, s) <==> Quiet(q, [s[0]]) && Quiet(Next(q, s[0]), s[1..])
    ensures After(q, s) == After(Next(q, s[0]), s[1..])
  {
    QuietCharacter(q, s[0]);
  }

  /** The scanner sees quotes and comments in the encoded text just as in the text itself. */
  lemma {:induction false} EncodedScansAlike(q: Quotes, s: string)
    ensures Quiet(q, Encode(s)) <==> Quiet(q, s)
    ensures After(q, Encode(s)) == After(q, s)
    decreases |s|
  {
    hide Quiet, EscapeOf, After;
    if s != "" {
      EscapeScansAlike(q, s[0]);
      QuietJoined(q, EscapeOf(s[0]), Encode(s[1..]));
      EncodedScansAlike(Next(q, s[0]), s[1..]);
      QuietSplit(q, s);
    }
  }

  function LiteralEscape(c: char): string {
    if c == '"' then "\\\"" else [c]
  }

  lemma LiteralEscapeScansAlike(q: Quotes, c: char)
    ensures Quiet(q, LiteralEscape(c)) <==> Quiet(q, [c])
    ensures After(q, LiteralEscape(c)) == Next(q, c)
  {
    hide Quiet, After;
    QuietCharacter(q, c);
    QuietPair(q, '\\', '"');
    QuietCharacter(q, '\\');
    QuietCharacter(q, '"');
    assert "\\\"" == ['\\', '"'];
  }

  lemma {:induction false} EncodedLiteralScansAlike(q: Quotes, s: string)
    ensures Quiet(q, EncodeLiteral(s)) <==> Quiet(q, s)
    ensures After(q, EncodeLiteral(s)) == After(q, s)
    decreases |s|
  {
    hide Quiet, After;
    if s != "" {
      LiteralEscapeScansAlike(q, s[0]);
      QuietJoined(q, LiteralEscape(s[0]), EncodeLiteral(s[1..]));
      EncodedLiteralScansAlike(Next(q, s[0]), s[1..]);
      QuietSplit(q, s);
    }
  }

  // Comment characters are neither made nor lost by the escapes

  function Comments(s: string): nat {
    if s == "" then 0 else (if IsComment(s[0]) then 1 else 0) + Comments(s[1..])
  }

  lemma {:induction false} CommentsJoined(a: string, b: string)
    ensures Comments(a + b) == Comments(a) + Comments(b)
  {
    if a == "" {
      assert a + b == b;
    } else {
      assert (a + b)[1..] == a[1..] + b;
      CommentsJoined(a[1..], b);
    }
  }

  lemma CommentsOfSlice(s: string, i: nat, j: nat)
    requires i <= j <= |s|
    ensures Comments(s[i..j]) <= Comments(s)
  {
    assert s == s[..i] + (s[i..j] + s[j..]);
    CommentsJoined(s[..i], s[i..j] + s[j..]);
    CommentsJoined(s[i..j], s[j..]);
  }

  lemma CommentsOfTrimmed(s: string)
    ensures Comments(Trim(s)) <= Comments(s)
  {
    TrimShape(s);
    var i: nat, j: nat :| i <= j <= |s| && Trim(s) == s[i..j];
    CommentsOfSlice(s, i, j);
  }

  lemma {:induction false} CommentsOfDropped(s: string)
    ensures Comments(DropTrailingSpace(s)) <= Comments(s)
  {
    if s != "" && IsSpace(s[|s| - 1]) {
      CommentsOfDropped(s[..|s| - 1]);
      CommentsOfSlice(s, 0, |s| - 1);
    }
  }

  lemma CommentsOfOne(c: char)
    ensures Comments([c]) == if IsComment(c) then 1 else 0
  {
    assert [c][1..] == "";
  }

  lemma CommentsOfTwo(c: char, d: char)
    ensures Comments([c, d]) == Comments([c]) + Comments([d])
  {
    assert [c, d] == [c] + [d];
    CommentsJoined([c], [d]);
  }

  lemma CommentsOfEscape(c: char)
    ensures Comments(EscapeOf(c)) == Comments([c])
    ensures Comments(LiteralEscape(c)) == Comments([c])
  {
    hide Comments;
    CommentsOfOne(c);
    CommentsOfOne('\\');
    var e := EscapeOf(c);
    if |e| == 2 {
      assert e == ['\\', e[1]];
      CommentsOfTwo('\\', e[1]);
      CommentsOfOne(e[1]);
    }
    if c == '"' {
      assert LiteralEscape(c) == ['\\', '"'];
      CommentsOfTwo('\\', '"');
      CommentsOfOne('"');
    }
  }

  lemma CommentsOfUnescaped(c: char)
    ensures Comments(Unescaped(c)) == Comments([c])
  {
    hide Comments;
    CommentsOfOne(c);
    CommentsOfOne('\\');
    CommentsOfOne('\t');
    CommentsOfOne('\n');
    CommentsOfOne('\r');
    CommentsOfTwo('\\', c);
  }

  lemma {:induction false} CommentsOfEncoded(s: string)
    ensures Comments(Encode(s)) == Comments(s)
    ensures Comments(EncodeLiteral(s)) == Comments(s)
  {
    hide EscapeOf;
    if s != "" {
      CommentsOfEncoded(s[1..]);
      CommentsOfEscape(s[0]);
      CommentsOfOne(s[0]);
      CommentsJoined(EscapeOf(s[0]), Encode(s[1..]));
      CommentsJoined(LiteralEscape(s[0]), EncodeLiteral(s[1..]));
    }
  }

  lemma {:induction false} CommentsOfDecoded(s: string)
    ensures Comments(Decode(s)) == Comments(s)
  {
    hide Unescaped;
    if s != "" {
      CommentsOfOne(s[0]);
      if s[0] == '\\' && |s| > 1 {
        CommentsOfDecoded(s[2..]);
        CommentsOfUnescaped(s[1]);
        CommentsOfOne(s[1]);
        CommentsJoined(Unescaped(s[1]), Decode(s[2..]));
        assert s[1..][1..] == s[2..];
      } else {
        CommentsOfDecoded(s[1..]);
        CommentsJoined([s[0]], Decode(s[1..]));
      }
    }
  }

  lemma {:induction false} CommentsOfDecodedLiteral(s: string)
    ensures Comments(DecodeLiteral(s)) == Comments(s)
  {
    if s != "" {
      CommentsOfOne(s[0]);
      if s[0] == '\\' && |s| > 1 && s[1] == '"' {
        CommentsOfDecodedLiteral(s[2..]);
        CommentsOfOne('"');
        CommentsJoined("\"", DecodeLiteral(s[2..]));
        assert s[1..][1..] == s[2..];
      } else {
        CommentsOfDecodedLiteral(s[1..]);
        CommentsJoined([s[0]], DecodeLiteral(s[1..]));
      }
    }
  }

  /** Cutting at a comment character loses one. */
  lemma {:induction false} CommentsBeforeTheCut(q: Quotes, s: string)
    requires CommentAt(q, s) < |s|
    ensures Comments(s[..CommentAt(q, s)]) < Comments(s)
    decreases |s|
  {
    var i := CommentAt(q, s);
    if i > 0 {
      CommentsBeforeTheCut(Next(q, s[0]), s[1..]);
      assert s[..i][1..] == s[1..][..i - 1];
    }
  }

  lemma CommentsOfStripped(s: string)
    requires !Quiet(OUTSIDE, s)
    ensures Comments(Trim(StripComment(s))) < Comments(s)
  {
    QuietMeansNoComment(OUTSIDE, s);
    CommentsBeforeTheCut(OUTSIDE, s);
    CommentsOfDropped(s[..CommentAt(OUTSIDE, s)]);
    CommentsOfTrimmed(StripComment(s));
  }

  /** A string read back has no more comment characters than the text it was read from. */
  lemma CommentsOfRead(v: string, reals: Reals)
    requires ReadTrimmed(v, reals).kind == Str
    ensures Comments(ReadTrimmed(v, reals).text) <= Comments(v)
  {
    hide Comments, ParseBool, ParseInt, Decode, DecodeLiteral, FormattedDouble;
    if |v| >= 2 {
      CommentsOfDecoded(v[1..|v| - 1]);
      CommentsOfDecodedLiteral(v[1..|v| - 1]);
      CommentsOfSlice(v, 1, |v| - 1);
    }
    CommentsOfDecoded(v);
  }

  // The round trip of a value

  /** The state of the scanner just inside the quotes of a string. */
  function Inside(literal: bool): Quotes {
    if literal then Quotes(false, true) else Quotes(true, false)
  }

  /** Every comment character of the string is inside quotes, when the quotes are counted from
      the opening one that `save` adds. */
  predicate Guarded(v: Value) {
    v.kind == Str ==> Quiet(Inside(v.literal), v.text)
  }

  lemma WrittenScansAlike(v: Value)
    requires v.kind == Str
    ensures Quiet(OUTSIDE, WriteValue(v)) <==> Guarded(v)
    ensures Comments(WriteValue(v)) == Comments(v.text)
  {
    hide Quiet, After, Comments;
    var quote := if v.literal then '"' else '\'';
    var inner := if v.literal then EncodeLiteral(v.text) else Encode(v.text);
    assert WriteValue(v) == [quote] + (inner + [quote]);
    QuietJoined(OUTSIDE, [quote], inner + [quote]);
    QuietCharacter(OUTSIDE, quote);
    QuietJoined(Inside(v.literal), inner, [quote]);
    QuietCharacter(After(Inside(v.literal), inner), quote);
    if v.literal { EncodedLiteralScansAlike(Inside(true), v.text); } else { EncodedScansAlike(Inside(false), v.text); }
    CommentsJoined([quote], inner + [quote]);
    CommentsJoined(inner, [quote]);
    CommentsOfOne(quote);
    CommentsOfEncoded(v.text);
  }

  lemma QuotedStringComesBack(v: Value, reals: Reals)
    requires v.kind == Str && Guarded(v)
    ensures ReadValue(WriteValue(v), reals) == v
  {
    hide Quiet, Encode, EncodeLiteral, Decode, DecodeLiteral, CommentAt, Trim;
    var w := WriteValue(v);
    WrittenScansAlike(v);
    QuietMeansNoComment(OUTSIDE, w);
    assert StripComment(w) == w;
    TrimKeepsStable(w);
    DecodeEncoded(v.text);
    DecodeEncodedLiteral(v.text);
    if v.literal {
      assert w[1..|w| - 1] == EncodeLiteral(v.text);
    } else {
      assert w[1..|w| - 1] == Encode(v.text);
    }
  }

  lemma UnguardedStringIsLost(v: Value, reals: Reals)
    requires v.kind == Str && !Guarded(v)
    ensures ReadValue(WriteValue(v), reals) != v
  {
    hide Quiet, Comments, ReadTrimmed, Trim, StripComment;
    var w := WriteValue(v);
    WrittenScansAlike(v);
    CommentsOfStripped(w);
    var t := Trim(StripComment(w));
    if ReadTrimmed(t, reals).kind == Str { CommentsOfRead(t, reals); }
  }

  /** A text without quotes, comment characters and white space is read as it stands. */
  lemma {:induction false} PlainIsQuiet(s: string)
    requires forall i :: 0 <= i < |s| ==> !IsComment(s[i])
    ensures forall q :: Quiet(q, s)
  {
    if s != "" { PlainIsQuiet(s[1..]); }
  }

  lemma PlainIsReadAsIs(s: string, reals: Reals)
    requires s != "" && forall i :: 0 <= i < |s| ==> !IsComment(s[i]) && !IsTrimmed(s[i]) && s[i] != '\'' && s[i] != '"'
    ensures ReadValue(s, reals) == ReadPlain(s, reals)
  {
    hide Quiet, CommentAt, Trim;
    PlainIsQuiet(s);
    QuietMeansNoComment(OUTSIDE, s);
    assert StripComment(s) == s;
    TrimKeepsStable(s);
  }

  lemma IntComesBack(n: int, reals: Reals)
    requires IsInt64(n)
    ensures ReadValue(Decimal(n), reals) == Value(Decimal(n), Int, false)
  {
    hide ParseInt, ReadValue;
    DecimalShape(if n < 0 then -n else n);
    PlainIsReadAsIs(Decimal(n), reals);
    ParsePrintedInt(n);
    assert LowerText(Decimal(n))[0] != 't' && LowerText(Decimal(n))[0] != 'f';
  }

  lemma BoolComesBack(b: bool, reals: Reals)
    ensures ReadValue(if b then "true" else "false", reals) == Value(if b then "true" else "false", Bool, false)
  {
    hide ReadValue;
    var s := if b then "true" else "false";
    assert LowerText(s) == s;
    PlainIsReadAsIs(s, reals);
  }

  // Doubles

  /** A text of other characters than quotes, comments and white space survives as a double exactly when
      neither of the earlier readings takes it and the number prints as the same text. */
  lemma DoubleComesBack(t: string, reals: Reals)
    requires t != "" && forall i :: 0 <= i < |t| ==> !IsComment(t[i]) && !IsTrimmed(t[i]) && t[i] != '\'' && t[i] != '"'
    ensures ReadValue(WriteValue(Value(t, Double, false)), reals) == Value(t, Double, false)
       <==> ParseBool(t) == None && ParseInt(t) == None && reals(t) == Some(t)
  {
    hide ReadValue, ParseBool, ParseInt;
    PlainIsReadAsIs(t, reals);
  }

  /** The number that a text of a sign and digits stands for. */
  function IntegralValue(t: string): int {
    var n: int := NumberOf(Unsigned(t), 10);
    if t != "" && t[0] == '-' then -n else n
  }

  /** No point, no exponent, no letters, and inside 64 bits. */
  predicate ReadsAsInt(t: string) {
    (forall i :: 0 <= i < |Unsigned(t)| ==> IsDigit(Unsigned(t)[i])) && IsInt64(IntegralValue(t))
  }

  lemma FormattedDoubleChars(t: string)
    requires FormattedDouble(t)
    ensures t != "" && forall i :: 0 <= i < |t| ==>
              t[i] == 'i' || t[i] == 'n' || t[i] == 'f' || t[i] == 'a' || IsNumberChar(t[i])
    ensures t[0] == '-' || t[0] == 'i' || t[0] == 'n' || IsDigit(t[0])
  {
    var u := Unsigned(t);
    assert forall i :: 0 <= i < |u| ==> u[i] == 'i' || u[i] == 'n' || u[i] == 'f' || u[i] == 'a' || IsNumberChar(u[i]);
    forall i | 0 <= i < |t|
      ensures t[i] == 'i' || t[i] == 'n' || t[i] == 'f' || t[i] == 'a' || IsNumberChar(t[i])
    {
      if t[0] == '-' && i > 0 { assert t[i] == u[i - 1]; }
    }
  }

  lemma FormattedIsNoBool(t: string)
    requires FormattedDouble(t)
    ensures ParseBool(t) == None
  {
    hide FormattedDouble;
    FormattedDoubleChars(t);
    assert LowerText(t)[0] != 't' && LowerText(t)[0] != 'f';
  }

  lemma ZeroInAnyBase()
    ensures NumberOf("0", 8) == 0 && NumberOf("0", 10) == 0
  {
    assert "0"[..0] == "";
  }

  lemma FormattedDigits(u: string)
    requires FormattedDouble(u) && Unsigned(u) == u
    ensures ParseDigits(u) == if forall i :: 0 <= i < |u| ==> IsDigit(u[i]) then Some(NumberOf(u, 10)) else None
  {
    hide NumberOf;
    if forall i :: 0 <= i < |u| ==> IsDigit(u[i]) {
      if u[0] == '0' {
        assert u == "0";
        ZeroInAnyBase();
      }
    } else {
      var i :| 0 <= i < |u| && !IsDigit(u[i]);
      assert DigitOf(u[i]) >= 10;
      if u[0] == '0' { assert DigitOf(u[1]) == 99; }
    }
  }

  /** Among the texts `format_double` prints, `strtoll` takes those of digits alone that fit into 64 bits. */
  lemma FormattedParseInt(t: string)
    requires FormattedDouble(t)
    ensures ParseInt(t) == if ReadsAsInt(t) then Some(IntegralValue(t)) else None
  {
    hide ParseDigits, NumberOf, FormattedDouble, SkipSpace, CText;
    FormattedIsNotCut(t);
    UnsignedIsFormatted(t);
    FormattedDigits(Unsigned(t));
  }

  lemma FormattedIsNotCut(t: string)
    requires FormattedDouble(t)
    ensures SkipSpace(CText(t)) == t && t != ""
  {
    hide FormattedDouble, CText;
    FormattedDoubleChars(t);
    CTextWithoutNul(t);
  }

  lemma UnsignedIsFormatted(t: string)
    requires FormattedDouble(t)
    ensures FormattedDouble(Unsigned(t)) && Unsigned(Unsigned(t)) == Unsigned(t)
    ensures Unsigned(t)[0] != '+'
  {}

  lemma {:induction false} DecodeWithoutEscapes(s: string)
    requires '\\' !in s
    ensures Decode(s) == s
  {
    if s != "" {
      DecodeWithoutEscapes(s[1..]);
      assert s == [s[0]] + s[1..];
    }
  }

  /** What becomes of a double, by its text: digits alone inside 64 bits are read as an integer, and a number
      that `strtod` refuses is read as a string. */
  lemma DoubleReadBack(t: string, reals: Reals)
    requires FormattedDouble(t)
    ensures ReadValue(WriteValue(Value(t, Double, false)), reals) ==
            if ReadsAsInt(t) then Value(Decimal(IntegralValue(t)), Int, false)
            else if reals(t).Some? then Value(reals(t).value, Double, false)
            else Value(t, Str, false)
  {
    hide ReadValue, ParseBool, ParseInt, FormattedDouble, ReadsAsInt, IntegralValue, Decimal;
    FormattedDoubleChars(t);
    PlainIsReadAsIs(t, reals);
    FormattedIsNoBool(t);
    FormattedParseInt(t);
    DecodeWithoutEscapes(t);
  }

  // Every kind

  /** What survives being written and read: a string that is guarded, and a double that is not read as an integer
      and prints as the same text after `strtod`. */
  predicate Survives(v: Value, reals: Reals) {
    Guarded(v) && (v.kind == Double ==> !ReadsAsInt(v.text) && reals(v.text) == Some(v.text))
  }

  /** A value survives being written and read exactly when `Survives` says so. */
  lemma ValueRoundTrip(v: Value, reals: Reals)
    requires Storable(v)
    ensures ReadValue(WriteValue(v), reals) == v <==> Survives(v, reals)
  {
    hide ReadValue, Quiet, ReadsAsInt, FormattedDouble;
    match v.kind
    case Str => if Guarded(v) { QuotedStringComesBack(v, reals); } else { UnguardedStringIsLost(v, reals); }
    case Bool => BoolComesBack(v.text == "true", reals);
    case Int =>
      var n: int :| IsInt64(n) && v.text == Decimal(n);
      IntComesBack(n, reals);
    case Double => DoubleReadBack(v.text, reals);
  }

  /** A string without its own quote character, or without comment characters, is guarded. */
  lemma GuardedIfNoQuoteOrNoComment(v: Value)
    requires v.kind == Str
    requires (forall i :: 0 <= i < |v.text| ==> v.text[i] != (if v.literal then '"' else '\''))
          || (forall i :: 0 <= i < |v.text| ==> !IsComment(v.text[i]))
    ensures Guarded(v)
  {
    if forall i :: 0 <= i < |v.text| ==> !IsComment(v.text[i]) {
      PlainIsQuiet(v.text);
    } else {
      StaysInside(v.literal, v.text);
    }
  }

  lemma {:induction false} StaysInside(literal: bool, s: string)
    requires forall i :: 0 <= i < |s| ==> s[i] != (if literal then '"' else '\'')
    ensures Quiet(Inside(literal), s)
  {
    if s != "" { StaysInside(literal, s[1..]); }
  }
}
