/** What a value in an INI file is read as, in literal characters. */
module IniReading {
  import opened Common
  import opened CStrings
  import opened IniText
  import opened IniValue

  // Escapes

  /** Six escapes stand for a character; a backslash before anything else, or at the end, stands for itself. */
  lemma EscapesDecoded(c: char, s: string)
    ensures Decode("\\t" + s) == "\t" + Decode(s)
    ensures Decode("\\n" + s) == "\n" + Decode(s)
    ensures Decode("\\r" + s) == "\r" + Decode(s)
    ensures Decode("\\\\" + s) == "\\" + Decode(s)
    ensures Decode("\\'" + s) == "'" + Decode(s)
    ensures Decode("\\\"" + s) == "\"" + Decode(s)
    ensures c !in "tnr\\'\"" ==> Decode("\\" + [c] + s) == "\\" + [c] + Decode(s)
    ensures c != '\\' ==> Decode([c] + s) == [c] + Decode(s)
    ensures Decode("\\") == "\\" && Decode("") == ""
  {
    hide Decode;
    PairDecoded('t', s);
    PairDecoded('n', s);
    PairDecoded('r', s);
    PairDecoded('\\', s);
    PairDecoded('\'', s);
    PairDecoded('"', s);
    assert "\\" + ['t'] == "\\t" && "\\" + ['n'] == "\\n" && "\\" + ['r'] == "\\r" && "\\" + ['\\'] == "\\\\"
        && "\\" + ['\''] == "\\'" && "\\" + ['"'] == "\\\"";
    PairDecoded(c, s);
    OtherDecoded(c, s);
  }

  lemma PairDecoded(c: char, s: string)
    ensures Decode("\\" + [c] + s) == Unescaped(c) + Decode(s)
  {
    var t := "\\" + [c] + s;
    assert t[0] == '\\' && t[1] == c && t[2..] == s;
  }

  lemma OtherDecoded(c: char, s: string)
    ensures c != '\\' ==> Decode([c] + s) == [c] + Decode(s)
    ensures Decode("\\") == "\\" && Decode("") == ""
  {
    assert ([c] + s)[1..] == s;
    assert "\\"[1..] == "";
  }

  /** Between double quotes only `\"` is an escape. */
  lemma LiteralDecoded(c: char, s: string)
    ensures DecodeLiteral("\\\"" + s) == "\"" + DecodeLiteral(s)
    ensures c != '\\' || s == "" || s[0] != '"' ==> DecodeLiteral([c] + s) == [c] + DecodeLiteral(s)
    ensures DecodeLiteral("") == ""
  {
    var t := "\\\"" + s;
    assert t[0] == '\\' && t[1] == '"' && t[2..] == s;
    assert ([c] + s)[1..] == s;
  }

  /** What is written for each character between single and between double quotes. */
  lemma CharactersEncoded(c: char, s: string)
    ensures Encode([c] + s) ==
            (if c == '\t' then "\\t" else if c == '\n' then "\\n" else if c == '\r' then "\\r"
             else if c == '\\' then "\\\\" else if c == '\'' then "\\'" else [c]) + Encode(s)
    ensures EncodeLiteral([c] + s) == (if c == '"' then "\\\"" else [c]) + EncodeLiteral(s)
    ensures Encode("") == "" && EncodeLiteral("") == ""
  {
    assert ([c] + s)[1..] == s;
  }

  // White space and comments

  predicate Blank(s: string) {
    forall i :: 0 <= i < |s| ==> s[i] in " \t\r\n"
  }

  lemma {:induction false} TrimLeftOver(a: string, s: string)
    requires Blank(a) && (s == "" || s[0] !in " \t\r\n")
    ensures TrimLeft(a + s) == s
  {
    if a == "" { assert a + s == s; } else {
      assert (a + s)[1..] == a[1..] + s;
      TrimLeftOver(a[1..], s);
    }
  }

  lemma {:induction false} TrimRightOver(s: string, b: string)
    requires Blank(b) && (s == "" || s[|s| - 1] !in " \t\r\n")
    ensures TrimRight(s + b) == s
  {
    if b == "" { assert s + b == s; } else {
      assert (s + b)[..|s + b| - 1] == s + b[..|b| - 1];
      TrimRightOver(s, b[..|b| - 1]);
    }
  }

  /** Neither end is a blank, a tab or a line break. */
  predicate Bounded(t: string) {
    t == "" || (t[0] !in " \t\r\n" && t[|t| - 1] !in " \t\r\n")
  }

  lemma TrimBetween(a: string, t: string, b: string)
    requires Blank(a) && Blank(b) && Bounded(t)
    ensures Trim(a + (t + b)) == t
  {
    if t == "" {
      assert a + (t + b) == (a + b) + "";
      TrimLeftOver(a + b, "");
    } else {
      TrimLeftOver(a, t + b);
      TrimRightOver(t, b);
    }
  }

  /** A stretch of text without quotes and comment characters, or a quoted one. */
  datatype Piece = Bare(text: string) | InSingle(text: string) | InDouble(text: string)

  predicate PieceOk(p: Piece) {
    match p
    case Bare(t) => forall i :: 0 <= i < |t| ==> t[i] !in "'\";#"
    case InSingle(t) => '\'' !in t
    case InDouble(t) => '"' !in t
  }

  function PieceText(p: Piece): string {
    match p
    case Bare(t) => t
    case InSingle(t) => "'" + (t + "'")
    case InDouble(t) => "\"" + (t + "\"")
  }

  function PiecesText(ps: seq<Piece>): string {
    if ps == [] then "" else PieceText(ps[0]) + PiecesText(ps[1..])
  }

  predicate PiecesOk(ps: seq<Piece>) {
    forall i :: 0 <= i < |ps| ==> PieceOk(ps[i])
  }

  lemma {:induction false} BareIsQuiet(t: string)
    requires PieceOk(Bare(t))
    ensures Quiet(OUTSIDE, t) && After(OUTSIDE, t) == OUTSIDE
  {
    if t != "" { BareIsQuiet(t[1..]); }
  }

  lemma {:induction false} QuotedIsQuiet(t: string, literal: bool)
    requires (if literal then '"' else '\'') !in t
    ensures Quiet(Inside(literal), t) && After(Inside(literal), t) == Inside(literal)
  {
    if t != "" { QuotedIsQuiet(t[1..], literal); }
  }

  lemma PieceIsQuiet(p: Piece)
    requires PieceOk(p)
    ensures Quiet(OUTSIDE, PieceText(p)) && After(OUTSIDE, PieceText(p)) == OUTSIDE
  {
    hide Quiet, After;
    match p
    case Bare(t) => BareIsQuiet(t);
    case InSingle(t) => QuotesAreQuiet(t, false);
    case InDouble(t) => QuotesAreQuiet(t, true);
  }

  lemma QuotesAreQuiet(t: string, literal: bool)
    requires (if literal then '"' else '\'') !in t
    ensures var q := [if literal then '"' else '\''];
            Quiet(OUTSIDE, q + (t + q)) && After(OUTSIDE, q + (t + q)) == OUTSIDE
  {
    hide Quiet, After;
    var c := if literal then '"' else '\'';
    QuotedIsQuiet(t, literal);
    QuietJoined(OUTSIDE, [c], t + [c]);
    QuietJoined(Inside(literal), t, [c]);
    QuietCharacter(OUTSIDE, c);
    QuietCharacter(Inside(literal), c);
  }

  lemma {:induction false} PiecesAreQuiet(ps: seq<Piece>)
    requires PiecesOk(ps)
    ensures Quiet(OUTSIDE, PiecesText(ps)) && After(OUTSIDE, PiecesText(ps)) == OUTSIDE
  {
    hide PieceOk, PieceText;
    if ps != [] {
      PieceIsQuiet(ps[0]);
      PiecesAreQuiet(ps[1..]);
      QuietJoined(OUTSIDE, PieceText(ps[0]), PiecesText(ps[1..]));
    }
  }

  lemma {:induction false} CommentIsFound(q: Quotes, t: string, c: char, rest: string)
    requires Quiet(q, t) && After(q, t) == OUTSIDE && (c == ';' || c == '#')
    ensures CommentAt(q, t + ([c] + rest)) == |t|
    decreases |t|
  {
    var s := t + ([c] + rest);
    if t == "" {
      assert s == [c] + rest && s[0] == c;
    } else {
      assert s[1..] == t[1..] + ([c] + rest) && s[0] == t[0];
      CommentIsFound(Next(q, t[0]), t[1..], c, rest);
    }
  }

  /** Text that is not white space at its end, and no text at all, stays after dropping white space behind it. */
  lemma {:induction false} SpaceDropped(t: string, b: string)
    requires White(b)
    requires t == "" || !IsWhite(t[|t| - 1])
    ensures DropTrailingSpace(t + b) == t
  {
    if b == "" { assert t + b == t; } else {
      assert (t + b)[..|t + b| - 1] == t + b[..|b| - 1];
      SpaceDropped(t, b[..|b| - 1]);
    }
  }

  /** The first comment character outside quotes takes away everything behind it, and the white space in front. */
  lemma CommentStripped(ps: seq<Piece>, t: string, b: string, c: char, rest: string)
    requires PiecesOk(ps) && PiecesText(ps) == t + b && (c == ';' || c == '#')
    requires White(b)
    requires t == "" || !IsWhite(t[|t| - 1])
    ensures StripComment(t + (b + ([c] + rest))) == t
  {
    hide Quiet, After, CommentAt, DropTrailingSpace, PiecesOk, PiecesText;
    var s := PiecesText(ps);
    PiecesAreQuiet(ps);
    CommentIsFound(OUTSIDE, s, c, rest);
    Regrouped(t, b, [c] + rest);
    FrontOf(s, [c] + rest);
    SpaceDropped(t, b);
  }

  lemma FrontOf(s: string, rest: string)
    ensures (s + rest)[..|s|] == s
  {}

  /** A quote that is opened and not closed, or nothing. */
  predicate OpenOk(open: string) {
    open != "" ==> (open[0] == '\'' || open[0] == '"') && open[0] !in open[1..]
  }

  /** Comment characters inside quotes are kept, also inside a quote that is not closed. */
  lemma QuotedCommentsStay(ps: seq<Piece>, open: string)
    requires PiecesOk(ps) && OpenOk(open)
    ensures StripComment(PiecesText(ps) + open) == PiecesText(ps) + open
  {
    hide Quiet, After, CommentAt, DropTrailingSpace, PiecesOk;
    var s := PiecesText(ps);
    PiecesAreQuiet(ps);
    if open == "" {
      assert s + open == s;
      QuietMeansNoComment(OUTSIDE, s);
    } else {
      assert open == [open[0]] + open[1..];
      OpenQuoteIsQuiet(s, open[1..], open[0] == '"');
    }
  }

  lemma OpenQuoteIsQuiet(s: string, rest: string, literal: bool)
    requires Quiet(OUTSIDE, s) && After(OUTSIDE, s) == OUTSIDE && (if literal then '"' else '\'') !in rest
    ensures var t := s + ([if literal then '"' else '\''] + rest); StripComment(t) == t
  {
    hide Quiet, After, CommentAt, DropTrailingSpace;
    var c := if literal then '"' else '\'';
    QuotedIsQuiet(rest, literal);
    QuietJoined(OUTSIDE, s, [c] + rest);
    QuietJoined(OUTSIDE, [c], rest);
    QuietCharacter(OUTSIDE, c);
    QuietMeansNoComment(OUTSIDE, s + ([c] + rest));
  }

  // Integers

  datatype Radix = Ten | Eight | Sixteen(capital: bool)

  /** An integer as it is written: white space, a sign, the prefix of its radix, and digits with their values. */
  datatype Numeral = Numeral(lead: string, sign: string, radix: Radix, text: string, digits: seq<nat>)

  function PrefixOf(r: Radix): string {
    match r
    case Ten => ""
    case Eight => "0"
    case Sixteen(capital) => if capital then "0X" else "0x"
  }

  function BaseOf(r: Radix): nat {
    match r
    case Ten => 10
    case Eight => 8
    case Sixteen(_) => 16
  }

  /** The ASCII codes of the digits, in either case. */
  predicate DigitIs(c: char, d: nat) {
    var n := c as int;
    (d < 10 && n == 48 + d) || (10 <= d < 16 && (n == 87 + d || n == 55 + d))
  }

  predicate DigitsAre(s: string, ds: seq<nat>, base: nat) {
    |s| == |ds| && forall i :: 0 <= i < |s| ==> ds[i] < base && DigitIs(s[i], ds[i])
  }

  /** The number that the digits make, the last one counting once. */
  function ValueOf(ds: seq<nat>, base: nat): nat {
    if ds == [] then 0 else base * ValueOf(ds[..|ds| - 1], base) + ds[|ds| - 1]
  }

  predicate NumeralOk(w: Numeral) {
    && White(w.lead)
    && (w.sign == "" || w.sign == "-" || w.sign == "+")
    && DigitsAre(w.text, w.digits, BaseOf(w.radix))
    && (w.radix.Ten? ==> w.digits != [] && w.digits[0] != 0)
    && (w.radix.Sixteen? ==> w.digits != [])
  }

  function NumeralText(w: Numeral): string {
    w.lead + (w.sign + (PrefixOf(w.radix) + w.text))
  }

  function NumeralValue(w: Numeral): int {
    var n: int := ValueOf(w.digits, BaseOf(w.radix));
    if w.sign == "-" then -n else n
  }

  lemma DigitValue(c: char, d: nat)
    ensures DigitIs(c, d) <==> d < 16 && DigitOf(c) == d
  {}

  lemma {:induction false} DigitsRead(s: string, ds: seq<nat>, base: nat)
    requires DigitsAre(s, ds, base)
    ensures NumberOf(s, base) == ValueOf(ds, base)
    ensures AllDigits(s, base)
  {
    hide DigitOf, DigitIs;
    forall i | 0 <= i < |s| ensures DigitOf(s[i]) == ds[i] { DigitValue(s[i], ds[i]); }
    if s != "" { DigitsRead(s[..|s| - 1], ds[..|ds| - 1], base); }
  }

  lemma {:induction false} ZeroInFront(s: string, base: nat)
    ensures NumberOf("0" + s, base) == NumberOf(s, base)
  {
    hide DigitOf;
    var t := "0" + s;
    DigitValue('0', 0);
    if s == "" {
      assert t[..0] == "";
    } else {
      assert t[..|t| - 1] == "0" + s[..|s| - 1] && t[|t| - 1] == s[|s| - 1];
      ZeroInFront(s[..|s| - 1], base);
    }
  }

  lemma UnsignedRead(w: Numeral)
    requires NumeralOk(w)
    ensures ParseDigits(PrefixOf(w.radix) + w.text) == Some(ValueOf(w.digits, BaseOf(w.radix)))
  {
    hide DigitOf, DigitIs, NumberOf, ValueOf;
    var s := PrefixOf(w.radix) + w.text;
    DigitsRead(w.text, w.digits, BaseOf(w.radix));
    ZeroDigit();
    if w.text != "" {
      assert DigitIs(w.text[0], w.digits[0]);
      DigitValue(w.text[0], w.digits[0]);
    }
    match w.radix
    case Ten =>
      assert s == w.text;
    case Eight =>
      assert s == "0" + w.text;
      ZeroInFront(w.text, 8);
      ZeroIsOctal(w.text);
      if w.text != "" { NoHexMark(w.text[0], w.digits[0]); }
    case Sixteen(_) =>
      assert s[2..] == w.text && s[2] == w.text[0];
  }

  lemma ZeroDigit()
    ensures DigitOf('0') == 0
  {}

  lemma ZeroIsOctal(s: string)
    requires AllDigits(s, 8)
    ensures AllDigits("0" + s, 8)
  {}

  lemma NoHexMark(c: char, d: nat)
    requires DigitIs(c, d) && d < 8
    ensures c != 'x' && c != 'X'
  {}

  lemma {:induction false} CTextBefore(s: string, tail: string)
    requires '\0' !in s && (tail == "" || tail[0] == '\0')
    ensures CText(s + tail) == s
  {
    if s == "" { assert s + tail == tail; } else {
      assert (s + tail)[1..] == s[1..] + tail;
      CTextBefore(s[1..], tail);
    }
  }

  lemma {:induction false} LeadSkipped(lead: string, s: string)
    requires White(lead)
    ensures SkipSpace(lead + s) == SkipSpace(s)
  {
    if lead == "" { assert lead + s == s; } else {
      assert (lead + s)[1..] == lead[1..] + s;
      LeadSkipped(lead[1..], s);
    }
  }

  lemma NumeralHasNoNul(w: Numeral)
    requires NumeralOk(w)
    ensures '\0' !in NumeralText(w)
    ensures var s := w.sign + (PrefixOf(w.radix) + w.text);
            s != "" && SkipSpace(s) == s && (w.sign == "" ==> s[0] != '-' && s[0] != '+')
  {
    assert forall i :: 0 <= i < |w.text| ==> w.text[i] != '\0' by {
      forall i | 0 <= i < |w.text| ensures w.text[i] != '\0' { assert DigitIs(w.text[i], w.digits[i]); }
    }
    assert '\0' !in w.lead;
    var s := w.sign + (PrefixOf(w.radix) + w.text);
    if w.sign == "" && w.radix.Ten? {
      assert s[0] == w.text[0] && DigitIs(w.text[0], w.digits[0]);
    } else {
      assert s[0] == if w.sign == "" then '0' else w.sign[0];
    }
  }

  /** A numeral is read as the number it stands for, if that fits into 64 bits; a NUL ends it. */
  lemma NumeralRead(w: Numeral, tail: string)
    requires NumeralOk(w) && (tail == "" || tail[0] == '\0')
    ensures ParseInt(NumeralText(w) + tail) ==
            if -9223372036854775808 <= NumeralValue(w) <= 9223372036854775807 then Some(NumeralValue(w)) else None
  {
    hide ParseDigits, ValueOf, CText, SkipSpace, NumeralOk;
    NumeralHasNoNul(w);
    CTextBefore(NumeralText(w), tail);
    LeadIsSpace(w);
    var rest := PrefixOf(w.radix) + w.text;
    var s := w.sign + rest;
    UnsignedRead(w);
    if w.sign != "" { SignIsOne(w); assert s[1..] == rest; } else { assert s == rest; }
  }

  lemma SignIsOne(w: Numeral)
    requires NumeralOk(w) && w.sign != ""
    ensures |w.sign| == 1 && (w.sign[0] == '-' || w.sign[0] == '+') && (w.sign[0] == '-' <==> w.sign == "-")
  {}

  lemma LeadIsSpace(w: Numeral)
    requires NumeralOk(w)
    ensures SkipSpace(NumeralText(w)) == SkipSpace(w.sign + (PrefixOf(w.radix) + w.text))
  {
    LeadSkipped(w.lead, w.sign + (PrefixOf(w.radix) + w.text));
  }

  // Only numerals are read as integers

  lemma {:induction false} CTextSplit(v: string)
    ensures var c := CText(v); c <= v && '\0' !in c && (|c| < |v| ==> v[|c|] == '\0')
  {
    if v != "" && v[0] != '\0' { CTextSplit(v[1..]); }
  }

  lemma {:induction false} LeadOf(s: string)
    ensures var t := SkipSpace(s);
            s[|s| - |t|..] == t && White(s[..|s| - |t|])
  {
    if s != "" && IsSpace(s[0]) {
      LeadOf(s[1..]);
      var t := SkipSpace(s);
      forall i | 0 <= i < |s| - |t| ensures IsWhite(s[i]) {
        if i > 0 { assert s[1..][i - 1] == s[i]; }
      }
    }
  }

  function ValuesOf(s: string): seq<nat> {
    seq(|s|, i requires 0 <= i < |s| => DigitOf(s[i]))
  }

  lemma ValuesAreDigits(s: string, base: nat)
    requires AllDigits(s, base) && base <= 16
    ensures DigitsAre(s, ValuesOf(s), base)
  {
    hide DigitOf, DigitIs;
    forall i | 0 <= i < |s| ensures ValuesOf(s)[i] < base && DigitIs(s[i], ValuesOf(s)[i]) {
      DigitValue(s[i], DigitOf(s[i]));
    }
  }

  lemma UnsignedNumeral(s: string) returns (r: Radix, text: string)
    requires ParseDigits(s).Some?
    ensures s == PrefixOf(r) + text && AllDigits(text, BaseOf(r))
    ensures (r.Ten? ==> text != "" && DigitOf(text[0]) != 0) && (r.Sixteen? ==> text != "")
  {
    hide DigitOf, NumberOf;
    if StartsHex(s) {
      r, text := Sixteen(s[1] == 'X'), s[2..];
      TwoInFront(s);
    } else if s[0] == '0' {
      r, text := Eight, s[1..];
      assert s == "0" + s[1..];
    } else {
      r, text := Ten, s;
      NothingInFront(s);
      DigitValue(s[0], 0);
      ZeroCode(s[0]);
    }
  }

  lemma TwoInFront(s: string)
    requires StartsHex(s)
    ensures s == (if s[1] == 'X' then "0X" else "0x") + s[2..]
  {
    assert s == [s[0], s[1]] + s[2..];
  }

  lemma ZeroCode(c: char)
    ensures DigitIs(c, 0) <==> c == '0'
  {}

  lemma SignedNumeral(s: string) returns (w: Numeral)
    requires s != "" && (s[0] == '-' || s[0] == '+') ==> ParseDigits(s[1..]).Some?
    requires s == "" || (s[0] != '-' && s[0] != '+') ==> ParseDigits(s).Some?
    ensures NumeralOk(w) && w.lead == "" && w.sign + (PrefixOf(w.radix) + w.text) == s
  {
    hide ParseDigits, AllDigits, DigitOf;
    var signed := s != "" && (s[0] == '-' || s[0] == '+');
    var sign, rest := if signed then s[..1] else "", if signed then s[1..] else s;
    assert s == sign + rest;
    var r, text := UnsignedNumeral(rest);
    ValuesAreDigits(text, BaseOf(r));
    w := Numeral("", sign, r, text, ValuesOf(text));
    assert signed ==> sign == [s[0]];
  }

  lemma IntegerParts(v: string) returns (s: string)
    requires ParseInt(v).Some?
    ensures s == SkipSpace(CText(v))
    ensures s != "" && (s[0] == '-' || s[0] == '+') ==> ParseDigits(s[1..]).Some?
    ensures s == "" || (s[0] != '-' && s[0] != '+') ==> ParseDigits(s).Some?
  {
    s := SkipSpace(CText(v));
  }

  /** Whatever is read as an integer is a numeral in front of the first NUL, with that value inside 64 bits. */
  lemma OnlyNumeralsAreIntegers(v: string) returns (w: Numeral, tail: string)
    requires ParseInt(v).Some?
    ensures NumeralOk(w) && (tail == "" || tail[0] == '\0') && v == NumeralText(w) + tail
    ensures ParseInt(v) == Some(NumeralValue(w))
  {
    hide ParseDigits, ParseInt, ValueOf, CText, SkipSpace, DigitsAre, NumeralValue, PrefixOf;
    var c := CText(v);
    CTextSplit(v);
    tail := v[|c|..];
    assert v == c + tail;
    LeadOf(c);
    var s := IntegerParts(v);
    var u := SignedNumeral(s);
    var lead := c[..|c| - |s|];
    assert c == lead + s;
    w := u.(lead := lead);
    assert NumeralText(w) == c;
    NumeralRead(w, tail);
  }

  /** Decimal numbers are printed with the digits `0` to `9` and nothing in front. */
  lemma DecimalPrinted(n: nat, d: nat)
    requires d < 10
    ensures DecimalOf(d) == [(48 + d) as char]
    ensures n > 0 ==> DecimalOf(10 * n + d) == DecimalOf(n) + [(48 + d) as char]
  {
    if n > 0 { LastDigit(n, d); }
  }

  lemma LastDigit(n: nat, d: nat)
    requires d < 10
    ensures (10 * n + d) / 10 == n && (10 * n + d) % 10 == d
  {}

  // Booleans

  /** The word with any of its letters in capitals. */
  predicate Spelled(v: string, word: string) {
    |v| == |word| && forall i :: 0 <= i < |v| ==> v[i] == word[i] || v[i] as int == word[i] as int - 32
  }

  lemma SpelledIsLower(v: string, word: string)
    requires word == "true" || word == "false"
    ensures LowerText(v) == word <==> Spelled(v, word)
  {
    hide Lower;
    if |v| == |word| {
      forall i | 0 <= i < |v|
        ensures Lower(v[i]) == word[i] <==> v[i] == word[i] || v[i] as int == word[i] as int - 32
      {
        LetterOf(v[i], word[i]);
      }
      if Spelled(v, word) {
        assert LowerText(v) == word;
      } else {
        var i :| 0 <= i < |v| && !(v[i] == word[i] || v[i] as int == word[i] as int - 32);
        assert LowerText(v)[i] != word[i];
      }
    }
  }

  lemma LetterOf(c: char, d: char)
    requires 'a' <= d <= 'z'
    ensures Lower(c) == d <==> c == d || c as int == d as int - 32
  {}

  lemma WordsAreBooleans(v: string)
    ensures ParseBool(v) == Some(true) <==> Spelled(v, "true")
    ensures ParseBool(v) == Some(false) <==> Spelled(v, "false")
  {
    hide LowerText, Spelled;
    SpelledIsLower(v, "true");
    SpelledIsLower(v, "false");
  }

  // Values as they are written

  /** The text `t` with blanks around it and maybe a comment behind; it can end inside a quote that is not closed. */
  datatype Layout = Layout(lead: string, pieces: seq<Piece>, open: string, blanks: string, comment: string)

  function CoreOf(l: Layout): string {
    PiecesText(l.pieces) + l.open
  }

  predicate LayoutOk(l: Layout) {
    && Blank(l.lead) && Blank(l.blanks) && PiecesOk(l.pieces) && Bounded(CoreOf(l)) && OpenOk(l.open)
    && (l.comment != "" ==>
          && (l.comment[0] == ';' || l.comment[0] == '#') && l.open == ""
          && (CoreOf(l) == "" || !IsWhite(CoreOf(l)[|CoreOf(l)| - 1])))
  }

  function RawOf(l: Layout): string {
    l.lead + (CoreOf(l) + (l.blanks + l.comment))
  }

  lemma BlanksAreBare(b: string)
    requires Blank(b)
    ensures PieceOk(Bare(b)) && White(b)
    ensures '\'' !in b && '"' !in b
  {}

  lemma {:induction false} PiecesJoined(a: seq<Piece>, b: seq<Piece>)
    ensures PiecesText(a + b) == PiecesText(a) + PiecesText(b)
  {
    hide PieceText;
    if a == [] {
      assert a + b == b;
      NothingInFront(PiecesText(b));
    } else {
      assert (a + b)[1..] == a[1..] + b && (a + b)[0] == a[0];
      PiecesJoined(a[1..], b);
      Regrouped(PieceText(a[0]), PiecesText(a[1..]), PiecesText(b));
    }
  }

  lemma OnePiece(t: string)
    ensures PiecesText([Bare(t)]) == t
  {
    assert [Bare(t)][1..] == [];
    assert t + "" == t;
  }

  /** Blanks around the pieces are pieces too. */
  lemma BlanksAround(lead: string, ps: seq<Piece>, b: string) returns (all: seq<Piece>)
    requires Blank(lead) && Blank(b) && PiecesOk(ps)
    ensures PiecesOk(all) && PiecesText(all) == lead + (PiecesText(ps) + b)
  {
    hide Blank, PieceOk, PieceText, PiecesText;
    BlanksAreBare(lead);
    BlanksAreBare(b);
    all := [Bare(lead)] + (ps + [Bare(b)]);
    PiecesJoined([Bare(lead)], ps + [Bare(b)]);
    PiecesJoined(ps, [Bare(b)]);
    OnePiece(lead);
    OnePiece(b);
  }

  lemma OpenGrows(open: string, b: string)
    requires OpenOk(open) && open != "" && Blank(b)
    ensures OpenOk(open + b)
  {
    BlanksAreBare(b);
    assert (open + b)[1..] == open[1..] + b;
  }

  lemma OpenJoined(lead: string, p: string, open: string, b: string)
    ensures (lead + (p + "")) + (open + b) == lead + ((p + open) + (b + ""))
    ensures (lead + (p + b)) + "" == lead + ((p + "") + (b + ""))
  {
    assert p + "" == p && b + "" == b;
    assert (lead + p) + (open + b) == lead + ((p + open) + b);
  }

  lemma UncommentedStripped(l: Layout)
    requires LayoutOk(l) && l.comment == ""
    ensures StripComment(RawOf(l)) == RawOf(l)
  {
    hide Blank, PiecesOk, OpenOk, StripComment, PiecesText, Bounded;
    OpenJoined(l.lead, PiecesText(l.pieces), l.open, l.blanks);
    if l.open == "" {
      var all := BlanksAround(l.lead, l.pieces, l.blanks);
      NothingIsOpen();
      QuotedCommentsStay(all, "");
    } else {
      NoBlanks();
      var all := BlanksAround(l.lead, l.pieces, "");
      OpenGrows(l.open, l.blanks);
      QuotedCommentsStay(all, l.open + l.blanks);
    }
  }

  lemma NothingIsOpen()
    ensures OpenOk("")
  {}

  lemma NoBlanks()
    ensures Blank("")
  {}

  /** What is left of the raw text is its core. */
  lemma LayoutStripped(l: Layout)
    requires LayoutOk(l)
    ensures Trim(StripComment(RawOf(l))) == CoreOf(l)
  {
    hide Blank, PiecesOk, OpenOk, StripComment, Trim, Bounded;
    if l.comment == "" {
      UncommentedStripped(l);
      assert l.blanks + "" == l.blanks;
      TrimBetween(l.lead, CoreOf(l), l.blanks);
    } else if CoreOf(l) == "" {
      BareComment(l.lead, l.pieces, l.blanks, l.comment);
    } else {
      assert PiecesText(l.pieces) + "" == PiecesText(l.pieces);
      CommentBehind(l.lead, l.pieces, l.blanks, l.comment);
    }
  }

  /** Nothing but a comment. */
  lemma BareComment(lead: string, ps: seq<Piece>, blanks: string, comment: string)
    requires Blank(lead) && Blank(blanks) && PiecesOk(ps) && PiecesText(ps) == ""
    requires comment != "" && (comment[0] == ';' || comment[0] == '#')
    ensures Trim(StripComment(lead + (PiecesText(ps) + (blanks + comment)))) == ""
  {
    hide Blank, PiecesOk, StripComment, PiecesText, Trim;
    var all := BlanksAround(lead, ps, blanks);
    var b := lead + blanks;
    BlanksAreBare(lead);
    BlanksAreBare(blanks);
    NothingInFront(blanks);
    NothingInFront(b);
    NothingInFront(blanks + comment);
    NothingInFront(b + comment);
    CommentStripped(all, "", b, comment[0], comment[1..]);
    assert comment == [comment[0]] + comment[1..];
    Regrouped(lead, blanks, comment);
    TrimOfNothing();
  }

  lemma TrimOfNothing()
    ensures Trim("") == ""
  {}

  lemma CommentBehind(lead: string, ps: seq<Piece>, blanks: string, comment: string)
    requires Blank(lead) && Blank(blanks) && PiecesOk(ps) && Bounded(PiecesText(ps)) && PiecesText(ps) != ""
    requires !IsWhite(PiecesText(ps)[|PiecesText(ps)| - 1])
    requires comment != "" && (comment[0] == ';' || comment[0] == '#')
    ensures Trim(StripComment(lead + (PiecesText(ps) + (blanks + comment)))) == PiecesText(ps)
  {
    hide Blank, PiecesOk, StripComment, Trim, PiecesText;
    var t := PiecesText(ps);
    var all := BlanksAround(lead, ps, blanks);
    BlanksAreBare(blanks);
    Regrouped(lead, t, blanks);
    CommentStripped(all, lead + t, blanks, comment[0], comment[1..]);
    assert comment == [comment[0]] + comment[1..];
    Regrouped(lead, t, blanks + comment);
    NoBlanks();
    TrimBetween(lead, t, "");
    Regrouped(t, "", "");
  }

  // What they are read as

  /** Between single quotes escapes are decoded, between double quotes only that of the quote; whatever is inside. */
  lemma QuotedMeans(l: Layout, s: string, reals: Reals)
    requires LayoutOk(l)
    ensures CoreOf(l) == "'" + (s + "'") ==> ReadValue(RawOf(l), reals) == Value(Decode(s), Str, false)
    ensures CoreOf(l) == "\"" + (s + "\"") ==> ReadValue(RawOf(l), reals) == Value(DecodeLiteral(s), Str, true)
  {
    hide LayoutOk, Decode, DecodeLiteral, StripComment, Trim, ReadPlain;
    LayoutStripped(l);
    assert ("'" + (s + "'"))[1..|s| + 1] == s && ("\"" + (s + "\""))[1..|s| + 1] == s;
  }

  /** `true` and `false` in any case are booleans. */
  lemma WordMeans(l: Layout, reals: Reals)
    requires LayoutOk(l)
    ensures Spelled(CoreOf(l), "true") ==> ReadValue(RawOf(l), reals) == Value("true", Bool, false)
    ensures Spelled(CoreOf(l), "false") ==> ReadValue(RawOf(l), reals) == Value("false", Bool, false)
  {
    hide LayoutOk, StripComment, Trim, ParseBool, ParseInt, LowerText;
    LayoutStripped(l);
    WordsAreBooleans(CoreOf(l));
  }

  /** A numeral inside 64 bits is an integer, and is stored in decimal whatever its radix. */
  lemma NumeralMeans(l: Layout, w: Numeral, tail: string, reals: Reals)
    requires LayoutOk(l) && IsNumeral(CoreOf(l), w, tail)
    requires -9223372036854775808 <= NumeralValue(w) <= 9223372036854775807
    ensures var n := NumeralValue(w);
            ReadValue(RawOf(l), reals) ==
            Value(if n < 0 then "-" + DecimalOf(-n) else DecimalOf(n), Int, false)
  {
    hide LayoutOk, StripComment, Trim, ParseBool, ParseInt, NumeralOk, NumeralText, DecimalOf, Spelled, NumeralValue;
    LayoutStripped(l);
    NumeralRead(w, tail);
    NumeralStart(w, tail);
    WordsAreBooleans(CoreOf(l));
    NoWord(CoreOf(l));
  }

  lemma NumeralStart(w: Numeral, tail: string)
    requires NumeralOk(w)
    ensures var t := NumeralText(w) + tail; t != "" && t[0] !in "'\"tTfF"
  {
    if w.lead == "" && w.sign == "" && w.radix.Ten? {
      assert DigitIs(w.text[0], w.digits[0]);
      assert (NumeralText(w) + tail)[0] == w.text[0];
    } else if w.lead != "" {
      assert (NumeralText(w) + tail)[0] == w.lead[0];
    } else {
      assert (NumeralText(w) + tail)[0] == if w.sign != "" then w.sign[0] else '0';
    }
  }

  lemma NoWord(t: string)
    requires t != "" && t[0] !in "'\"tTfF"
    ensures !Spelled(t, "true") && !Spelled(t, "false") && t[0] != '\'' && t[0] != '"'
  {}

  /** The text is a numeral, with nothing or a NUL behind it. */
  predicate IsNumeral(t: string, w: Numeral, tail: string) {
    NumeralOk(w) && (tail == "" || tail[0] == '\0') && t == NumeralText(w) + tail
  }

  /** Neither in quotes nor a boolean, an integer inside 64 bits, or a number. */
  ghost predicate IsText(t: string, reals: Reals) {
    && !(|t| >= 2 && t[0] == t[|t| - 1] && (t[0] == '\'' || t[0] == '"'))
    && !Spelled(t, "true") && !Spelled(t, "false") && reals(t) == None
    && forall w, tail :: IsNumeral(t, w, tail) ==>
         !(-9223372036854775808 <= NumeralValue(w) <= 9223372036854775807)
  }

  lemma TextIsNoInteger(t: string, reals: Reals)
    requires IsText(t, reals)
    ensures ParseInt(t) == None
  {
    hide ParseInt, Spelled, NumeralOk, NumeralText, NumeralValue;
    if ParseInt(t).Some? {
      var w, tail := OnlyNumeralsAreIntegers(t);
      assert IsNumeral(t, w, tail);
      NumeralRead(w, tail);
      assert false;
    }
  }

  /** Any other text is a string: as it stands if it has no backslash, and otherwise the string that the
      single-quoted form escapes to it, if there is one. */
  lemma TextMeans(l: Layout, s: string, reals: Reals)
    requires LayoutOk(l) && IsText(CoreOf(l), reals)
    ensures ReadValue(RawOf(l), reals) == Value(Decode(CoreOf(l)), Str, false)
    ensures '\\' !in CoreOf(l) ==> ReadValue(RawOf(l), reals) == Value(CoreOf(l), Str, false)
    ensures CoreOf(l) == Encode(s) ==> ReadValue(RawOf(l), reals) == Value(s, Str, false)
  {
    hide LayoutOk, StripComment, Trim, ParseBool, ParseInt, Decode, Encode, Spelled, NumeralOk, NumeralText, CoreOf;
    var t := CoreOf(l);
    LayoutStripped(l);
    WordsAreBooleans(t);
    TextIsNoInteger(t, reals);
    if '\\' !in t { DecodeWithoutEscapes(t); }
    DecodeEncoded(s);
  }

  /** A number that is no integer inside 64 bits is stored as it prints. */
  lemma NumberMeans(l: Layout, r: string, reals: Reals)
    requires LayoutOk(l) && reals(CoreOf(l)) == Some(r) && IsText(CoreOf(l), s => None)
    ensures ReadValue(RawOf(l), reals) == Value(r, Double, false)
  {
    hide LayoutOk, StripComment, Trim, ParseBool, ParseInt, Decode, Spelled, NumeralOk, NumeralText, CoreOf;
    var t := CoreOf(l);
    LayoutStripped(l);
    WordsAreBooleans(t);
    TextIsNoInteger(t, s => None);
  }
}
