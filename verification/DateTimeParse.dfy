/** The strict date parser up to the broken-down fields, and what it recovers from formatted text. */
module DateTimeParse {
  import opened Common
  import opened CStrings
  import opened DateTime

  datatype Error =
    | BadField(token: Token) | BadLiteral | ExtraText | MissingTokens
    | HourRange | MinuteRange | SecondRange | MonthRange | BadDate

  /** The loop over the format: it stops with an error, or has filled fields and has text left over. */
  datatype Progress = Stopped(error: Error) | Done(rest: string, fields: Fields, present: set<Token>)

  datatype Outcome = Failed(error: Error) | Parsed(fields: Fields, present: set<Token>)

  // Parsing

  function ParseTokens(fmt: string, text: string, f: Fields, present: set<Token>): Progress
    decreases |fmt|
  {
    if fmt == "" then Done(text, f, present)
    else
      var t := TokenAt(fmt);
      TokenFits(fmt);
      if t == Literal then
        if text == "" || fmt[0] != text[0] then Stopped(BadLiteral)
        else ParseTokens(fmt[1..], text[1..], f, present)
      else
        match ReadDigits(text, Width(t))
        case None => Stopped(BadField(t))
        case Some(v) =>
          ReadFits(text, Width(t));
          ParseTokens(fmt[Width(t)..], text[Width(t)..], WithField(f, t, v), present + {t})
  }

  lemma ReadFits(s: string, n: nat)
    requires ReadDigits(s, n).Some?
    ensures n <= |s|
  {}

  predicate IsLeap(y: int) {
    (y % 4 == 0 && y % 100 != 0) || y % 400 == 0
  }

  function DaysInMonth(y: int, m: int): int {
    if m == 2 then (if IsLeap(y) then 29 else 28)
    else if m == 4 || m == 6 || m == 9 || m == 11 then 30
    else 31
  }

  predicate ValidYmd(y: int, m: int, d: int) {
    y >= 0 && 1 <= m <= 12 && 1 <= d <= DaysInMonth(y, m)
  }

  predicate AllTokens(present: set<Token>) {
    {Year, Month, Day, Hour, Minute, Second} <= present
  }

  predicate DateTokens(present: set<Token>) {
    Year in present || Month in present || Day in present
  }

  /** The checks after the loop. Only what the text gave is checked, except that any part of a date
      makes the whole date count. */
  function Checked(f: Fields, present: set<Token>, hasBase: bool): Outcome {
    if !hasBase && !AllTokens(present) then Failed(MissingTokens)
    else if Hour in present && !(0 <= f.hour <= 23) then Failed(HourRange)
    else if Minute in present && !(0 <= f.minute <= 59) then Failed(MinuteRange)
    else if Second in present && !(0 <= f.second <= 59) then Failed(SecondRange)
    else if Month in present && !(1 <= f.month <= 12) then Failed(MonthRange)
    else if DateTokens(present) && !ValidYmd(f.year, f.month, f.day) then Failed(BadDate)
    else Parsed(f, present)
  }

  /** The fields before parsing: those of the base, or zeros, and never a millisecond. */
  function Initial(base: Option<Fields>): Fields {
    match base
    case None => Fields(0, 0, 0, 0, 0, 0, 0)
    case Some(b) => b.(ms := 0)
  }

  function Parse(text: string, fmt: string, base: Option<Fields>): Outcome {
    match ParseTokens(fmt, text, Initial(base), {})
    case Stopped(e) => Failed(e)
    case Done(rest, f, present) => if rest != "" then Failed(ExtraText) else Checked(f, present, base.Some?)
  }

  /** `parse_strict_datetime_ex_impl` up to the conversion by the C library. */
  method ParseStrict(text: string, fmt: string, base: Option<Fields>) returns (r: Outcome)
    ensures r == Parse(text, fmt, base)
  {
    hide StartsWith, ReadDigits, ValidYmd, TokenAt;
    var f := Initial(base);
    var present: set<Token> := {};
    var fp, ip := 0, 0;
    assert fmt[0..] == fmt && text[0..] == text;
    while fp < |fmt|
      invariant 0 <= fp <= |fmt| && 0 <= ip <= |text|
      invariant ParseTokens(fmt[fp..], text[ip..], f, present) == ParseTokens(fmt, text, Initial(base), {})
    {
      var t := ParseToken(fmt, fp);
      TokenFits(fmt[fp..]);
      assert fmt[fp..][Width(t)..] == fmt[fp + Width(t)..];
      if t == Literal {
        if ip >= |text| { return Failed(BadLiteral); }
        if fmt[fp] != text[ip] { return Failed(BadLiteral); }
        assert text[ip..][1..] == text[ip + 1..];
        fp, ip := fp + 1, ip + 1;
      } else {
        var ok, ip', v := ReadNDigits(text, ip, Width(t), FieldOf(f, t));
        if !ok { return Failed(BadField(t)); }
        assert text[ip..][Width(t)..] == text[ip'..];
        ip := ip';
        f := WithField(f, t, v);
        present := present + {t};
        fp := fp + Width(t);
      }
    }
    if ip != |text| { return Failed(ExtraText); }
    if base.None? && !AllTokens(present) { return Failed(MissingTokens); }
    if Hour in present && (f.hour < 0 || f.hour > 23) { return Failed(HourRange); }
    if Minute in present && (f.minute < 0 || f.minute > 59) { return Failed(MinuteRange); }
    if Second in present && (f.second < 0 || f.second > 59) { return Failed(SecondRange); }
    if Year in present || Month in present || Day in present {
      if Month in present && (f.month < 1 || f.month > 12) { return Failed(MonthRange); }
      if !ValidYmd(f.year, f.month, f.day) { return Failed(BadDate); }
    }
    return Parsed(f, present);
  }

  // Parsing formatted text

  /** Every field prints in the width of its token. */
  predicate Printable(f: Fields) {
    && 0 <= f.year < 10000 && 0 <= f.month < 100 && 0 <= f.day < 100
    && 0 <= f.hour < 100 && 0 <= f.minute < 100 && 0 <= f.second < 100 && 0 <= f.ms < 1000
  }

  /** The tokens of a format, literals aside. */
  function TokensIn(fmt: string): set<Token> {
    if fmt == "" then {}
    else
      TokenFits(fmt);
      var t := TokenAt(fmt);
      (if t == Literal then {} else {t}) + TokensIn(fmt[Width(t)..])
  }

  /** The fields of `f` for the tokens in `ts`, those of `base` for the others. */
  function Overlay(base: Fields, f: Fields, ts: set<Token>): Fields {
    Fields(if Year in ts then f.year else base.year,
           if Month in ts then f.month else base.month,
           if Day in ts then f.day else base.day,
           if Hour in ts then f.hour else base.hour,
           if Minute in ts then f.minute else base.minute,
           if Second in ts then f.second else base.second,
           if Millisecond in ts then f.ms else base.ms)
  }

  lemma OverlayStep(base: Fields, f: Fields, t: Token, ts: set<Token>)
    ensures Overlay(WithField(base, t, FieldOf(f, t)), f, ts) == Overlay(base, f, {t} + ts)
  {
    match t {
      case Year => case Month => case Day => case Hour =>
      case Minute => case Second => case Millisecond => case Literal =>
    }
  }

  lemma PrintableField(f: Fields, t: Token)
    requires Printable(f)
    ensures 0 <= FieldOf(f, t) < Power(Width(t))
  {
    assert Power(2) == 10 * Power(1) && Power(1) == 10 * Power(0);
    assert Power(3) == 10 * Power(2) && Power(4) == 10 * Power(3);
  }

  /** The text of a token reads back as its field, whatever follows. */
  lemma TokenReadsBack(f: Fields, t: Token, rest: string)
    requires Printable(f) && t != Literal
    ensures FieldOf(f, t) >= 0
    ensures var s := Digits(FieldOf(f, t), Width(t));
            ReadDigits(s + rest, Width(t)) == Some(FieldOf(f, t)) && (s + rest)[Width(t)..] == rest
  {
    hide Digits, ReadDigits, Power, Printable;
    PrintableField(f, t);
    var s := Digits(FieldOf(f, t), Width(t));
    ReadPrintedDigits(FieldOf(f, t), Width(t));
    ReadPrefix(s, rest, Width(t));
    assert (s + rest)[|s|..] == rest;
  }

  /** The format with every token replaced by its digits. */
  function Filled(fmt: string, f: Fields): string {
    if fmt == "" then ""
    else
      TokenFits(fmt);
      Printed(fmt, f, TokenAt(fmt)) + Filled(fmt[Width(TokenAt(fmt))..], f)
  }

  /** Parser and formatter cut the format into the same tokens, in lock-step. */
  lemma {:induction false} FilledParses(fmt: string, f: Fields, g: Fields, present: set<Token>)
    requires Printable(f)
    ensures ParseTokens(fmt, Filled(fmt, f), g, present)
         == Done("", Overlay(g, f, TokensIn(fmt)), present + TokensIn(fmt))
    decreases |fmt|
  {
    hide StartsWith, TokenAt, Digits, ReadDigits, Printable, Overlay, WithField;
    if fmt == "" {
      OverlayNothing(g, f);
    } else {
      var t := TokenAt(fmt);
      TokenFits(fmt);
      var rest := fmt[Width(t)..];
      var text := Filled(rest, f);
      if t == Literal {
        FilledParses(rest, f, g, present);
        assert ([fmt[0]] + text)[1..] == text;
        assert {} + TokensIn(rest) == TokensIn(rest);
      } else {
        TokenReadsBack(f, t, text);
        var g' := WithField(g, t, FieldOf(f, t));
        FilledParses(rest, f, g', present + {t});
        OverlayStep(g, f, t, TokensIn(rest));
        assert present + {t} + TokensIn(rest) == present + ({t} + TokensIn(rest));
      }
    }
  }

  lemma OverlayNothing(g: Fields, f: Fields)
    ensures Overlay(g, f, {}) == g
  {}

  lemma {:induction false} ClockFills(fmt: string, f: Fields)
    requires Printable(f)
    ensures FromClock(f) && FormatClock(fmt, f) == Filled(fmt, f)
    decreases |fmt|
  {
    hide StartsWith, Digits, Padded, Power;
    if fmt != "" {
      TokensAreTheSame(fmt);
      TokenFits(fmt);
      var t := TokenAt(fmt);
      PrintableField(f, t);
      PaddedIsDigits(FieldOf(f, t), Width(t));
      ClockFills(fmt[Width(t)..], f);
    }
  }

  /** Parsing what the current-time formatter printed recovers every field that the format has and
      takes the others from the base; what remains to be decided are the range checks. */
  lemma ParsePrintedClock(fmt: string, f: Fields, base: Option<Fields>)
    requires Printable(f)
    ensures FromClock(f)
    ensures Parse(FormatClock(fmt, f), fmt, base)
         == Checked(Overlay(Initial(base), f, TokensIn(fmt)), TokensIn(fmt), base.Some?)
  {
    hide Checked, Printable, Overlay, FormatClock, ParseTokens;
    ClockFills(fmt, f);
    FilledParses(fmt, f, Initial(base), {});
    assert {} + TokensIn(fmt) == TokensIn(fmt);
  }

  /** The fields of a real moment. */
  predicate InRange(f: Fields) {
    && 0 <= f.year < 10000 && 1 <= f.month <= 12 && 1 <= f.day <= 31
    && 0 <= f.hour <= 23 && 0 <= f.minute <= 59 && 0 <= f.second <= 59 && 0 <= f.ms < 1000
  }

  /** With a base the round trip succeeds exactly when the format has no part of a date, or the
      date made of its parts and those of the base exists. */
  lemma RoundTripWithBase(fmt: string, f: Fields, base: Fields)
    requires InRange(f)
    ensures FromClock(f)
    ensures var ts, g := TokensIn(fmt), Overlay(base.(ms := 0), f, TokensIn(fmt));
            var r := Parse(FormatClock(fmt, f), fmt, Some(base));
            && (r == Parsed(g, ts) <==> !DateTokens(ts) || ValidYmd(g.year, g.month, g.day))
            && (r != Parsed(g, ts) ==> r == Failed(BadDate))
  {
    hide Parse, TokensIn, FormatClock, ValidYmd;
    ParsePrintedClock(fmt, f, Some(base));
  }

  /** Without a base it succeeds exactly when the format has the whole date and the whole time, and the date exists. */
  lemma RoundTripWithoutBase(fmt: string, f: Fields)
    requires InRange(f)
    ensures FromClock(f)
    ensures var ts := TokensIn(fmt);
            var g := f.(ms := if Millisecond in ts then f.ms else 0);
            Parse(FormatClock(fmt, f), fmt, None)
            == if !AllTokens(ts) then Failed(MissingTokens)
               else if !ValidYmd(f.year, f.month, f.day) then Failed(BadDate)
               else Parsed(g, ts)
  {
    hide Parse, TokensIn, FormatClock, ValidYmd;
    ParsePrintedClock(fmt, f, None);
  }

  // The formatter without milliseconds

  predicate LettersAt(fmt: string, i: nat) {
    i + 3 <= |fmt| && fmt[i] == 'S' && fmt[i + 1] == 'S' && fmt[i + 2] == 'S'
  }

  /** The format has "SSS" somewhere. */
  ghost predicate HasMilliseconds(fmt: string) {
    exists i: nat :: LettersAt(fmt, i)
  }

  lemma LettersShifted(fmt: string, w: nat, i: nat)
    requires w <= |fmt|
    ensures LettersAt(fmt[w..], i) <==> LettersAt(fmt, w + i)
  {}

  lemma TokenIsLetters(fmt: string)
    requires fmt != ""
    ensures TokenAt(fmt) == Millisecond <==> LettersAt(fmt, 0)
  {
    if LettersAt(fmt, 0) { assert fmt[..3] == "SSS"; }
  }

  /** No other token covers one of these letters. */
  lemma TokenBeforeLetters(fmt: string, i: nat)
    requires fmt != "" && LettersAt(fmt, i) && TokenAt(fmt) != Millisecond
    ensures Width(TokenAt(fmt)) <= i
  {
    TokenIsLetters(fmt);
  }

  /** The letters occur somewhere exactly when they are a token somewhere. */
  lemma {:induction false} MillisecondsAreAToken(fmt: string)
    ensures HasMilliseconds(fmt) <==> Millisecond in TokensIn(fmt)
    decreases |fmt|
  {
    hide StartsWith, TokenAt, LettersAt;
    if fmt == "" {
      NoLetters();
    } else {
      var t := TokenAt(fmt);
      TokenFits(fmt);
      TokenIsLetters(fmt);
      MillisecondsAreAToken(fmt[Width(t)..]);
      if HasMilliseconds(fmt) && t != Millisecond {
        var i: nat :| LettersAt(fmt, i);
        TokenBeforeLetters(fmt, i);
        LettersShifted(fmt, Width(t), i - Width(t));
      }
      if HasMilliseconds(fmt[Width(t)..]) {
        var i: nat :| LettersAt(fmt[Width(t)..], i);
        LettersShifted(fmt, Width(t), i);
      }
    }
  }

  lemma NoLetters()
    ensures !HasMilliseconds("")
  {}

  /** Parsing what the `tm` formatter printed agrees as long as the format does not ask for
      milliseconds; if it does, the letters are printed as they are and the parser stops at them. */
  lemma {:induction false} CoreParses(fmt: string, f: Fields, g: Fields, present: set<Token>)
    requires Printable(f)
    ensures ParseTokens(fmt, FormatCore(fmt, f), g, present)
         == if Millisecond in TokensIn(fmt) then Stopped(BadField(Millisecond))
            else Done("", Overlay(g, f, TokensIn(fmt)), present + TokensIn(fmt))
    decreases |fmt|
  {
    hide StartsWith, TokenAt, Digits, ReadDigits, Printable, Overlay, WithField;
    if fmt == "" {
      OverlayNothing(g, f);
    } else {
      var t := TokenAt(fmt);
      TokenFits(fmt);
      if t == Millisecond {
        TokenIsLetters(fmt);
        LettersAreNoDigits(fmt, FormatCore(fmt[1..], f));
      } else {
        var rest := fmt[Width(t)..];
        var text := FormatCore(rest, f);
        if t == Literal {
          CoreParses(rest, f, g, present);
          assert ([fmt[0]] + text)[1..] == text;
          assert {} + TokensIn(rest) == TokensIn(rest);
        } else {
          TokenReadsBack(f, t, text);
          CoreParses(rest, f, WithField(g, t, FieldOf(f, t)), present + {t});
          OverlayStep(g, f, t, TokensIn(rest));
          assert present + {t} + TokensIn(rest) == present + ({t} + TokensIn(rest));
        }
      }
    }
  }

  lemma LettersAreNoDigits(fmt: string, rest: string)
    requires fmt != "" && fmt[0] == 'S'
    ensures ReadDigits([fmt[0]] + rest, 3) == None
  {
    var s := [fmt[0]] + rest;
    if |s| >= 3 { NotAllDigits(s, 0, 3); } else { TooShort(s, 3); }
  }

  /** The round trip through the `tm` formatter works exactly for formats without "SSS". */
  lemma RoundTripThroughCore(fmt: string, f: Fields, base: Option<Fields>)
    requires Printable(f)
    ensures Parse(FormatCore(fmt, f), fmt, base)
         == if HasMilliseconds(fmt) then Failed(BadField(Millisecond))
            else Checked(Overlay(Initial(base), f, TokensIn(fmt)), TokensIn(fmt), base.Some?)
  {
    hide Checked, Printable, Overlay, FormatCore, ParseTokens, HasMilliseconds;
    MillisecondsAreAToken(fmt);
    CoreParses(fmt, f, Initial(base), {});
    assert {} + TokensIn(fmt) == TokensIn(fmt);
  }
}
