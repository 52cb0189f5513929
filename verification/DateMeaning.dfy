/** Dates, formats and their errors in literal letters and numbers. */
module DateMeaning {
  import opened Common
  import opened CStrings
  import opened DateTime
  import opened DateTimeParse

  // The calendar

  /** Thirty days hath September, April, June and November. */
  function MonthLength(y: int, m: int): int
    requires 1 <= m <= 12
  {
    [31, if y % 400 == 0 || (y % 4 == 0 && y % 100 != 0) then 29 else 28, 31, 30, 31, 30, 31, 31, 30, 31, 30, 31][m - 1]
  }

  lemma DatesExist(y: int, m: int, d: int)
    ensures ValidYmd(y, m, d) <==> y >= 0 && 1 <= m <= 12 && 1 <= d <= MonthLength(y, m)
  {}

  /** The days of a year, month by month. */
  function DaysInYear(y: int): int {
    DaysInMonth(y, 1) + DaysInMonth(y, 2) + DaysInMonth(y, 3) + DaysInMonth(y, 4) + DaysInMonth(y, 5)
    + DaysInMonth(y, 6) + DaysInMonth(y, 7) + DaysInMonth(y, 8) + DaysInMonth(y, 9) + DaysInMonth(y, 10)
    + DaysInMonth(y, 11) + DaysInMonth(y, 12)
  }

  function DaysInYears(y: int, n: nat): int {
    if n == 0 then 0 else DaysInYears(y, n - 1) + DaysInYear(y + n - 1)
  }

  /** How many leap years there are up to a year. */
  function LeapsUpTo(y: int): int {
    y / 4 - y / 100 + y / 400
  }

  lemma OneMultiple(y: int)
    ensures y / 4 - (y - 1) / 4 == if y % 4 == 0 then 1 else 0
    ensures y / 100 - (y - 1) / 100 == if y % 100 == 0 then 1 else 0
    ensures y / 400 - (y - 1) / 400 == if y % 400 == 0 then 1 else 0
  {}

  lemma MultiplesNest(y: int)
    ensures y % 100 == 0 ==> y % 4 == 0
    ensures y % 400 == 0 ==> y % 100 == 0
  {}

  lemma YearLength(y: int)
    ensures DaysInYear(y) == 365 + LeapsUpTo(y) - LeapsUpTo(y - 1)
  {
    OneMultiple(y);
    MultiplesNest(y);
  }

  lemma {:induction false} YearsLength(y: int, n: nat)
    ensures DaysInYears(y, n) == 365 * n + LeapsUpTo(y + n - 1) - LeapsUpTo(y - 1)
  {
    hide DaysInYear, LeapsUpTo;
    if n > 0 {
      YearsLength(y, n - 1);
      YearLength(y + n - 1);
    }
  }

  lemma LeapsInFourCenturies(y: int)
    ensures LeapsUpTo(y + 400) - LeapsUpTo(y) == 97
  {
    assert (y + 400) / 4 == y / 4 + 100;
    assert (y + 400) / 100 == y / 100 + 4;
    assert (y + 400) / 400 == y / 400 + 1;
  }

  /** Any 400 years in a row have 146097 days. */
  lemma FourCenturies(y: int)
    ensures DaysInYears(y, 400) == 146097
  {
    hide LeapsUpTo, DaysInYears;
    YearsLength(y, 400);
    LeapsInFourCenturies(y - 1);
  }

  // Formats

  /** A field or a character of its own. */
  datatype Part = Field(token: Token) | Text(c: char)

  function LettersOf(t: Token): string {
    match t
    case Year => "YYYY"
    case Month => "MM"
    case Day => "DD"
    case Hour => "hh"
    case Minute => "mm"
    case Second => "ss"
    case Millisecond => "SSS"
    case Literal => ""
  }

  function FormatOf(parts: seq<Part>): string {
    if parts == [] then ""
    else (match parts[0] case Field(t) => LettersOf(t) case Text(c) => [c]) + FormatOf(parts[1..])
  }

  predicate StartsToken(s: string) {
    "YYYY" <= s || "MM" <= s || "DD" <= s || "hh" <= s || "mm" <= s || "ss" <= s || "SSS" <= s
  }

  /** No character of its own begins the letters of a token. */
  predicate PartsOk(parts: seq<Part>) {
    parts == [] ||
    (PartsOk(parts[1..]) &&
     match parts[0]
     case Field(t) => t != Literal
     case Text(c) => !StartsToken([c] + FormatOf(parts[1..])))
  }

  lemma LettersPicked(t: Token, rest: string)
    requires t != Literal
    ensures TokenAt(LettersOf(t) + rest) == t
    ensures Width(t) == |LettersOf(t)| && (LettersOf(t) + rest)[Width(t)..] == rest && LettersOf(t) + rest != ""
  {
    var s := LettersOf(t) + rest;
    assert s[..|LettersOf(t)|] == LettersOf(t);
    assert s[0] == LettersOf(t)[0] && s[1] == LettersOf(t)[1];
  }

  lemma TextPicked(c: char, rest: string)
    requires !StartsToken([c] + rest)
    ensures TokenAt([c] + rest) == Literal && Width(Literal) == 1
    ensures ([c] + rest)[0] == c && ([c] + rest)[1..] == rest && [c] + rest != ""
  {}

  // Formatting

  function DigitOf(n: int): char
    requires 0 <= n <= 9
  {
    (48 + n) as char
  }

  /** A number in the four, three or two digits of a field. */
  function InDigits(v: int, t: Token): string
    requires v >= 0
  {
    match t
    case Year => [DigitOf(v / 1000 % 10), DigitOf(v / 100 % 10), DigitOf(v / 10 % 10), DigitOf(v % 10)]
    case Millisecond => [DigitOf(v / 100 % 10), DigitOf(v / 10 % 10), DigitOf(v % 10)]
    case _ => [DigitOf(v / 10 % 10), DigitOf(v % 10)]
  }

  lemma DigitsTwo(v: nat)
    ensures Digits(v, 2) == [DigitChar(v / 10 % 10), DigitChar(v % 10)]
  {
    hide DigitChar;
    assert Digits(v, 2) == Digits(v / 10, 1) + [DigitChar(v % 10)];
    assert Digits(v / 10, 1) == Digits(v / 10 / 10, 0) + [DigitChar(v / 10 % 10)];
  }

  lemma DigitsMore(v: nat)
    ensures Digits(v, 3) == [DigitChar(v / 100 % 10), DigitChar(v / 10 % 10), DigitChar(v % 10)]
    ensures Digits(v, 4) ==
            [DigitChar(v / 1000 % 10), DigitChar(v / 100 % 10), DigitChar(v / 10 % 10), DigitChar(v % 10)]
  {
    hide DigitChar;
    DigitsTwo(v / 10);
    DigitsTwo(v / 10 / 10);
    assert v / 10 / 10 == v / 100 && v / 100 / 10 == v / 1000;
    assert Digits(v, 3) == Digits(v / 10, 2) + [DigitChar(v % 10)];
    assert Digits(v, 4) == Digits(v / 10, 3) + [DigitChar(v % 10)];
    assert Digits(v / 10, 3) == Digits(v / 10 / 10, 2) + [DigitChar(v / 10 % 10)];
  }

  lemma DigitIs(d: nat)
    requires d <= 9
    ensures DigitChar(d) == DigitOf(d)
  {}

  lemma InDigitsIs(v: nat, t: Token)
    requires t != Literal
    ensures Digits(v, Width(t)) == InDigits(v, t)
  {
    hide Digits, DigitChar, DigitOf;
    DigitsTwo(v);
    DigitsMore(v);
    DigitIs(v % 10);
    DigitIs(v / 10 % 10);
    DigitIs(v / 100 % 10);
    DigitIs(v / 1000 % 10);
  }

  /** The field of a token, with negative values as zero. */
  function FieldValue(f: Fields, t: Token): nat
    requires t != Literal
  {
    var v := match t
      case Year => f.year case Month => f.month case Day => f.day case Hour => f.hour
      case Minute => f.minute case Second => f.second case Millisecond => f.ms;
    if v < 0 then 0 else v
  }

  /** A format with its fields filled in. Without milliseconds their letters stay. */
  function FilledIn(parts: seq<Part>, f: Fields, milliseconds: bool): string
    requires PartsOk(parts)
  {
    if parts == [] then ""
    else
      (match parts[0]
       case Text(c) => [c]
       case Field(t) => if t == Millisecond && !milliseconds then "SSS" else InDigits(FieldValue(f, t), t))
      + FilledIn(parts[1..], f, milliseconds)
  }

  lemma {:induction false} FormatFilled(parts: seq<Part>, f: Fields)
    requires PartsOk(parts)
    ensures Filled(FormatOf(parts), f) == FilledIn(parts, f, true)
  {
    hide TokenAt, Digits, InDigits, LettersOf, StartsToken;
    if parts != [] {
      var rest := FormatOf(parts[1..]);
      FormatFilled(parts[1..], f);
      match parts[0]
      case Text(c) => TextPicked(c, rest);
      case Field(t) =>
        LettersPicked(t, rest);
        InDigitsIs(FieldValue(f, t), t);
        assert FieldValue(f, t) == if FieldOf(f, t) < 0 then 0 else FieldOf(f, t);
    }
  }

  /** The current-time formatter writes every field in its place. */
  lemma ClockTimeMeans(parts: seq<Part>, f: Fields)
    requires PartsOk(parts) && Printable(f)
    ensures FromClock(f) && FormatClock(FormatOf(parts), f) == FilledIn(parts, f, true)
  {
    hide FormatClock, Printable;
    ClockFills(FormatOf(parts), f);
    FormatFilled(parts, f);
  }

  lemma LetterSPrinted(rest: string, f: Fields)
    ensures FormatCore("S" + rest, f) == "S" + FormatCore(rest, f)
  {
    hide Digits, CoreToken;
    var s := "S" + rest;
    assert s[0] == 'S' && s[1..] == rest;
    LetterSIsLiteral(s);
    assert [s[0]] == "S";
  }

  lemma LetterSIsLiteral(s: string)
    requires s != "" && s[0] == 'S'
    ensures CoreToken(s) == Literal && Width(Literal) == 1
  {}

  lemma MillisecondLettersPrinted(rest: string, f: Fields)
    ensures FormatCore("SSS" + rest, f) == "SSS" + FormatCore(rest, f)
  {
    hide FormatCore;
    LetterSPrinted("SS" + rest, f);
    LetterSPrinted("S" + rest, f);
    LetterSPrinted(rest, f);
    assert "S" + ("S" + ("S" + rest)) == "SSS" + rest && "S" + ("S" + rest) == "SS" + rest;
    assert "S" + ("S" + ("S" + FormatCore(rest, f))) == "SSS" + FormatCore(rest, f);
  }

  /** The formatter without milliseconds writes every other field in its place, for any fields at all. */
  lemma {:induction false} CoreTimeMeans(parts: seq<Part>, f: Fields)
    requires PartsOk(parts)
    ensures FormatCore(FormatOf(parts), f) == FilledIn(parts, f, false)
  {
    hide TokenAt, Digits, InDigits, StartsToken;
    if parts != [] {
      var rest := FormatOf(parts[1..]);
      CoreTimeMeans(parts[1..], f);
      match parts[0]
      case Text(c) => TextPicked(c, rest);
      case Field(t) =>
        if t == Millisecond {
          MillisecondLettersPrinted(rest, f);
        } else {
          LettersPicked(t, rest);
          InDigitsIs(FieldValue(f, t), t);
          assert FieldValue(f, t) == if FieldOf(f, t) < 0 then 0 else FieldOf(f, t);
        }
    }
  }

  // Parsing

  /** One more than the largest number that fits the digits of a field. */
  function Limit(t: Token): nat {
    if t == Year then 10000 else if t == Millisecond then 1000 else 100
  }

  predicate Fit(parts: seq<Part>, vals: seq<nat>) {
    |vals| == |parts| && forall i :: 0 <= i < |parts| ==> parts[i].Field? ==> vals[i] < Limit(parts[i].token)
  }

  /** The text in which each field has its value. */
  function Typed(parts: seq<Part>, vals: seq<nat>): string
    requires |vals| == |parts|
  {
    if parts == [] then ""
    else
      (match parts[0] case Text(c) => [c] case Field(t) => InDigits(vals[0], t)) + Typed(parts[1..], vals[1..])
  }

  function Put(f: Fields, t: Token, v: int): Fields {
    Fields(if t == Year then v else f.year, if t == Month then v else f.month, if t == Day then v else f.day,
           if t == Hour then v else f.hour, if t == Minute then v else f.minute, if t == Second then v else f.second,
           if t == Millisecond then v else f.ms)
  }

  /** Later values of a field replace earlier ones. */
  function PutAll(f: Fields, parts: seq<Part>, vals: seq<nat>): Fields
    requires |vals| == |parts|
    decreases |parts|
  {
    if parts == [] then f
    else PutAll(if parts[0].Field? then Put(f, parts[0].token, vals[0]) else f, parts[1..], vals[1..])
  }

  function FieldsIn(parts: seq<Part>): set<Token> {
    if parts == [] then {} else (if parts[0].Field? then {parts[0].token} else {}) + FieldsIn(parts[1..])
  }

  lemma PutIs(f: Fields, t: Token, v: int)
    ensures WithField(f, t, v) == Put(f, t, v)
  {}

  lemma FieldRead(t: Token, v: nat, rest: string)
    requires t != Literal && v < Limit(t)
    ensures ReadDigits(InDigits(v, t) + rest, Width(t)) == Some(v)
    ensures (InDigits(v, t) + rest)[Width(t)..] == rest
  {
    hide Digits, ReadDigits, InDigits, Power;
    assert v < Power(Width(t)) by { LimitIs(t); }
    InDigitsIs(v, t);
    ReadPrintedDigits(v, Width(t));
    ReadPrefix(Digits(v, Width(t)), rest, Width(t));
  }

  lemma LimitIs(t: Token)
    requires t != Literal
    ensures Limit(t) == Power(Width(t))
  {
    assert Power(1) == 10 * Power(0) && Power(2) == 10 * Power(1) && Power(3) == 10 * Power(2);
    assert Power(4) == 10 * Power(3);
  }

  lemma PartRead(p: Part, v: nat, fmt: string, text: string, f: Fields, present: set<Token>)
    requires match p case Field(t) => t != Literal && v < Limit(t) case Text(c) => !StartsToken([c] + fmt)
    ensures ParseTokens((match p case Field(t) => LettersOf(t) case Text(c) => [c]) + fmt,
                        (match p case Text(c) => [c] case Field(t) => InDigits(v, t)) + text, f, present)
         == ParseTokens(fmt, text, if p.Field? then Put(f, p.token, v) else f,
                        present + if p.Field? then {p.token} else {})
  {
    hide TokenAt, InDigits, LettersOf, StartsToken, ReadDigits, WithField, Put;
    match p
    case Text(c) =>
      TextPicked(c, fmt);
      assert ([c] + text)[0] == c && ([c] + text)[1..] == text;
      assert present + {} == present;
    case Field(t) =>
      LettersPicked(t, fmt);
      FieldRead(t, v, text);
      PutIs(f, t, v);
  }

  /** The parser follows the parts for as long as the text has a value for each. */
  lemma {:induction false} PartsRead(parts: seq<Part>, vals: seq<nat>, more: seq<Part>, rest: string, f: Fields,
                                     present: set<Token>)
    requires PartsOk(parts + more) && Fit(parts, vals)
    ensures ParseTokens(FormatOf(parts + more), Typed(parts, vals) + rest, f, present)
         == ParseTokens(FormatOf(more), rest, PutAll(f, parts, vals), present + FieldsIn(parts))
    decreases |parts|
  {
    hide ParseTokens, InDigits, LettersOf, StartsToken, Put;
    if parts == [] {
      assert parts + more == more && "" + rest == rest && present + {} == present;
    } else {
      var p := parts[0];
      assert (parts + more)[0] == p && (parts + more)[1..] == parts[1..] + more;
      assert Fit(parts[1..], vals[1..]);
      var fmt, text := FormatOf(parts[1..] + more), Typed(parts[1..], vals[1..]) + rest;
      PartRead(p, vals[0], fmt, text, f, present);
      var piece := match p case Text(c) => [c] case Field(t) => InDigits(vals[0], t);
      Regrouped(piece, Typed(parts[1..], vals[1..]), rest);
      var f1 := if p.Field? then Put(f, p.token, vals[0]) else f;
      var one := if p.Field? then {p.token} else {};
      PartsRead(parts[1..], vals[1..], more, rest, f1, present + one);
      assert (present + one) + FieldsIn(parts[1..]) == present + (one + FieldsIn(parts[1..]));
    }
  }

  /** The fields before parsing: zeros, or those of the base without its milliseconds. */
  function Start(base: Option<Fields>): Fields {
    if base.None? then Fields(0, 0, 0, 0, 0, 0, 0)
    else
      var b := base.value;
      Fields(b.year, b.month, b.day, b.hour, b.minute, b.second, 0)
  }

  /** A text with a value for each field is accepted if without a base no field is missing, the times are inside the
      day, and the date exists; the first of these that fails is the error. */
  lemma StrictParseMeans(parts: seq<Part>, vals: seq<nat>, base: Option<Fields>)
    requires PartsOk(parts) && Fit(parts, vals)
    ensures var f, ts := PutAll(Start(base), parts, vals), FieldsIn(parts);
            Parse(Typed(parts, vals), FormatOf(parts), base) ==
            if base.None? && !(Year in ts && Month in ts && Day in ts && Hour in ts && Minute in ts && Second in ts)
              then Failed(MissingTokens)
            else if Hour in ts && f.hour > 23 then Failed(HourRange)
            else if Minute in ts && f.minute > 59 then Failed(MinuteRange)
            else if Second in ts && f.second > 59 then Failed(SecondRange)
            else if Month in ts && (f.month < 1 || f.month > 12) then Failed(MonthRange)
            else if (Year in ts || Month in ts || Day in ts)
                    && (f.year < 0 || f.month < 1 || f.month > 12 || f.day < 1 || f.day > MonthLength(f.year, f.month))
              then Failed(BadDate)
            else Parsed(f, ts)
  {
    hide ParseTokens, ValidYmd, Typed, PutAll, FieldsIn, MonthLength, FormatOf, PartsOk;
    assert parts + [] == parts;
    PartsRead(parts, vals, [], "", Start(base), {});
    assert Typed(parts, vals) + "" == Typed(parts, vals);
    assert {} + FieldsIn(parts) == FieldsIn(parts);
    NoFormat();
    NothingParsed(PutAll(Start(base), parts, vals), FieldsIn(parts), "");
    var f := PutAll(Start(base), parts, vals);
    DatesExist(f.year, f.month, f.day);
    TypedIsPositive(Start(base), parts, vals);
  }

  lemma NoFormat()
    ensures FormatOf([]) == ""
  {}

  lemma NothingParsed(f: Fields, present: set<Token>, rest: string)
    ensures ParseTokens("", rest, f, present) == Done(rest, f, present)
  {}

  /** The field that a token stands for. */
  function Picked(f: Fields, t: Token): int {
    match t
    case Year => f.year case Month => f.month case Day => f.day case Hour => f.hour
    case Minute => f.minute case Second => f.second case Millisecond => f.ms case Literal => 0
  }

  lemma {:induction false} TypedKeepsPositive(f: Fields, parts: seq<Part>, vals: seq<nat>, t: Token)
    requires |vals| == |parts| && Picked(f, t) >= 0
    ensures Picked(PutAll(f, parts, vals), t) >= 0
    decreases |parts|
  {
    if parts != [] {
      TypedKeepsPositive(if parts[0].Field? then Put(f, parts[0].token, vals[0]) else f, parts[1..], vals[1..], t);
    }
  }

  lemma {:induction false} TypedFieldIsPositive(f: Fields, parts: seq<Part>, vals: seq<nat>, t: Token)
    requires |vals| == |parts|
    ensures t in FieldsIn(parts) ==> Picked(PutAll(f, parts, vals), t) >= 0
    decreases |parts|
  {
    if parts != [] {
      var f1 := if parts[0].Field? then Put(f, parts[0].token, vals[0]) else f;
      if parts[0].Field? && parts[0].token == t { TypedKeepsPositive(f1, parts[1..], vals[1..], t); }
      TypedFieldIsPositive(f1, parts[1..], vals[1..], t);
    }
  }

  lemma TypedIsPositive(f: Fields, parts: seq<Part>, vals: seq<nat>)
    requires |vals| == |parts|
    ensures var g := PutAll(f, parts, vals);
            && (Hour in FieldsIn(parts) ==> g.hour >= 0) && (Minute in FieldsIn(parts) ==> g.minute >= 0)
            && (Second in FieldsIn(parts) ==> g.second >= 0)
  {
    hide PutAll, FieldsIn;
    TypedFieldIsPositive(f, parts, vals, Hour);
    TypedFieldIsPositive(f, parts, vals, Minute);
    TypedFieldIsPositive(f, parts, vals, Second);
  }

  /** Where the text goes wrong: at a character of the format that is missing or different, at a field without its
      digits, or behind the last part. */
  lemma TextsRefused(parts: seq<Part>, vals: seq<nat>, next: Part, more: seq<Part>, rest: string, base: Option<Fields>)
    requires PartsOk(parts + ([next] + more)) && PartsOk(parts) && Fit(parts, vals)
    ensures next.Text? && (rest == "" || rest[0] != next.c) ==>
              Parse(Typed(parts, vals) + rest, FormatOf(parts + ([next] + more)), base) == Failed(BadLiteral)
    ensures next.Field? && (|rest| < |LettersOf(next.token)| ||
                            exists i :: 0 <= i < |LettersOf(next.token)| && !('0' <= rest[i] <= '9')) ==>
              Parse(Typed(parts, vals) + rest, FormatOf(parts + ([next] + more)), base) == Failed(BadField(next.token))
    ensures rest != "" ==> Parse(Typed(parts, vals) + rest, FormatOf(parts), base) == Failed(ExtraText)
  {
    hide ParseTokens, Typed, PutAll, FieldsIn, FormatOf, LettersOf, PartsOk;
    var f, ts := PutAll(Start(base), parts, vals), {} + FieldsIn(parts);
    PartsRead(parts, vals, [next] + more, rest, Start(base), {});
    PartStops(parts, next, more, rest, f, ts);
    assert parts + [] == parts;
    PartsRead(parts, vals, [], rest, Start(base), {});
    NoFormat();
    NothingParsed(f, ts, rest);
  }

  lemma PartStops(parts: seq<Part>, next: Part, more: seq<Part>, rest: string, f: Fields, present: set<Token>)
    requires PartsOk(parts + ([next] + more))
    ensures next.Text? && (rest == "" || rest[0] != next.c) ==>
              ParseTokens(FormatOf([next] + more), rest, f, present) == Stopped(BadLiteral)
    ensures next.Field? && (|rest| < |LettersOf(next.token)| ||
                            exists i :: 0 <= i < |LettersOf(next.token)| && !('0' <= rest[i] <= '9')) ==>
              ParseTokens(FormatOf([next] + more), rest, f, present) == Stopped(BadField(next.token))
  {
    hide TokenAt, LettersOf, StartsToken, ReadDigits, WithField;
    TailIsOk(parts, [next] + more);
    assert ([next] + more)[1..] == more;
    match next
    case Text(c) => TextPicked(c, FormatOf(more));
    case Field(t) =>
      LettersPicked(t, FormatOf(more));
      var n := |LettersOf(t)|;
      if |rest| < n {
        TooShort(rest, n);
      } else if i :| 0 <= i < n && !('0' <= rest[i] <= '9') {
        NotAllDigits(rest, i, n);
      }
  }

  lemma {:induction false} TailIsOk(a: seq<Part>, b: seq<Part>)
    requires PartsOk(a + b)
    ensures PartsOk(b)
    decreases |a|
  {
    if a == [] {
      assert a + b == b;
    } else {
      assert (a + b)[1..] == a[1..] + b;
      TailIsOk(a[1..], b);
    }
  }
}
