/** What whole INI files and whole histories of a store mean. */
module IniDocuments {
  import opened Common
  import opened CStrings
  import opened IniText
  import opened IniValue
  import opened IniStore
  import opened IniFile
  import opened IniReading

  // Lines as they are written

  datatype FileLine =
    | Empty(blanks: string)
    | Remark(lead: string, mark: char, text: string)
    | Header(lead: string, pad: string, name: string, padBehind: string, trail: string)
    | Setting(lead: string, key: string, pad: string, raw: string)
    | Other(lead: string, text: string, trail: string)

  function LineText(l: FileLine): string {
    match l
    case Empty(blanks) => blanks
    case Remark(lead, mark, text) => lead + ([mark] + text)
    case Header(lead, pad, name, padBehind, trail) => lead + (("[" + (pad + (name + (padBehind + "]")))) + trail)
    case Setting(lead, key, pad, raw) => (lead + (key + pad)) + ("=" + raw)
    case Other(lead, text, trail) => lead + (text + trail)
  }

  /** A header may have anything between its brackets. A line with `=` is a setting unless it begins with a comment
      character or is a header; a line without is ignored. */
  predicate IsWellFormed(l: FileLine) {
    '\n' !in LineText(l) &&
    match l
    case Empty(blanks) => Blank(blanks)
    case Remark(lead, mark, text) => Blank(lead) && (mark == ';' || mark == '#')
    case Header(lead, pad, name, padBehind, trail) =>
      Blank(lead) && Blank(pad) && Bounded(name) && Blank(padBehind) && Blank(trail)
    case Setting(lead, key, pad, raw) =>
      && Blank(lead) && Bounded(key) && Blank(pad) && '=' !in key
      && (key != "" ==> key[0] != ';' && key[0] != '#')
      && (key != "" && key[0] == '[' ==> raw != "" && raw[|raw| - 1] !in " \t\r\n]")
    case Other(lead, text, trail) =>
      && Blank(lead) && Bounded(text) && Blank(trail) && '=' !in text && text != ""
      && text[0] != ';' && text[0] != '#' && (text[0] != '[' || text[|text| - 1] != ']')
  }

  predicate AreWellFormed(lines: seq<FileLine>) {
    forall i :: 0 <= i < |lines| ==> IsWellFormed(lines[i])
  }

  function FileText(lines: seq<FileLine>): string {
    if lines == [] then "" else LineText(lines[0]) + "\n" + FileText(lines[1..])
  }

  // What they mean

  /** The section that a setting behind these lines goes into. */
  function SectionAfter(lines: seq<FileLine>): string {
    if lines == [] then ""
    else
      var n := |lines| - 1;
      if lines[n].Header? then lines[n].name else SectionAfter(lines[..n])
  }

  /** The last value that the lines give a key of a section. */
  function LastSet(lines: seq<FileLine>, name: string, key: string, reals: Reals): Option<Value> {
    if lines == [] then None
    else
      var n := |lines| - 1;
      var l := lines[n];
      if l.Setting? && l.key == key && SectionAfter(lines[..n]) == name then Some(ReadValue(l.raw, reals))
      else LastSet(lines[..n], name, key, reals)
  }

  /** A section exists when it has a header or a setting. */
  predicate IsMentioned(lines: seq<FileLine>, name: string) {
    if lines == [] then false
    else
      var n := |lines| - 1;
      || (lines[n].Header? && lines[n].name == name)
      || (lines[n].Setting? && SectionAfter(lines[..n]) == name)
      || IsMentioned(lines[..n], name)
  }

  // One line

  lemma EmptyLoaded(p: Progress, l: FileLine, reals: Reals)
    requires IsWellFormed(l) && (l.Empty? || l.Remark?)
    ensures LoadLine(p, LineText(l), reals) == p
  {
    hide Blank, IsTrimmed;
    if l.Empty? {
      TrimBetween(l.blanks, "", "");
      NoBlanks();
      assert l.blanks + ("" + "") == l.blanks;
    } else {
      TrimmedStart(LineText(l));
      MarkIsNoBlank(l.mark);
      TrimLeftOver(l.lead, [l.mark] + l.text);
    }
  }

  lemma MarkIsNoBlank(c: char)
    requires c == ';' || c == '#'
    ensures c !in " \t\r\n" && IsComment(c)
  {}

  lemma HeaderLoaded(p: Progress, l: FileLine, reals: Reals)
    requires IsWellFormed(l) && l.Header?
    ensures LoadLine(p, LineText(l), reals) == Progress(Ensured(p.store, l.name), l.name)
  {
    hide Blank, Trim, Bounded, Ensured;
    var t := "[" + (l.pad + (l.name + (l.padBehind + "]")));
    BracketsAreBounded(l.pad + (l.name + l.padBehind));
    assert t == "[" + ((l.pad + (l.name + l.padBehind)) + "]");
    TrimBetween(l.lead, t, l.trail);
    assert t[1..|t| - 1] == l.pad + (l.name + l.padBehind);
    TrimBetween(l.pad, l.name, l.padBehind);
  }

  lemma BracketsAreBounded(inner: string)
    ensures var t := "[" + (inner + "]"); Bounded(t) && t[0] == '[' && t[|t| - 1] == ']' && |t| >= 2
  {}

  lemma OtherLoaded(p: Progress, l: FileLine, reals: Reals)
    requires IsWellFormed(l) && l.Other?
    ensures LoadLine(p, LineText(l), reals) == p
  {
    hide Trim, Bounded;
    TrimBetween(l.lead, l.text, l.trail);
    NoEqualsSign(l);
    IndexOfIsFirst(LineText(l), '=');
  }

  lemma NoEqualsSign(l: FileLine)
    requires IsWellFormed(l) && l.Other?
    ensures '=' !in LineText(l)
  {
    assert '=' !in l.lead && '=' !in l.trail;
  }

  lemma KeyFound(l: FileLine)
    requires IsWellFormed(l) && l.Setting?
    ensures var line := LineText(l);
            var i := IndexOf(line, '=');
            i < |line| && Trim(line[..i]) == l.key && line[i + 1..] == l.raw
  {
    hide Trim, Bounded;
    var front := l.lead + (l.key + l.pad);
    var line := LineText(l);
    assert '=' !in l.lead && '=' !in l.pad;
    assert '=' !in front;
    FrontFound(front, l.raw);
    TrimBetween(l.lead, l.key, l.pad);
  }

  lemma FrontFound(front: string, raw: string)
    requires '=' !in front
    ensures var line := front + ("=" + raw);
            IndexOf(line, '=') == |front| && line[..|front|] == front && line[|front| + 1..] == raw
  {
    var line := front + ("=" + raw);
    assert line[|front|] == '=';
    IndexOfIs(line, '=', |front|);
  }

  /** The trimmed line is neither empty nor a comment nor a header. */
  lemma SettingStart(l: FileLine)
    requires IsWellFormed(l) && l.Setting?
    ensures var t := Trim(LineText(l)); t != "" && !IsComment(t[0]) && !(t[0] == '[' && t[|t| - 1] == ']')
  {
    hide Bounded;
    var line, t := LineText(l), Trim(LineText(l));
    var body := l.key + (l.pad + ("=" + l.raw));
    assert line == l.lead + body;
    if l.key != "" { BoundedStart(l.key); }
    if l.key == "" {
      assert body == l.pad + ("=" + l.raw);
      assert line == (l.lead + l.pad) + ("=" + l.raw);
      assert ("=" + l.raw)[0] == '=';
      TrimLeftOver(l.lead + l.pad, "=" + l.raw);
    } else {
      TrimLeftOver(l.lead, body);
    }
    TrimmedStart(line);
    assert t[0] == if l.key == "" then '=' else l.key[0];
    if l.key != "" && l.key[0] == '[' {
      assert body[|body| - 1] == l.raw[|l.raw| - 1];
      TrimRightKeeps(body);
    }
  }

  lemma BoundedStart(t: string)
    requires Bounded(t) && t != ""
    ensures t[0] !in " \t\r\n"
  {}

  lemma TrimRightKeeps(s: string)
    requires s != "" && s[|s| - 1] !in " \t\r\n"
    ensures TrimRight(s) == s
  {}

  lemma SettingLoaded(p: Progress, l: FileLine, reals: Reals)
    requires IsWellFormed(l) && l.Setting?
    ensures LoadLine(p, LineText(l), reals) == p.(store := PutIn(p.store, p.current, l.key, ReadValue(l.raw, reals)))
  {
    hide Trim, LineText, IndexOf, PutIn, ReadValue;
    KeyFound(l);
    SettingStart(l);
  }

  // All lines

  function Texts(lines: seq<FileLine>): seq<string> {
    if lines == [] then [] else [LineText(lines[0])] + Texts(lines[1..])
  }

  lemma {:induction false} TextsAppended(lines: seq<FileLine>, l: FileLine)
    ensures Texts(lines + [l]) == Texts(lines) + [LineText(l)]
  {
    hide LineText;
    if lines == [] {
      assert lines + [l] == [l] && [l][1..] == [];
    } else {
      assert (lines + [l])[1..] == lines[1..] + [l];
      TextsAppended(lines[1..], l);
    }
  }

  lemma {:induction false} FileHasLines(lines: seq<FileLine>, last: string)
    requires AreWellFormed(lines) && '\n' !in last
    ensures Lines(FileText(lines) + last) == Texts(lines) + (if last == "" then [] else [last])
  {
    hide IsWellFormed, LineText;
    if lines == [] {
      assert FileText(lines) + last == last;
      IndexOfIsFirst(last, '\n');
    } else {
      var rest := FileText(lines[1..]) + last;
      assert IsWellFormed(lines[0]);
      NoBreakInside(lines[0]);
      FileHasLines(lines[1..], last);
      assert FileText(lines) + last == LineText(lines[0]) + "\n" + rest;
      FirstLine(LineText(lines[0]), rest);
    }
  }

  lemma NoBreakInside(l: FileLine)
    requires IsWellFormed(l)
    ensures OneLine(LineText(l))
  {}

  /** A plain map holds what the lines have set so far. */
  ghost predicate HoldsSet(p: Plain, lines: seq<FileLine>, reals: Reals) {
    && (forall n :: n in p <==> IsMentioned(lines, n))
    && (forall n, k :: (if n in p && k in p[n] then Some(p[n][k]) else None) == LastSet(lines, n, k, reals))
  }

  lemma {:induction false} LinesLoaded(lines: seq<FileLine>, reals: Reals) returns (p: Plain)
    requires AreWellFormed(lines)
    ensures var r := LoadLines(Progress([], ""), Texts(lines), reals);
            r.current == SectionAfter(lines) && IsStore(r.store) && Matches(r.store, p)
    ensures HoldsSet(p, lines, reals)
    decreases |lines|
  {
    hide IsWellFormed, LineText, LoadLine, Matches, IsStore, HoldsSet;
    if lines == [] {
      p := map[];
      NothingSet(reals);
    } else {
      var n := |lines| - 1;
      var l := lines[n];
      assert IsWellFormed(l);
      var q := LinesLoaded(lines[..n], reals);
      var r := LoadLines(Progress([], ""), Texts(lines[..n]), reals);
      assert lines == lines[..n] + [l];
      TextsAppended(lines[..n], l);
      LoadLinesAppended(Progress([], ""), Texts(lines[..n]), [LineText(l)], reals);
      OneMore(r, LineText(l), reals);
      p := LineLoaded(r, q, lines, reals);
    }
  }

  lemma OneMore(p: Progress, line: string, reals: Reals)
    ensures LoadLines(p, [line], reals) == LoadLine(p, line, reals)
  {
    hide LoadLine;
    assert [line][1..] == [];
  }

  lemma NothingSet(reals: Reals)
    ensures HoldsSet(map[], [], reals) && Matches([], map[]) && IsStore([])
  {}

  lemma LineLoaded(r: Progress, q: Plain, lines: seq<FileLine>, reals: Reals) returns (p: Plain)
    requires lines != [] && IsWellFormed(lines[|lines| - 1])
    requires r.current == SectionAfter(lines[..|lines| - 1]) && IsStore(r.store) && Matches(r.store, q)
    requires HoldsSet(q, lines[..|lines| - 1], reals)
    ensures var r' := LoadLine(r, LineText(lines[|lines| - 1]), reals);
            r'.current == SectionAfter(lines) && IsStore(r'.store) && Matches(r'.store, p)
    ensures HoldsSet(p, lines, reals)
  {
    hide IsWellFormed, LineText, LoadLine, Matches, IsStore, PutIn, Ensured, ReadValue, HoldsSet;
    var l := lines[|lines| - 1];
    match l {
      case Header(_, _, name, _, _) =>
        HeaderLoaded(r, l, reals);
        EnsuredMatches(r.store, q, name);
        p := if name in q then q else q[name := map[]];
        HeaderHolds(q, lines, reals);
      case Setting(_, key, _, raw) =>
        var v := ReadValue(raw, reals);
        SettingLoaded(r, l, reals);
        UpsertMatches(r.store, q, r.current, key, v);
        p := ApplyPlain(q, Upsert(r.current, key, v));
        SettingHolds(q, lines, reals);
      case Other(_, _, _) =>
        OtherLoaded(r, l, reals);
        p := q;
        NothingHolds(q, lines, reals);
      case _ =>
        EmptyLoaded(r, l, reals);
        p := q;
        NothingHolds(q, lines, reals);
    }
  }

  lemma HeaderHolds(q: Plain, lines: seq<FileLine>, reals: Reals)
    requires lines != [] && lines[|lines| - 1].Header? && HoldsSet(q, lines[..|lines| - 1], reals)
    ensures var name := lines[|lines| - 1].name; HoldsSet(if name in q then q else q[name := map[]], lines, reals)
  {
    var name := lines[|lines| - 1].name;
    var p := if name in q then q else q[name := map[]];
    forall n, k
      ensures (if n in p && k in p[n] then Some(p[n][k]) else None) == LastSet(lines, n, k, reals)
    {
      assert LastSet(lines, n, k, reals) == LastSet(lines[..|lines| - 1], n, k, reals);
    }
  }

  lemma SettingHolds(q: Plain, lines: seq<FileLine>, reals: Reals)
    requires lines != [] && lines[|lines| - 1].Setting? && HoldsSet(q, lines[..|lines| - 1], reals)
    ensures var l := lines[|lines| - 1];
            HoldsSet(ApplyPlain(q, Upsert(SectionAfter(lines[..|lines| - 1]), l.key, ReadValue(l.raw, reals))), lines,
                     reals)
  {
    hide ReadValue;
    var l, c := lines[|lines| - 1], SectionAfter(lines[..|lines| - 1]);
    var v := ReadValue(l.raw, reals);
    var p := ApplyPlain(q, Upsert(c, l.key, v));
    forall n, k
      ensures (if n in p && k in p[n] then Some(p[n][k]) else None) == LastSet(lines, n, k, reals)
    {
      assert LastSet(lines, n, k, reals) ==
             if n == c && k == l.key then Some(v) else LastSet(lines[..|lines| - 1], n, k, reals);
    }
  }

  lemma NothingHolds(q: Plain, lines: seq<FileLine>, reals: Reals)
    requires lines != [] && !lines[|lines| - 1].Setting? && !lines[|lines| - 1].Header?
    requires HoldsSet(q, lines[..|lines| - 1], reals)
    ensures HoldsSet(q, lines, reals)
  {}

  /** A file loads into the store in which each key of each section has the last value that a line gives it;
      the last line may lack its line break. */
  lemma FileMeans(lines: seq<FileLine>, last: FileLine, closed: bool, reals: Reals, name: string, key: string)
    requires AreWellFormed(lines) && IsWellFormed(last)
    ensures var all := lines + [last];
            var text := if closed then FileText(all) else FileText(lines) + LineText(last);
            && Lookup(LoadText(text, reals), name, key) == LastSet(all, name, key, reals)
            && (name in Names(LoadText(text, reals)) <==> IsMentioned(all, name))
  {
    hide IsWellFormed, LineText, LoadLine, LoadLines, Matches, IsStore, ReadValue, LastSet, IsMentioned, Lookup, Names;
    var all := lines + [last];
    assert AreWellFormed(all);
    var p := LinesLoaded(all, reals);
    var r := LoadLines(Progress([], ""), Texts(all), reals);
    LookupMatches(r.store, p, name, key);
    NamesMatch(r.store, p, name);
    NoBreakInside(last);
    if closed {
      FileHasLines(all, "");
      assert FileText(all) + "" == FileText(all);
      assert Texts(all) + [] == Texts(all);
    } else {
      FileHasLines(lines, LineText(last));
      TextsAppended(lines, last);
      if LineText(last) == "" { BlankEnd(lines, reals); }
    }
  }

  lemma NamesMatch(store: Store, p: Plain, name: string)
    requires Matches(store, p)
    ensures name in Names(store) <==> name in p
  {}

  lemma BlankEnd(lines: seq<FileLine>, reals: Reals)
    ensures LoadLines(Progress([], ""), Texts(lines) + [""], reals)
         == LoadLines(Progress([], ""), Texts(lines) + [], reals)
  {
    hide LoadLine;
    var r := LoadLines(Progress([], ""), Texts(lines), reals);
    LoadLinesAppended(Progress([], ""), Texts(lines), [""], reals);
    OneMore(r, "", reals);
    NoBlanks();
    EmptyLoaded(r, Empty(""), reals);
    assert Texts(lines) + [] == Texts(lines);
  }

  /** One line alone. */
  lemma SingleSettingMeans(l: FileLine, reals: Reals)
    requires IsWellFormed(l) && l.Setting?
    ensures Lookup(LoadText(LineText(l), reals), "", l.key) == Some(ReadValue(l.raw, reals))
  {
    hide IsWellFormed, LineText, ReadValue, LoadText, Lookup;
    FileMeans([], l, false, reals, "", l.key);
    assert FileText([]) + LineText(l) == LineText(l);
    assert ([] + [l])[..0] == [];
    assert LastSet([] + [l], "", l.key, reals) == Some(ReadValue(l.raw, reals));
  }

  // Histories of changes

  /** What the last change that touches a key leaves there. */
  function LastWritten(cs: seq<Change>, name: string, key: string): Option<Value> {
    if cs == [] then None
    else
      var n := |cs| - 1;
      match cs[n]
      case Upsert(s, k, v) => if s == name && k == key then Some(v) else LastWritten(cs[..n], name, key)
      case Remove(s, k) => if s == name && k == key then None else LastWritten(cs[..n], name, key)
      case RemoveSection(s) => if s == name then None else LastWritten(cs[..n], name, key)
  }

  lemma {:induction false} PlainAppended(p: Plain, cs: seq<Change>, c: Change)
    ensures ApplyAllPlain(p, cs + [c]) == ApplyPlain(ApplyAllPlain(p, cs), c)
    decreases |cs|
  {
    hide ApplyPlain;
    if cs == [] {
      assert [] + [c] == [c] && [c][1..] == [];
      assert (cs + [c])[0] == c && (cs + [c])[1..] == [];
    } else {
      assert (cs + [c])[1..] == cs[1..] + [c] && (cs + [c])[0] == cs[0];
      PlainAppended(ApplyPlain(p, cs[0]), cs[1..], c);
    }
  }

  lemma {:induction false} PlainHoldsLast(cs: seq<Change>, name: string, key: string)
    ensures var p := ApplyAllPlain(map[], cs);
            (if name in p && key in p[name] then Some(p[name][key]) else None) == LastWritten(cs, name, key)
    decreases |cs|
  {
    if cs != [] {
      var n := |cs| - 1;
      assert cs == cs[..n] + [cs[n]];
      PlainAppended(map[], cs[..n], cs[n]);
      PlainHoldsLast(cs[..n], name, key);
    }
  }

  /** After any changes a key has the value of the last change that touches it. */
  lemma HistoryMeans(cs: seq<Change>, name: string, key: string)
    ensures Lookup(ApplyAll([], cs), name, key) == LastWritten(cs, name, key)
  {
    hide Lookup, ApplyAll, ApplyAllPlain, LastWritten;
    LookupsAgreeWithAPlainMap(cs, name, key);
    PlainHoldsLast(cs, name, key);
  }

  // Saving

  function EntriesWritten(entries: seq<Entry>): string {
    if entries == [] then ""
    else entries[0].key + "=" + WriteValue(entries[0].value) + "\n" + EntriesWritten(entries[1..])
  }

  function SectionWritten(s: Named): string {
    (if s.name == "" then "" else "[" + s.name + "]\n") + EntriesWritten(s.entries)
  }

  /** The sections, with an empty line between any two of them. */
  function StoreWritten(store: Store): string {
    if store == [] then ""
    else if |store| == 1 then SectionWritten(store[0])
    else SectionWritten(store[0]) + "\n" + StoreWritten(store[1..])
  }

  lemma {:induction false} EntriesAreWritten(entries: seq<Entry>)
    ensures Printed(EntryLines(entries)) == EntriesWritten(entries)
  {
    hide WriteValue;
    if entries != [] {
      EntriesAreWritten(entries[1..]);
      PrintedFirst(EntryLine(entries[0]), EntryLines(entries[1..]));
    }
  }

  /** The saved file, character by character. */
  lemma {:induction false} SavedIsWritten(store: Store)
    ensures SaveText(store) == StoreWritten(store)
  {
    hide EntriesWritten, EntryLines, Printed;
    if store == [] {
      PrintedOne("");
    } else {
      SavedIsWritten(store[1..]);
      EntriesAreWritten(store[0].entries);
      var header := if store[0].name != "" then "[" + store[0].name + "]\n" else "";
      var entries := Printed(EntryLines(store[0].entries));
      var gap := if |store| > 1 then "\n" else "";
      SavedSection(store, header, entries, gap);
      if |store| == 1 {
        PrintedOne("");
        assert (header + entries + "") + "" == header + entries;
      }
    }
  }

  /** How each kind of value is written. */
  lemma ValuesWritten(v: Value)
    ensures v.kind == Str && !v.literal ==> WriteValue(v) == "'" + Encode(v.text) + "'"
    ensures v.kind == Str && v.literal ==> WriteValue(v) == "\"" + EncodeLiteral(v.text) + "\""
    ensures v.kind == Bool ==> WriteValue(v) == if v.text == "true" then "true" else "false"
    ensures v.kind == Int || v.kind == Kind.Double ==> WriteValue(v) == v.text
  {}
}
