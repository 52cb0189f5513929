/** Saving and loading an INI store. The text of a file is a list of lines; saving prints sections and entries,
    loading applies the lines one after the other to an empty store. The methods work on the class of the
    store and are proved equal to functions on its ordered view. */
module IniFile {
  import opened Common
  import opened CStrings
  import opened IniText
  import opened IniValue
  import opened IniStore

  // Lines

  /** The lines that `std::getline` reads. */
  function Lines(text: string): seq<string>
    decreases |text|
  {
    var i := IndexOf(text, '\n');
    if text == "" then [] else if i == |text| then [text] else [text[..i]] + Lines(text[i + 1..])
  }

  function Printed(lines: seq<string>): string {
    if lines == [] then "" else lines[0] + "\n" + Printed(lines[1..])
  }

  predicate OneLine(s: string) {
    '\n' !in s
  }

  lemma FirstLine(l: string, rest: string)
    requires OneLine(l)
    ensures Lines(l + "\n" + rest) == [l] + Lines(rest)
  {
    var text := l + "\n" + rest;
    assert text[|l|] == '\n';
    IndexOfIs(text, '\n', |l|);
    assert text[..|l|] == l;
    assert text[|l| + 1..] == rest;
  }

  lemma {:induction false} LinesOfPrinted(lines: seq<string>)
    requires forall i :: 0 <= i < |lines| ==> OneLine(lines[i])
    ensures Lines(Printed(lines)) == lines
  {
    hide OneLine;
    if lines != [] {
      LinesOfPrinted(lines[1..]);
      FirstLine(lines[0], Printed(lines[1..]));
    }
  }

  lemma {:induction false} PrintedAppended(a: seq<string>, b: seq<string>)
    ensures Printed(a + b) == Printed(a) + Printed(b)
  {
    if a == [] {
      assert a + b == b;
    } else {
      assert (a + b)[1..] == a[1..] + b;
      PrintedAppended(a[1..], b);
    }
  }

  lemma {:induction false} LinesAreOneLine(text: string)
    ensures forall i :: 0 <= i < |Lines(text)| ==> OneLine(Lines(text)[i])
    decreases |text|
  {
    IndexOfIsFirst(text, '\n');
    var i := IndexOf(text, '\n');
    if i < |text| { LinesAreOneLine(text[i + 1..]); }
  }

  // Saving

  function EntryLine(e: Entry): string {
    e.key + "=" + WriteValue(e.value)
  }

  function EntryLines(entries: seq<Entry>): seq<string> {
    if entries == [] then [] else [EntryLine(entries[0])] + EntryLines(entries[1..])
  }

  function HeaderLines(name: string): seq<string> {
    if name == "" then [] else ["[" + name + "]"]
  }

  function SaveLines(store: Store): seq<string> {
    if store == [] then []
    else HeaderLines(store[0].name) + EntryLines(store[0].entries)
         + (if |store| > 1 then [""] else []) + SaveLines(store[1..])
  }

  /** The text of the saved file. */
  function SaveText(store: Store): string {
    Printed(SaveLines(store))
  }

  // Loading

  /** The store so far and the section that entries go into. */
  datatype Progress = Progress(store: Store, current: string)

  predicate IsHeader(t: string) {
    t != "" && t[0] == '[' && t[|t| - 1] == ']' && |t| >= 2
  }

  function LoadLine(p: Progress, line: string, reals: Reals): Progress {
    var t := Trim(line);
    if t == "" || IsComment(t[0]) then p
    else if IsHeader(t) then
      var name := Trim(t[1..|t| - 1]);
      Progress(Ensured(p.store, name), name)
    else
      var i := IndexOf(line, '=');
      if i == |line| then p
      else p.(store := PutIn(p.store, p.current, Trim(line[..i]), ReadValue(line[i + 1..], reals)))
  }

  function LoadLines(p: Progress, lines: seq<string>, reals: Reals): Progress
    decreases |lines|
  {
    if lines == [] then p else LoadLines(LoadLine(p, lines[0], reals), lines[1..], reals)
  }

  function LoadText(text: string, reals: Reals): Store {
    LoadLines(Progress([], ""), Lines(text), reals).store
  }

  lemma {:induction false} LoadLinesAppended(p: Progress, a: seq<string>, b: seq<string>, reals: Reals)
    ensures LoadLines(p, a + b, reals) == LoadLines(LoadLines(p, a, reals), b, reals)
    decreases |a|
  {
    hide LoadLine;
    if a == [] {
      assert a + b == b;
    } else {
      assert (a + b)[1..] == a[1..] + b;
      LoadLinesAppended(LoadLine(p, a[0], reals), a[1..], b, reals);
    }
  }

  // The class methods

  method LoadLineInto(store: IniParser, current: string, line: string, reals: Reals) returns (current': string)
    requires store.Valid()
    modifies store
    ensures store.Valid()
    ensures Progress(store.View(), current') == LoadLine(Progress(old(store.View()), current), line, reals)
  {
    hide Agree, AllAgree, PutIn, Ensured, ReadValue, ViewOf;
    current' := current;
    var t := TrimText(line);
    if t == "" { return; }
    if t[0] == ';' || t[0] == '#' { return; }
    if t[0] == '[' && t[|t| - 1] == ']' {
      current' := TrimText(t[1..|t| - 1]);
      var _ := store.EnsureSection(current');
      return;
    }
    var pos := IndexOf(line, '=');
    if pos == |line| { return; }
    var key := TrimText(line[..pos]);
    var value := ParseValue(line[pos + 1..], reals);
    store.Upsert(current, key, value);
  }

  /** `load`: a file that cannot be opened leaves the store as it was. */
  method Load(store: IniParser, file: Option<string>, reals: Reals) returns (ok: bool)
    requires store.Valid()
    modifies store
    ensures store.Valid()
    ensures ok <==> file.Some?
    ensures store.View() == if file.Some? then LoadText(file.value, reals) else old(store.View())
  {
    hide LoadLine;
    if file.None? { return false; }
    store.sections := [];
    store.secIndex := map[];
    var lines := Lines(file.value);
    var current := "";
    assert lines[0..] == lines;
    assert store.View() == [];
    for i := 0 to |lines|
      invariant store.Valid()
      invariant LoadLines(Progress(store.View(), current), lines[i..], reals).store == LoadText(file.value, reals)
    {
      assert lines[i..][1..] == lines[i + 1..];
      current := LoadLineInto(store, current, lines[i], reals);
    }
    return true;
  }

  method WriteValueText(v: Value) returns (t: string)
    ensures t == WriteValue(v)
  {
    match v.kind
    case Str =>
      if v.literal {
        var inner := EscapeLiteral(v.text);
        t := "\"" + inner + "\"";
      } else {
        var inner := EncodeEscapes(v.text);
        t := "'" + inner + "'";
      }
    case Bool => t := if v.text == "true" then "true" else "false";
    case Int => t := v.text;
    case Double => t := v.text;
  }

  method SaveEntries(entries: seq<Entry>) returns (text: string)
    ensures text == Printed(EntryLines(entries))
  {
    hide WriteValue;
    text := "";
    assert entries[0..] == entries;
    for i := 0 to |entries|
      invariant text + Printed(EntryLines(entries[i..])) == Printed(EntryLines(entries))
    {
      assert entries[i..][1..] == entries[i + 1..];
      var value := WriteValueText(entries[i].value);
      var line := entries[i].key + "=" + value;
      assert EntryLine(entries[i]) == line;
      PrintedFirst(line, EntryLines(entries[i + 1..]));
      Regrouped(text, line + "\n", Printed(EntryLines(entries[i + 1..])));
      text := text + (line + "\n");
    }
    Regrouped(text, "", "");
  }

  lemma PrintedFirst(line: string, lines: seq<string>)
    ensures Printed([line] + lines) == line + "\n" + Printed(lines)
  {
    assert ([line] + lines)[1..] == lines;
  }

  /** `save`: the text it writes, or nothing and the result false when the file cannot be opened. */
  method Save(store: IniParser, canOpen: bool) returns (ok: bool, file: Option<string>)
    requires store.Valid()
    ensures ok <==> canOpen
    ensures file == if canOpen then Some(SaveText(store.View())) else None
  {
    hide EntryLines, SaveText;
    if !canOpen { return false, None; }
    var text := SaveSections(store);
    return true, Some(text);
  }

  method SaveSections(store: IniParser) returns (text: string)
    requires store.Valid()
    ensures text == SaveText(store.View())
  {
    hide EntryLines;
    text := "";
    var sections := store.sections;
    ghost var view := store.View();
    assert view[0..] == view;
    for i := 0 to |sections|
      invariant text + SaveText(view[i..]) == SaveText(view)
    {
      var (name, sec) := sections[i];
      ghost var rest := view[i..];
      assert rest[1..] == view[i + 1..];
      assert rest[0] == Named(name, sec.entries);
      var entries := SaveEntries(sec.entries);
      var header := if name != "" then "[" + name + "]\n" else "";
      var gap := if i + 1 < |sections| then "\n" else "";
      SavedSection(rest, header, entries, gap);
      Regrouped(text, header + entries + gap, SaveText(view[i + 1..]));
      text := text + (header + entries + gap);
    }
    Regrouped(text, "", "");
  }

  lemma SavedSection(rest: Store, header: string, entries: string, gap: string)
    requires rest != []
    requires header == if rest[0].name != "" then "[" + rest[0].name + "]\n" else ""
    requires entries == Printed(EntryLines(rest[0].entries))
    requires gap == if |rest| > 1 then "\n" else ""
    ensures SaveText(rest) == (header + entries + gap) + SaveText(rest[1..])
  {
    hide EntryLines, Printed, HeaderLines;
    var h, e := HeaderLines(rest[0].name), EntryLines(rest[0].entries);
    var g := if |rest| > 1 then [""] else [];
    PrintedAppended(h + e + g, SaveLines(rest[1..]));
    PrintedAppended(h + e, g);
    PrintedAppended(h, e);
    PrintedHeader(rest[0].name);
    PrintedOne("");
  }

  lemma PrintedHeader(name: string)
    ensures Printed(HeaderLines(name)) == if name != "" then "[" + name + "]\n" else ""
  {
    PrintedOne("[" + name + "]");
    assert "]\n" == "]" + "\n";
  }

  lemma PrintedOne(line: string)
    ensures Printed([line]) == line + "\n"
    ensures Printed([]) == ""
  {
    assert [line] == [line] + [];
    PrintedFirst(line, []);
    assert line + "\n" + "" == line + "\n";
  }

  // Conditions

  predicate NameOk(name: string) {
    IsStable(name) && OneLine(name)
  }

  predicate KeyOk(key: string) {
    IsStable(key) && OneLine(key) && '=' !in key && (key == "" || !IsComment(key[0]))
  }

  /** Only the double-quoted form keeps a line break as it is. */
  predicate LineOk(v: Value) {
    v.kind == Str && v.literal ==> OneLine(v.text)
  }

  predicate EntryOk(e: Entry) {
    KeyOk(e.key) && LineOk(e.value)
  }

  predicate SectionOk(s: Named) {
    NameOk(s.name) && forall i :: 0 <= i < |s.entries| ==> EntryOk(s.entries[i])
  }

  predicate StoreOk(store: Store) {
    forall i :: 0 <= i < |store| ==> SectionOk(store[i])
  }

  /** Entries outside any named section can only be at the top of the file. */
  predicate UnnamedOk(store: Store) {
    forall i :: 0 <= i < |store| && store[i].name == "" ==> i == 0 && store[i].entries != []
  }

  predicate AllSurvive(store: Store, reals: Reals) {
    forall i, j :: 0 <= i < |store| && 0 <= j < |store[i].entries| ==> Survives(store[i].entries[j].value, reals)
  }

  ghost predicate ValuesStorable(entries: seq<Entry>) {
    forall i :: 0 <= i < |entries| ==> Storable(entries[i].value)
  }

  ghost predicate AllStorable(store: Store) {
    forall i :: 0 <= i < |store| ==> ValuesStorable(store[i].entries)
  }

  /** What the setters and `load` can build. */
  ghost predicate StorableStore(store: Store) {
    IsStore(store) && AllStorable(store)
  }

  predicate Saveable(store: Store, reals: Reals) {
    StoreOk(store) && UnnamedOk(store) && AllSurvive(store, reals)
  }

  // What every loaded store looks like

  lemma OneLineSlice(s: string, i: nat, j: nat)
    requires OneLine(s) && i <= j <= |s|
    ensures OneLine(s[i..j])
  {}

  lemma OneLineTrimmed(s: string)
    requires OneLine(s)
    ensures OneLine(Trim(s))
  {
    TrimShape(s);
    var i: nat, j: nat :| i <= j <= |s| && Trim(s) == s[i..j];
    OneLineSlice(s, i, j);
  }

  lemma {:induction false} OneLineDropped(s: string)
    requires OneLine(s)
    ensures OneLine(DropTrailingSpace(s))
  {
    if s != "" && IsSpace(s[|s| - 1]) { OneLineDropped(s[..|s| - 1]); }
  }

  lemma {:induction false} OneLineDecodedLiteral(s: string)
    requires OneLine(s)
    ensures OneLine(DecodeLiteral(s))
  {
    if s != "" {
      if s[0] == '\\' && |s| > 1 && s[1] == '"' {
        OneLineDecodedLiteral(s[2..]);
      } else {
        OneLineDecodedLiteral(s[1..]);
      }
    }
  }

  lemma ReadValueIsLineOk(raw: string, reals: Reals)
    requires OneLine(raw)
    ensures LineOk(ReadValue(raw, reals))
  {
    hide Trim, CommentAt, DropTrailingSpace, DecodeLiteral, Decode, ReadPlain;
    OneLineDropped(raw[..CommentAt(OUTSIDE, raw)]);
    var v := Trim(StripComment(raw));
    OneLineTrimmed(StripComment(raw));
    if |v| >= 2 { OneLineDecodedLiteral(v[1..|v| - 1]); }
    PlainIsNotLiteral(v, reals);
  }

  lemma PlainIsNotLiteral(v: string, reals: Reals)
    ensures !ReadPlain(v, reals).literal
  {}

  lemma {:induction false} TrimLeftOfPrefix(a: string, b: string)
    requires TrimLeft(a) != ""
    ensures TrimLeft(a + b) == TrimLeft(a) + b
  {
    if a != "" && IsTrimmed(a[0]) {
      assert (a + b)[1..] == a[1..] + b;
      TrimLeftOfPrefix(a[1..], b);
    }
  }

  lemma TrimmedStart(s: string)
    ensures Trim(s) != "" ==> TrimLeft(s) != "" && Trim(s)[0] == TrimLeft(s)[0]
    ensures Trim(s) == "" ==> TrimLeft(s) == ""
  {
    TrimLeftShape(s);
    TrimRightShape(TrimLeft(s));
  }

  /** A key begins as its line does. */
  lemma KeyStart(line: string, i: nat)
    requires i <= |line|
    ensures Trim(line[..i]) != "" ==> Trim(line) != "" && Trim(line)[0] == Trim(line[..i])[0]
  {
    hide Trim, TrimLeft;
    if Trim(line[..i]) != "" {
      TrimmedStart(line[..i]);
      TrimmedStart(line);
      assert line == line[..i] + line[i..];
      TrimLeftOfPrefix(line[..i], line[i..]);
    }
  }

  lemma TrimmedIsOk(s: string)
    requires OneLine(s)
    ensures NameOk(Trim(s))
  {
    TrimShape(s);
    OneLineTrimmed(s);
  }

  lemma KeyIsOk(line: string, i: nat)
    requires OneLine(line) && i == IndexOf(line, '=') && Trim(line) != "" && !IsComment(Trim(line)[0])
    ensures KeyOk(Trim(line[..i]))
  {
    hide Trim;
    IndexOfIsFirst(line, '=');
    OneLineSlice(line, 0, i);
    TrimmedIsOk(line[..i]);
    KeyStart(line, i);
    TrimShape(line[..i]);
  }

  lemma PutInKeepsOk(store: Store, name: string, key: string, value: Value)
    requires StoreOk(store) && NameOk(name) && EntryOk(Entry(key, value))
    ensures StoreOk(PutIn(store, name, key, value))
  {
    hide EntryOk, Put, NameOk;
    var s := Ensured(store, name);
    assert StoreOk(s);
    var i := Find(Names(s), name);
    if i < |s| {
      assert SectionOk(s[i]);
      PutKeepsOk(s[i].entries, key, value);
    }
  }

  lemma PutKeepsOk(entries: seq<Entry>, key: string, value: Value)
    requires forall i :: 0 <= i < |entries| ==> EntryOk(entries[i])
    requires EntryOk(Entry(key, value))
    ensures forall i :: 0 <= i < |Put(entries, key, value)| ==> EntryOk(Put(entries, key, value)[i])
  {
    hide EntryOk;
  }

  lemma LoadLineKeepsOk(p: Progress, line: string, reals: Reals)
    requires StoreOk(p.store) && NameOk(p.current) && OneLine(line)
    ensures StoreOk(LoadLine(p, line, reals).store) && NameOk(LoadLine(p, line, reals).current)
  {
    hide Trim, StoreOk, NameOk, KeyOk, LineOk, ReadValue, PutIn, Ensured, OneLine;
    var t := Trim(line);
    OneLineTrimmed(line);
    if t == "" || IsComment(t[0]) {
    } else if IsHeader(t) {
      OneLineSlice(t, 1, |t| - 1);
      TrimmedIsOk(t[1..|t| - 1]);
      EnsuredKeepsOk(p.store, Trim(t[1..|t| - 1]));
    } else {
      var i := IndexOf(line, '=');
      if i < |line| {
        KeyIsOk(line, i);
        OneLineSlice(line, i + 1, |line|);
        assert line[i + 1..] == line[i + 1..|line|];
        ReadValueIsLineOk(line[i + 1..], reals);
        PutInKeepsOk(p.store, p.current, Trim(line[..i]), ReadValue(line[i + 1..], reals));
      }
    }
  }

  lemma EnsuredKeepsOk(store: Store, name: string)
    requires StoreOk(store) && NameOk(name)
    ensures StoreOk(Ensured(store, name))
  {
    hide NameOk;
  }

  lemma {:induction false} LoadLinesKeepsOk(p: Progress, lines: seq<string>, reals: Reals)
    requires StoreOk(p.store) && NameOk(p.current) && forall i :: 0 <= i < |lines| ==> OneLine(lines[i])
    ensures StoreOk(LoadLines(p, lines, reals).store)
    decreases |lines|
  {
    hide LoadLine, StoreOk, NameOk;
    if lines != [] {
      LoadLineKeepsOk(p, lines[0], reals);
      LoadLinesKeepsOk(LoadLine(p, lines[0], reals), lines[1..], reals);
    }
  }

  /** No text, however malformed, loads into a store whose names and keys would not print as single, trimmed lines. */
  lemma LoadedIsOk(text: string, reals: Reals)
    ensures StoreOk(LoadText(text, reals))
  {
    LinesAreOneLine(text);
    LoadLinesKeepsOk(Progress([], ""), Lines(text), reals);
  }
}
