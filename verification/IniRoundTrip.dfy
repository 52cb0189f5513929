/** What loading a saved INI store gives back. */
module IniRoundTrip {
  import opened Common
  import opened CStrings
  import opened IniText
  import opened IniValue
  import opened IniStore
  import opened IniFile

  /** The entry after its value has been written and read. */
  function Reread(e: Entry, reals: Reals): Entry {
    Entry(e.key, ReadValue(WriteValue(e.value), reals))
  }

  function RereadEntries(entries: seq<Entry>, reals: Reals): (r: seq<Entry>)
    ensures |r| == |entries|
    ensures forall i :: 0 <= i < |entries| ==> r[i] == Reread(entries[i], reals)
    ensures Keys(r) == Keys(entries)
  {
    seq(|entries|, i requires 0 <= i < |entries| => Reread(entries[i], reals))
  }

  function RereadStore(store: Store, reals: Reals): (r: Store)
    ensures |r| == |store|
    ensures forall i :: 0 <= i < |store| ==> r[i] == Named(store[i].name, RereadEntries(store[i].entries, reals))
    ensures Names(r) == Names(store)
  {
    seq(|store|, i requires 0 <= i < |store| => Named(store[i].name, RereadEntries(store[i].entries, reals)))
  }

  // One line

  /** A written value starts and ends with a character that is not trimmed, and a line ending in one is no header. */
  predicate Solid(w: string) {
    w != "" && !IsTrimmed(w[|w| - 1]) && w[|w| - 1] != ']'
  }

  lemma WrittenIsSolid(v: Value)
    requires Storable(v)
    ensures Solid(WriteValue(v))
  {
    hide Encode, EncodeLiteral, Decimal, FormattedDouble;
    if v.kind == Int {
      var n: int :| IsInt64(n) && v.text == Decimal(n);
      DecimalIsSolid(n);
    } else if v.kind == Double {
      DoubleIsSolid(v.text);
    }
  }

  lemma DoubleIsSolid(t: string)
    requires FormattedDouble(t)
    ensures Solid(t) && OneLine(t)
  {
    hide FormattedDouble;
    FormattedDoubleChars(t);
  }

  lemma DecimalIsSolid(n: int)
    ensures Solid(Decimal(n)) && OneLine(Decimal(n))
  {
    DecimalShape(if n < 0 then -n else n);
  }

  lemma WrittenIsOneLine(v: Value)
    requires Storable(v) && LineOk(v)
    ensures OneLine(WriteValue(v))
  {
    hide Encode, EncodeLiteral, Decimal, FormattedDouble;
    match v.kind
    case Str => if v.literal { EncodedLiteralIsOneLine(v.text); } else { EncodedIsOneLine(v.text); }
    case Bool =>
    case Int =>
      var n: int :| IsInt64(n) && v.text == Decimal(n);
      DecimalIsSolid(n);
    case Double => DoubleIsSolid(v.text);
  }

  lemma {:induction false} EncodedIsOneLine(s: string)
    ensures OneLine(Encode(s))
  {
    if s != "" { EncodedIsOneLine(s[1..]); }
  }

  lemma {:induction false} EncodedLiteralIsOneLine(s: string)
    requires OneLine(s)
    ensures OneLine(EncodeLiteral(s))
  {
    if s != "" { EncodedLiteralIsOneLine(s[1..]); }
  }

  lemma EntryLineParts(key: string, w: string)
    requires KeyOk(key) && Solid(w)
    ensures Trim(key + "=" + w) == key + "=" + w
    ensures IndexOf(key + "=" + w, '=') == |key|
    ensures (key + "=" + w)[..|key|] == key && (key + "=" + w)[|key| + 1..] == w
    ensures Trim(key) == key
  {
    hide Trim;
    var line := key + "=" + w;
    assert line[0] == if key == "" then '=' else key[0];
    TrimKeepsStable(line);
    TrimKeepsStable(key);
    assert line[..|key|] == key;
    IndexOfIs(line, '=', |key|);
  }

  /** A written entry is put under its key into the current section. */
  lemma LoadEntryLine(p: Progress, e: Entry, reals: Reals)
    requires KeyOk(e.key) && Solid(WriteValue(e.value))
    ensures LoadLine(p, EntryLine(e), reals)
         == p.(store := PutIn(p.store, p.current, e.key, ReadValue(WriteValue(e.value), reals)))
  {
    hide Trim, WriteValue, ReadValue, PutIn;
    var w := WriteValue(e.value);
    EntryLineParts(e.key, w);
    var line := EntryLine(e);
    assert line[|line| - 1] == w[|w| - 1];
    assert line[0] == if e.key == "" then '=' else e.key[0];
  }

  lemma LoadHeaderLine(p: Progress, name: string, reals: Reals)
    requires NameOk(name) && name != ""
    ensures LoadLine(p, "[" + name + "]", reals) == Progress(Ensured(p.store, name), name)
  {
    hide Trim, Ensured;
    var line := "[" + name + "]";
    TrimKeepsStable(line);
    TrimKeepsStable(name);
    assert line[1..|line| - 1] == name;
  }

  lemma LoadBlankLine(p: Progress, reals: Reals)
    ensures LoadLine(p, "", reals) == p
  {
    assert TrimLeft("") == "" && TrimRight("") == "";
  }

  // The entries of a section

  ghost predicate EntriesLoadable(entries: seq<Entry>) {
    forall i :: 0 <= i < |entries| ==> KeyOk(entries[i].key) && Solid(WriteValue(entries[i].value))
  }

  lemma PutAtEnd(done: Store, name: string, es: seq<Entry>, key: string, value: Value)
    requires name !in Names(done) && key !in Keys(es)
    ensures PutIn(done + [Named(name, es)], name, key, value) == done + [Named(name, es + [Entry(key, value)])]
  {
    var s := done + [Named(name, es)];
    assert Names(s) == Names(done) + [name];
    assert Names(s)[|done|] == name;
    FindMissing(Names(s), name);
    FindMissing(Keys(es), key);
  }

  lemma PutFirst(done: Store, name: string, key: string, value: Value)
    requires name !in Names(done)
    ensures PutIn(done, name, key, value) == done + [Named(name, [Entry(key, value)])]
  {
    FindMissing(Names(done), name);
    assert Names(Ensured(done, name)) == Names(done) + [name];
    assert Names(Ensured(done, name))[|done|] == name;
    FindMissing(Names(Ensured(done, name)), name);
    FindMissing(Keys([]), key);
    assert Put([], key, value) == [Entry(key, value)];
  }

  lemma FirstKeyIsNew(es: seq<Entry>, entries: seq<Entry>)
    requires entries != [] && Distinct(Keys(es) + Keys(entries))
    ensures entries[0].key !in Keys(es)
  {
    var both := Keys(es) + Keys(entries);
    assert both[|es|] == entries[0].key;
    forall i | 0 <= i < |es|
      ensures Keys(es)[i] != entries[0].key
    {
      assert both[i] == Keys(es)[i];
    }
  }

  lemma RereadFirst(es: seq<Entry>, entries: seq<Entry>, reals: Reals)
    requires entries != []
    ensures (es + [Reread(entries[0], reals)]) + RereadEntries(entries[1..], reals) ==
            es + RereadEntries(entries, reals)
    ensures Keys(es + [Reread(entries[0], reals)]) + Keys(entries[1..]) == Keys(es) + Keys(entries)
  {
    hide Reread, RereadEntries, Keys;
    var e := Reread(entries[0], reals);
    KeyOfReread(entries[0], reals);
    RereadSplit(entries, reals);
    Regrouped(es, [e], RereadEntries(entries[1..], reals));
    KeysSplit(entries, e);
    KeysAppended(es, e);
    Regrouped(Keys(es), Keys([e]), Keys(entries[1..]));
  }

  lemma KeysAppended(es: seq<Entry>, e: Entry)
    ensures Keys(es + [e]) == Keys(es) + Keys([e])
  {}

  lemma KeyOfReread(e: Entry, reals: Reals)
    ensures Reread(e, reals).key == e.key
  {}

  lemma {:induction false} LoadEntries(done: Store, name: string, es: seq<Entry>, entries: seq<Entry>, reals: Reals)
    requires name !in Names(done) && EntriesLoadable(entries)
    requires Distinct(Keys(es) + Keys(entries))
    ensures LoadLines(Progress(done + [Named(name, es)], name), EntryLines(entries), reals)
         == Progress(done + [Named(name, es + RereadEntries(entries, reals))], name)
    decreases |entries|
  {
    hide LoadLine, PutIn, Solid, EntryLine, ReadValue, WriteValue, Distinct, EntriesLoadable, KeyOk;
    var p := Progress(done + [Named(name, es)], name);
    if entries == [] {
      assert es + RereadEntries(entries, reals) == es;
    } else {
      var e := entries[0];
      EntriesLoadableFrom(entries);
      LoadEntryLine(p, e, reals);
      FirstKeyIsNew(es, entries);
      PutAtEnd(done, name, es, e.key, ReadValue(WriteValue(e.value), reals));
      RereadFirst(es, entries, reals);
      LoadEntries(done, name, es + [Reread(e, reals)], entries[1..], reals);
      FirstLineLoaded(p, entries, reals);
    }
  }

  lemma FirstLineLoaded(p: Progress, entries: seq<Entry>, reals: Reals)
    requires entries != []
    ensures LoadLines(p, EntryLines(entries), reals)
         == LoadLines(LoadLine(p, EntryLine(entries[0]), reals), EntryLines(entries[1..]), reals)
  {
    hide LoadLine, EntryLine;
    assert EntryLines(entries)[1..] == EntryLines(entries[1..]);
  }

  // The sections

  ghost predicate Loadable(s: Named) {
    NameOk(s.name) && EntriesLoadable(s.entries) && Distinct(Keys(s.entries))
  }

  ghost predicate AllLoadable(store: Store) {
    forall i :: 0 <= i < |store| ==> Loadable(store[i])
  }

  /** The lines of one section, header and entries. */
  function SectionLines(s: Named): seq<string> {
    HeaderLines(s.name) + EntryLines(s.entries)
  }

  lemma LoadSection(done: Store, current: string, s: Named, reals: Reals)
    requires Loadable(s) && s.name !in Names(done)
    requires s.name == "" ==> current == "" && s.entries != []
    ensures LoadLines(Progress(done, current), SectionLines(s), reals)
         == Progress(done + [Named(s.name, RereadEntries(s.entries, reals))], s.name)
  {
    hide LoadLine, PutIn, EntryLine, ReadValue, WriteValue, EntriesLoadable, Distinct;
    var p := Progress(done, current);
    if s.name == "" {
      var e := s.entries[0];
      EntriesLoadableFrom(s.entries);
      LoadEntryLine(p, e, reals);
      PutFirst(done, "", e.key, Reread(e, reals).value);
      RereadSplit(s.entries, reals);
      KeyOfReread(e, reals);
      KeysSplit(s.entries, Reread(e, reals));
      LoadEntries(done, "", [Reread(e, reals)], s.entries[1..], reals);
      Regrouped([], [], EntryLines(s.entries));
      FirstLineLoaded(p, s.entries, reals);
    } else {
      LoadHeaderLine(p, s.name, reals);
      FindMissing(Names(done), s.name);
      assert SectionLines(s)[1..] == EntryLines(s.entries);
      assert Keys([]) + Keys(s.entries) == Keys(s.entries);
      LoadEntries(done, s.name, [], s.entries, reals);
      Regrouped([], [], RereadEntries(s.entries, reals));
    }
  }

  lemma EntriesLoadableFrom(entries: seq<Entry>)
    requires EntriesLoadable(entries) && entries != []
    ensures KeyOk(entries[0].key) && Solid(WriteValue(entries[0].value)) && EntriesLoadable(entries[1..])
  {}

  function GapLines(store: Store): seq<string> {
    if |store| > 1 then [""] else []
  }

  lemma LoadGap(p: Progress, store: Store, reals: Reals)
    ensures LoadLines(p, GapLines(store), reals) == p
  {
    hide LoadLine;
    LoadBlankLine(p, reals);
    if |store| > 1 {
      assert GapLines(store)[1..] == [];
      assert LoadLines(p, GapLines(store)[1..], reals) == p;
    }
  }

  lemma LoadSaved(p: Progress, store: Store, reals: Reals)
    requires store != []
    ensures LoadLines(p, SaveLines(store), reals)
         == LoadLines(LoadLines(p, SectionLines(store[0]), reals), SaveLines(store[1..]), reals)
  {
    hide LoadLine, LoadLines, SectionLines;
    var s := SectionLines(store[0]);
    SavedLines(store);
    LoadLinesAppended(p, s + GapLines(store), SaveLines(store[1..]), reals);
    LoadLinesAppended(p, s, GapLines(store), reals);
    LoadGap(LoadLines(p, s, reals), store, reals);
  }

  lemma SavedLines(store: Store)
    requires store != []
    ensures SaveLines(store) == (SectionLines(store[0]) + GapLines(store)) + SaveLines(store[1..])
  {
    hide EntryLines;
  }

  lemma FirstNameIsNew(done: Store, store: Store)
    requires store != [] && Distinct(Names(done) + Names(store))
    ensures store[0].name !in Names(done)
  {
    var both := Names(done) + Names(store);
    assert both[|done|] == store[0].name;
    forall i | 0 <= i < |done|
      ensures Names(done)[i] != store[0].name
    {
      assert both[i] == Names(done)[i];
    }
  }

  lemma RereadFirstSection(done: Store, store: Store, reals: Reals)
    requires store != []
    ensures var done' := done + [Named(store[0].name, RereadEntries(store[0].entries, reals))];
            && done' + RereadStore(store[1..], reals) == done + RereadStore(store, reals)
            && Names(done') + Names(store[1..]) == Names(done) + Names(store)
  {
    hide RereadEntries, RereadStore, Names;
    var s := Named(store[0].name, RereadEntries(store[0].entries, reals));
    RereadStoreSplit(store, reals);
    NamesSplit(store);
    NamesAppended(done, s);
    Regrouped(done, [s], RereadStore(store[1..], reals));
    Regrouped(Names(done), [s.name], Names(store[1..]));
  }

  lemma RereadStoreSplit(store: Store, reals: Reals)
    requires store != []
    ensures RereadStore(store, reals) ==
            [Named(store[0].name, RereadEntries(store[0].entries, reals))] + RereadStore(store[1..], reals)
  {
    hide RereadEntries;
  }

  lemma NamesSplit(store: Store)
    requires store != []
    ensures Names(store) == [store[0].name] + Names(store[1..])
  {}

  lemma NamesAppended(done: Store, s: Named)
    ensures Names(done + [s]) == Names(done) + [s.name]
  {}

  lemma RereadSplit(entries: seq<Entry>, reals: Reals)
    requires entries != []
    ensures RereadEntries(entries, reals) == [Reread(entries[0], reals)] + RereadEntries(entries[1..], reals)
  {
    hide Reread;
  }

  lemma KeysSplit(entries: seq<Entry>, e: Entry)
    requires entries != [] && e.key == entries[0].key
    ensures Keys([e]) + Keys(entries[1..]) == Keys(entries)
  {}

  /** Loading appends the saved sections, reread, when unnamed entries come first. */
  lemma {:induction false} LoadSections(done: Store, current: string, store: Store, reals: Reals)
    requires AllLoadable(store) && Distinct(Names(done) + Names(store))
    requires forall i :: 0 <= i < |store| && store[i].name == "" ==> i == 0 && current == "" && store[i].entries != []
    ensures LoadLines(Progress(done, current), SaveLines(store), reals).store == done + RereadStore(store, reals)
    decreases |store|
  {
    hide LoadLines, SaveLines, Loadable, SectionLines, Distinct;
    if store == [] {
      assert done + RereadStore(store, reals) == done;
      NothingToLoad(Progress(done, current), reals);
    } else {
      var s := store[0];
      var p := Progress(done, current);
      FirstNameIsNew(done, store);
      assert Loadable(s);
      LoadSaved(p, store, reals);
      LoadSection(done, current, s, reals);
      RereadFirstSection(done, store, reals);
      LoadSections(done + [Named(s.name, RereadEntries(s.entries, reals))], s.name, store[1..], reals);
    }
  }

  lemma NothingToLoad(p: Progress, reals: Reals)
    ensures LoadLines(p, SaveLines([]), reals) == p
  {}

  // An unnamed section elsewhere is lost

  lemma {:induction false} EntriesStayInCurrent(p: Progress, entries: seq<Entry>, reals: Reals)
    requires EntriesLoadable(entries) && p.current != "" && "" !in Names(p.store)
    ensures var q := LoadLines(p, EntryLines(entries), reals); q.current == p.current && "" !in Names(q.store)
    decreases |entries|
  {
    hide LoadLine, PutIn, EntryLine, ReadValue, WriteValue, Solid;
    if entries != [] {
      var e := entries[0];
      LoadEntryLine(p, e, reals);
      PutInNames(p.store, p.current, e.key, ReadValue(WriteValue(e.value), reals));
      EntriesStayInCurrent(LoadLine(p, EntryLine(e), reals), entries[1..], reals);
    }
  }

  lemma PutInNames(store: Store, name: string, key: string, value: Value)
    requires name != "" && "" !in Names(store)
    ensures "" !in Names(PutIn(store, name, key, value))
  {
    EnsuredNames(store, name);
    var s := Ensured(store, name);
    var i := Find(Names(s), name);
    if i < |s| { assert Names(PutIn(store, name, key, value)) == Names(s); }
  }

  lemma SectionStaysNamed(p: Progress, s: Named, reals: Reals)
    requires Loadable(s) && "" !in Names(p.store) && (p.current != "" || s.name != "" || s.entries == [])
    ensures var q := LoadLines(p, SectionLines(s), reals);
            "" !in Names(q.store) && (p.current != "" || s.name != "" ==> q.current != "")
  {
    hide LoadLine, EntriesLoadable, EntryLines;
    LoadLinesAppended(p, HeaderLines(s.name), EntryLines(s.entries), reals);
    var q := LoadLines(p, HeaderLines(s.name), reals);
    if s.name != "" {
      LoadHeaderLine(p, s.name, reals);
      EnsuredNames(p.store, s.name);
      assert HeaderLines(s.name)[1..] == [];
      assert LoadLines(LoadLine(p, HeaderLines(s.name)[0], reals), [], reals) ==
             LoadLine(p, HeaderLines(s.name)[0], reals);
    }
    if q.current != "" { EntriesStayInCurrent(q, s.entries, reals); } else { NoEntryLines(); }
  }

  lemma NoEntryLines()
    ensures EntryLines([]) == []
  {}

  lemma {:induction false} SectionsStayNamed(p: Progress, store: Store, reals: Reals)
    requires AllLoadable(store) && "" !in Names(p.store) && Distinct(Names(store))
    requires p.current != "" || store == [] || store[0].name != "" || store[0].entries == []
    ensures "" !in Names(LoadLines(p, SaveLines(store), reals).store)
    decreases |store|
  {
    hide LoadLines, SaveLines, Loadable, SectionLines;
    if store == [] {
      NothingToLoad(p, reals);
    } else {
      assert Loadable(store[0]);
      LoadSaved(p, store, reals);
      SectionStaysNamed(p, store[0], reals);
      var q := LoadLines(p, SectionLines(store[0]), reals);
      assert Distinct(Names(store[1..])) by {
        assert Names(store[1..]) == Names(store)[1..];
      }
      if |store| > 1 { assert Names(store)[0] != Names(store)[1]; }
      SectionsStayNamed(q, store[1..], reals);
    }
  }

  // The saved text is read line by line

  ghost predicate AllOneLine(lines: seq<string>) {
    forall i :: 0 <= i < |lines| ==> OneLine(lines[i])
  }

  lemma JoinedLines(a: seq<string>, b: seq<string>)
    requires AllOneLine(a) && AllOneLine(b)
    ensures AllOneLine(a + b)
  {}

  lemma {:induction false} EntryLinesAreOneLine(entries: seq<Entry>)
    requires ValuesStorable(entries) && forall i :: 0 <= i < |entries| ==> EntryOk(entries[i])
    ensures AllOneLine(EntryLines(entries))
  {
    hide WriteValue, Storable;
    if entries != [] {
      EntryLinesAreOneLine(entries[1..]);
      WrittenIsOneLine(entries[0].value);
    }
  }

  lemma {:induction false} SavedIsOneLine(store: Store)
    requires StoreOk(store) && AllStorable(store)
    ensures AllOneLine(SaveLines(store))
  {
    hide ValuesStorable, EntryOk, EntryLines;
    if store != [] {
      SavedIsOneLine(store[1..]);
      var s := store[0];
      assert SectionOk(s);
      EntryLinesAreOneLine(s.entries);
      assert AllOneLine(HeaderLines(s.name)) && AllOneLine(GapLines(store));
      JoinedLines(HeaderLines(s.name), EntryLines(s.entries));
      JoinedLines(SectionLines(s), GapLines(store));
      JoinedLines(SectionLines(s) + GapLines(store), SaveLines(store[1..]));
      SavedLines(store);
    }
  }

  lemma OkIsLoadable(store: Store)
    requires StoreOk(store) && StorableStore(store)
    ensures AllLoadable(store)
  {
    hide Distinct, Solid, Storable;
    forall i | 0 <= i < |store|
      ensures Loadable(store[i])
    {
      var s := store[i];
      assert SectionOk(s) && ValuesStorable(s.entries);
      forall j | 0 <= j < |s.entries|
        ensures KeyOk(s.entries[j].key) && Solid(WriteValue(s.entries[j].value))
      {
        assert EntryOk(s.entries[j]);
        WrittenIsSolid(s.entries[j].value);
      }
    }
  }

  // The round trip

  lemma LoadOfSaved(store: Store, reals: Reals)
    requires StoreOk(store) && StorableStore(store)
    ensures LoadText(SaveText(store), reals) == LoadLines(Progress([], ""), SaveLines(store), reals).store
  {
    SavedIsOneLine(store);
    LinesOfPrinted(SaveLines(store));
  }

  lemma EntriesSurvive(entries: seq<Entry>, reals: Reals)
    requires ValuesStorable(entries)
    ensures RereadEntries(entries, reals) == entries <==>
            forall j :: 0 <= j < |entries| ==> Survives(entries[j].value, reals)
  {
    hide Survives, Storable, ReadValue, WriteValue;
    var r := RereadEntries(entries, reals);
    forall j | 0 <= j < |entries|
      ensures r[j] == entries[j] <==> Survives(entries[j].value, reals)
    {
      ValueRoundTrip(entries[j].value, reals);
    }
  }

  lemma RereadIsSame(store: Store, reals: Reals)
    requires AllStorable(store)
    ensures RereadStore(store, reals) == store <==> AllSurvive(store, reals)
  {
    hide Survives, Storable, RereadEntries;
    var r := RereadStore(store, reals);
    forall i | 0 <= i < |store|
      ensures r[i] == store[i] <==>
              forall j :: 0 <= j < |store[i].entries| ==> Survives(store[i].entries[j].value, reals)
    {
      assert ValuesStorable(store[i].entries);
      EntriesSurvive(store[i].entries, reals);
    }
    if r == store {
      forall i, j | 0 <= i < |store| && 0 <= j < |store[i].entries|
        ensures Survives(store[i].entries[j].value, reals)
      {
        assert r[i] == store[i];
      }
    }
  }

  lemma NamesOfAll(store: Store)
    requires IsStore(store)
    ensures Distinct(Names([]) + Names(store))
  {
    hide Distinct;
    assert Names([]) + Names(store) == Names(store);
  }

  lemma LoadOfUnnamedFirst(store: Store, reals: Reals)
    requires StoreOk(store) && StorableStore(store) && UnnamedOk(store)
    ensures LoadText(SaveText(store), reals) == RereadStore(store, reals)
  {
    hide LoadText, SaveText, IsStore, StoreOk, AllStorable, AllLoadable, LoadLines, SaveLines, RereadStore, Distinct;
    LoadOfSaved(store, reals);
    OkIsLoadable(store);
    NamesOfAll(store);
    LoadSections([], "", store, reals);
    Regrouped([], [], RereadStore(store, reals));
  }

  lemma LoadLosesUnnamed(store: Store, reals: Reals)
    requires StoreOk(store) && StorableStore(store) && !UnnamedOk(store)
    ensures LoadText(SaveText(store), reals) != store
  {
    hide LoadText, SaveText, StoreOk, AllStorable, AllLoadable, LoadLines, SaveLines;
    LoadOfSaved(store, reals);
    OkIsLoadable(store);
    var i :| 0 <= i < |store| && store[i].name == "" && !(i == 0 && store[i].entries != []);
    assert Names(store)[i] == "";
    if i > 0 { assert Names(store)[0] != Names(store)[i]; }
    SectionsStayNamed(Progress([], ""), store, reals);
  }

  /** A store comes back exactly when its names and keys print as single trimmed lines, unnamed entries come
      first, no string has an unguarded comment character, and every double has a point or an exponent, or is out of
      64 bits, and prints the same after `strtod`. */
  lemma LoadRestoresExactlySaveableStores(store: Store, reals: Reals)
    requires StorableStore(store)
    ensures LoadText(SaveText(store), reals) == store <==> Saveable(store, reals)
  {
    hide LoadText, SaveText, StoreOk, UnnamedOk, AllSurvive, AllStorable;
    LoadedIsOk(SaveText(store), reals);
    if StoreOk(store) {
      if UnnamedOk(store) {
        LoadOfUnnamedFirst(store, reals);
        RereadIsSame(store, reals);
      } else {
        LoadLosesUnnamed(store, reals);
      }
    }
  }
}
