/** The stores that can come about: by loading any text, or by any changes through the setters. */
module IniReached {
  import opened IniText
  import opened IniValue
  import opened IniStore
  import opened IniFile
  import opened IniRoundTrip

  // Every operation keeps stored values storable

  lemma EnsuredKeepsStorable(store: Store, name: string)
    requires AllStorable(store)
    ensures AllStorable(Ensured(store, name))
  {
    hide Storable;
  }

  lemma PutKeepsStorable(entries: seq<Entry>, key: string, value: Value)
    requires ValuesStorable(entries) && Storable(value)
    ensures ValuesStorable(Put(entries, key, value))
  {
    hide Storable;
  }

  lemma ReplacedKeepsStorable(store: Store, i: nat, entries: seq<Entry>)
    requires AllStorable(store) && i < |store| && ValuesStorable(entries)
    ensures AllStorable(store[i := Named(store[i].name, entries)])
  {
    hide ValuesStorable;
  }

  lemma PutInKeepsStorable(store: Store, name: string, key: string, value: Value)
    requires AllStorable(store) && Storable(value)
    ensures AllStorable(PutIn(store, name, key, value))
  {
    hide Storable, ValuesStorable, Put, Find, Ensured;
    EnsuredKeepsStorable(store, name);
    var s := Ensured(store, name);
    var i := Find(Names(s), name);
    if i < |s| {
      PutKeepsStorable(s[i].entries, key, value);
      ReplacedKeepsStorable(s, i, Put(s[i].entries, key, value));
    }
  }

  lemma RemoveInKeepsStorable(store: Store, name: string, key: string)
    requires AllStorable(store)
    ensures AllStorable(RemoveIn(store, name, key))
  {
    hide Storable, Find;
    var i := Find(Names(store), name);
    if i < |store| {
      var j := Find(Keys(store[i].entries), key);
      if j < |store[i].entries| {
        assert ValuesStorable(store[i].entries);
        ReplacedKeepsStorable(store, i, Without(store[i].entries, j));
      }
    }
  }

  lemma RemoveNamedKeepsStorable(store: Store, name: string)
    requires AllStorable(store)
    ensures AllStorable(RemoveNamed(store, name))
  {
    hide ValuesStorable, Find;
  }

  /** The values that a change brings in come from the setters. */
  ghost predicate FromSetters(c: Change) {
    c.Upsert? ==> Storable(c.value)
  }

  lemma ApplyKeepsStorable(store: Store, c: Change)
    requires AllStorable(store) && FromSetters(c)
    ensures AllStorable(Apply(store, c))
  {
    hide AllStorable, Storable, PutIn, RemoveIn, RemoveNamed;
    match c
    case Upsert(n, k, v) => PutInKeepsStorable(store, n, k, v);
    case Remove(n, k) => RemoveInKeepsStorable(store, n, k);
    case RemoveSection(n) => RemoveNamedKeepsStorable(store, n);
  }

  lemma {:induction false} ChangesKeepStorable(store: Store, cs: seq<Change>)
    requires AllStorable(store) && forall i :: 0 <= i < |cs| ==> FromSetters(cs[i])
    ensures AllStorable(ApplyAll(store, cs))
    decreases |cs|
  {
    hide AllStorable, Apply, FromSetters;
    if cs != [] {
      ApplyKeepsStorable(store, cs[0]);
      ChangesKeepStorable(Apply(store, cs[0]), cs[1..]);
    }
  }

  // Loading is a sequence of the same operations

  /** A store with its plain map of maps, which exists only when no name and no key is there twice. */
  ghost predicate Sound(store: Store) {
    StorableStore(store) && exists p :: Matches(store, p)
  }

  lemma EmptyIsSound()
    ensures Sound([])
  {
    assert Matches([], map[]);
  }

  lemma EnsuredIsSound(store: Store, name: string)
    requires Sound(store)
    ensures Sound(Ensured(store, name))
  {
    hide IsStore, AllStorable, Matches, Ensured;
    var p :| Matches(store, p);
    EnsuredMatches(store, p, name);
    EnsuredKeepsStorable(store, name);
  }

  lemma PutInIsSound(store: Store, name: string, key: string, value: Value)
    requires Sound(store) && Storable(value)
    ensures Sound(PutIn(store, name, key, value))
  {
    hide IsStore, AllStorable, Matches, PutIn, Storable;
    var p :| Matches(store, p);
    UpsertMatches(store, p, name, key, value);
    PutInKeepsStorable(store, name, key, value);
  }

  lemma LoadLineIsSound(p: Progress, line: string, reals: Reals)
    requires Sound(p.store)
    ensures Sound(LoadLine(p, line, reals).store)
  {
    hide Sound, Trim, ReadValue, PutIn, Ensured, Storable;
    forall name ensures Sound(Ensured(p.store, name)) {
      EnsuredIsSound(p.store, name);
    }
    forall raw: string, key ensures Sound(PutIn(p.store, p.current, key, ReadValue(raw, reals))) {
      ReadIsStorable(raw, reals);
      PutInIsSound(p.store, p.current, key, ReadValue(raw, reals));
    }
  }

  lemma {:induction false} LoadLinesIsSound(p: Progress, lines: seq<string>, reals: Reals)
    requires Sound(p.store)
    ensures Sound(LoadLines(p, lines, reals).store)
    decreases |lines|
  {
    hide Sound, LoadLine;
    if lines != [] {
      LoadLineIsSound(p, lines[0], reals);
      LoadLinesIsSound(LoadLine(p, lines[0], reals), lines[1..], reals);
    }
  }

  /** Every text, however malformed, loads into a store without repeated names or keys and with values as the
      setters make them. */
  lemma LoadedIsStorable(text: string, reals: Reals)
    ensures StorableStore(LoadText(text, reals))
  {
    hide LoadLines, AllStorable, IsStore;
    EmptyIsSound();
    LoadLinesIsSound(Progress([], ""), Lines(text), reals);
  }

  /** So does every sequence of upserts, removals and section removals on an empty store. */
  lemma ReachedIsStorable(cs: seq<Change>)
    requires forall i :: 0 <= i < |cs| ==> FromSetters(cs[i])
    ensures StorableStore(ApplyAll([], cs))
  {
    hide FromSetters, Apply;
    AllMatch([], map[], cs);
    ChangesKeepStorable([], cs);
  }

  /** What was loaded, saved and loaded again is unchanged exactly when its unnamed entries come first and its
      values survive; its names and keys always do. */
  lemma LoadedStoreComesBackExactlyWhen(text: string, reals: Reals)
    ensures var l := LoadText(text, reals);
            LoadText(SaveText(l), reals) == l <==> UnnamedOk(l) && AllSurvive(l, reals)
  {
    hide LoadText, SaveText, StoreOk, UnnamedOk, AllSurvive, StorableStore;
    LoadedIsStorable(text, reals);
    LoadedIsOk(text, reals);
    LoadRestoresExactlySaveableStores(LoadText(text, reals), reals);
  }

  /** The same for every store built by the setters. */
  lemma ReachedStoreComesBackExactlyWhen(cs: seq<Change>, reals: Reals)
    requires forall i :: 0 <= i < |cs| ==> FromSetters(cs[i])
    ensures var s := ApplyAll([], cs);
            LoadText(SaveText(s), reals) == s <==> Saveable(s, reals)
  {
    hide LoadText, SaveText, Saveable, StorableStore, FromSetters, ApplyAll;
    ReachedIsStorable(cs);
    LoadRestoresExactlySaveableStores(ApplyAll([], cs), reals);
  }

  /** Saving one parser and loading the file into another copies it exactly when it is saveable. */
  method CopyThroughFile(store: IniParser, reals: Reals) returns (copy: IniParser)
    requires store.Valid() && AllStorable(store.View())
    ensures fresh(copy) && copy.Valid()
    ensures copy.View() == store.View() <==> Saveable(store.View(), reals)
  {
    hide AllAgree, ViewOf, AllStorable, IsStore, Saveable, SaveText, LoadText;
    AgreeingIsStore(store.sections, store.secIndex);
    LoadRestoresExactlySaveableStores(store.View(), reals);
    var _, file := Save(store, true);
    copy := new IniParser();
    var _ := Load(copy, file, reals);
  }
}
