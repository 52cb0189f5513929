/** The INI store: ordered sections of ordered entries, with an index on each level. */
module IniStore {
  import opened Common
  import opened IniValue

  datatype Entry = Entry(key: string, value: Value)

  /** A section as a reader of the store sees it. */
  datatype Named = Named(name: string, entries: seq<Entry>)

  type Store = seq<Named>

  function Keys(entries: seq<Entry>): (keys: seq<string>)
    ensures |keys| == |entries|
    ensures forall i :: 0 <= i < |entries| ==> keys[i] == entries[i].key
  {
    seq(|entries|, i requires 0 <= i < |entries| => entries[i].key)
  }

  function Names(store: Store): (names: seq<string>)
    ensures |names| == |store|
    ensures forall i :: 0 <= i < |store| ==> names[i] == store[i].name
  {
    seq(|store|, i requires 0 <= i < |store| => store[i].name)
  }

  /** The first position of `x`, or the length of the list. */
  function Find(xs: seq<string>, x: string): (i: nat)
    ensures i <= |xs|
    ensures i < |xs| ==> xs[i] == x
    ensures forall j :: 0 <= j < i ==> xs[j] != x
  {
    if xs == [] || xs[0] == x then 0 else 1 + Find(xs[1..], x)
  }

  ghost predicate Distinct(xs: seq<string>) {
    forall i, j :: 0 <= i < j < |xs| ==> xs[i] != xs[j]
  }

  // The operations on ordered lists

  function Put(entries: seq<Entry>, key: string, value: Value): seq<Entry> {
    var i := Find(Keys(entries), key);
    if i < |entries| then entries[i := Entry(key, value)] else entries + [Entry(key, value)]
  }

  function Ensured(store: Store, name: string): Store {
    if Find(Names(store), name) < |store| then store else store + [Named(name, [])]
  }

  function PutIn(store: Store, name: string, key: string, value: Value): Store {
    var s := Ensured(store, name);
    var i := Find(Names(s), name);
    if i < |s| then s[i := Named(name, Put(s[i].entries, key, value))] else s
  }

  function Without<T>(xs: seq<T>, i: nat): seq<T>
    requires i < |xs|
  {
    xs[..i] + xs[i + 1..]
  }

  function RemoveIn(store: Store, name: string, key: string): Store {
    var i := Find(Names(store), name);
    if i == |store| then store
    else
      var j := Find(Keys(store[i].entries), key);
      if j == |store[i].entries| then store
      else store[i := Named(name, Without(store[i].entries, j))]
  }

  function RemoveNamed(store: Store, name: string): Store {
    var i := Find(Names(store), name);
    if i == |store| then store else Without(store, i)
  }

  function Lookup(store: Store, name: string, key: string): Option<Value> {
    var i := Find(Names(store), name);
    if i == |store| then None
    else
      var j := Find(Keys(store[i].entries), key);
      if j == |store[i].entries| then None else Some(store[i].entries[j].value)
  }

  ghost predicate IsStore(store: Store) {
    Distinct(Names(store)) && forall i :: 0 <= i < |store| ==> Distinct(Keys(store[i].entries))
  }

  // The indexes

  /** The index holds every name at its position, and nothing else. */
  ghost predicate Agree(names: seq<string>, index: map<string, nat>) {
    && (forall i :: 0 <= i < |names| ==> names[i] in index && index[names[i]] == i)
    && (forall n :: n in index ==> index[n] < |names| && names[index[n]] == n)
  }

  lemma AgreeFinds(names: seq<string>, index: map<string, nat>, n: string)
    requires Agree(names, index)
    ensures n in index <==> Find(names, n) < |names|
    ensures n in index ==> index[n] == Find(names, n)
    ensures Distinct(names)
  {
    forall i, j | 0 <= i < j < |names|
      ensures names[i] != names[j]
    {
      assert index[names[i]] == i;
    }
    if n in index { assert names[index[n]] == n; }
  }

  lemma AgreeAppended(names: seq<string>, index: map<string, nat>, n: string)
    requires Agree(names, index) && n !in index
    ensures Agree(names + [n], index[n := |names|])
  {}

  /** What is left to repair after one name is taken out of the list and the index. */
  ghost predicate Repaired(names: seq<string>, index: map<string, nat>, i: nat)
    requires i <= |names|
  {
    && Distinct(names)
    && (forall j :: 0 <= j < |names| ==> names[j] in index)
    && (forall n :: n in index ==> n in names)
    && (forall j :: 0 <= j < i ==> index[names[j]] == j)
  }

  lemma RepairStarts(names: seq<string>, index: map<string, nat>, i: nat)
    requires Agree(names, index) && i < |names|
    ensures Repaired(Without(names, i), index - {names[i]}, 0)
  {
    hide Distinct, Without;
    AgreeFinds(names, index, names[i]);
    RemoveKeepsRest(names, i);
    var rest := Without(names, i);
    forall j | 0 <= j < |rest|
      ensures rest[j] in index && rest[j] != names[i]
    {
      assert rest[j] in rest;
      var k :| 0 <= k < |names| && names[k] == rest[j];
    }
    forall n | n in index
      ensures n in names
    {
      assert names[index[n]] == n;
    }
  }

  lemma RepairEnds(names: seq<string>, index: map<string, nat>)
    requires Repaired(names, index, |names|)
    ensures Agree(names, index)
  {
    forall n | n in index
      ensures index[n] < |names| && names[index[n]] == n
    {
      var j :| 0 <= j < |names| && names[j] == n;
    }
  }

  /** The loop that recomputes an index after a removal. */
  method Reindex(names: seq<string>, index: map<string, nat>) returns (index': map<string, nat>)
    requires Repaired(names, index, 0)
    ensures Agree(names, index')
  {
    index' := index;
    for i := 0 to |names|
      invariant Repaired(names, index', i)
    {
      index' := index'[names[i] := i];
    }
    RepairEnds(names, index');
  }

  // The class

  datatype Section = Section(entries: seq<Entry>, index: map<string, nat>)

  type Sections = seq<(string, Section)>

  function NamesOf(sections: Sections): (names: seq<string>)
    ensures |names| == |sections|
    ensures forall i :: 0 <= i < |sections| ==> names[i] == sections[i].0
  {
    seq(|sections|, i requires 0 <= i < |sections| => sections[i].0)
  }

  function ViewOf(sections: Sections): (store: Store)
    ensures |store| == |sections|
    ensures forall i :: 0 <= i < |sections| ==> store[i] == Named(sections[i].0, sections[i].1.entries)
  {
    seq(|sections|, i requires 0 <= i < |sections| => Named(sections[i].0, sections[i].1.entries))
  }

  ghost predicate SectionAgrees(s: Section) {
    Agree(Keys(s.entries), s.index)
  }

  ghost predicate AllAgree(sections: Sections, secIndex: map<string, nat>) {
    && Agree(NamesOf(sections), secIndex)
    && forall i :: 0 <= i < |sections| ==> SectionAgrees(sections[i].1)
  }

  lemma ViewNames(sections: Sections)
    ensures Names(ViewOf(sections)) == NamesOf(sections)
  {}

  lemma AgreeingIsStore(sections: Sections, secIndex: map<string, nat>)
    requires AllAgree(sections, secIndex)
    ensures IsStore(ViewOf(sections))
  {
    hide Distinct, Agree;
    ViewNames(sections);
    AgreeFinds(NamesOf(sections), secIndex, "");
    forall i | 0 <= i < |sections|
      ensures Distinct(Keys(ViewOf(sections)[i].entries))
    {
      assert SectionAgrees(sections[i].1);
      AgreeFinds(Keys(sections[i].1.entries), sections[i].1.index, "");
    }
  }

  lemma SectionFound(sections: Sections, secIndex: map<string, nat>, name: string)
    requires AllAgree(sections, secIndex)
    ensures name in secIndex <==> Find(Names(ViewOf(sections)), name) < |sections|
    ensures name in secIndex ==> secIndex[name] == Find(Names(ViewOf(sections)), name)
    ensures name in secIndex ==> secIndex[name] < |sections| && sections[secIndex[name]].0 == name
    ensures name in secIndex ==> SectionAgrees(sections[secIndex[name]].1)
  {
    ViewNames(sections);
    AgreeFinds(NamesOf(sections), secIndex, name);
  }

  lemma SectionAppended(sections: Sections, secIndex: map<string, nat>, name: string)
    requires AllAgree(sections, secIndex) && name !in secIndex
    ensures AllAgree(sections + [(name, Section([], map[]))], secIndex[name := |sections|])
    ensures ViewOf(sections + [(name, Section([], map[]))]) == Ensured(ViewOf(sections), name)
  {
    hide Agree;
    SectionFound(sections, secIndex, name);
    var sections' := sections + [(name, Section([], map[]))];
    AgreeAppended(NamesOf(sections), secIndex, name);
    assert NamesOf(sections') == NamesOf(sections) + [name];
    EmptyAgrees();
  }

  lemma EmptyAgrees()
    ensures SectionAgrees(Section([], map[]))
  {}

  lemma SectionReplaced(sections: Sections, secIndex: map<string, nat>, i: nat, sec: Section)
    requires AllAgree(sections, secIndex) && i < |sections| && SectionAgrees(sec)
    ensures var sections' := sections[i := (sections[i].0, sec)];
            && AllAgree(sections', secIndex)
            && ViewOf(sections') == ViewOf(sections)[i := Named(sections[i].0, sec.entries)]
  {
    hide Agree, SectionAgrees;
    assert NamesOf(sections[i := (sections[i].0, sec)]) == NamesOf(sections);
  }

  lemma SectionRemoved(sections: Sections, secIndex: map<string, nat>, i: nat)
    requires AllAgree(sections, secIndex) && i < |sections|
    ensures NamesOf(Without(sections, i)) == Without(NamesOf(sections), i)
    ensures ViewOf(Without(sections, i)) == Without(ViewOf(sections), i)
    ensures Repaired(NamesOf(Without(sections, i)), secIndex - {sections[i].0}, 0)
    ensures forall j :: 0 <= j < |sections| - 1 ==> SectionAgrees(Without(sections, i)[j].1)
  {
    hide Agree, SectionAgrees, Repaired;
    RepairStarts(NamesOf(sections), secIndex, i);
    assert NamesOf(Without(sections, i)) == Without(NamesOf(sections), i);
    assert ViewOf(Without(sections, i)) == Without(ViewOf(sections), i);
    forall j | 0 <= j < |sections| - 1
      ensures SectionAgrees(Without(sections, i)[j].1)
    {
      assert Without(sections, i)[j] == sections[if j < i then j else j + 1];
    }
  }

  /** The entry update of `upsert_string` and `upsert_numeric`. */
  method UpsertEntry(sec: Section, key: string, value: Value) returns (sec': Section)
    requires SectionAgrees(sec)
    ensures SectionAgrees(sec') && sec'.entries == Put(sec.entries, key, value)
  {
    hide Agree;
    AgreeFinds(Keys(sec.entries), sec.index, key);
    if key in sec.index {
      sec' := Section(sec.entries[sec.index[key] := Entry(key, value)], sec.index);
      assert Keys(sec'.entries) == Keys(sec.entries);
    } else {
      AgreeAppended(Keys(sec.entries), sec.index, key);
      sec' := Section(sec.entries + [Entry(key, value)], sec.index[key := |sec.entries|]);
      assert Keys(sec'.entries) == Keys(sec.entries) + [key];
    }
  }

  method RemoveEntry(sec: Section, key: string) returns (sec': Section)
    requires SectionAgrees(sec) && key in sec.index
    ensures SectionAgrees(sec')
    ensures var j := Find(Keys(sec.entries), key); j < |sec.entries| && sec'.entries == Without(sec.entries, j)
  {
    hide Agree, Repaired;
    AgreeFinds(Keys(sec.entries), sec.index, key);
    var j := sec.index[key];
    RepairStarts(Keys(sec.entries), sec.index, j);
    var entries := sec.entries[..j] + sec.entries[j + 1..];
    assert Keys(entries) == Without(Keys(sec.entries), j);
    var index := Reindex(Keys(entries), sec.index - {key});
    sec' := Section(entries, index);
  }

  class IniParser {
    var sections: Sections
    var secIndex: map<string, nat>

    ghost function View(): Store
      reads this
    {
      ViewOf(sections)
    }

    ghost predicate Valid()
      reads this
    {
      AllAgree(sections, secIndex)
    }

    constructor ()
      ensures Valid() && View() == []
    {
      sections := [];
      secIndex := map[];
    }

    /** The position of the section, after adding it at the end when it is missing. */
    method EnsureSection(name: string) returns (i: nat)
      requires Valid()
      modifies this
      ensures Valid() && View() == Ensured(old(View()), name)
      ensures i < |sections| && i == Find(Names(View()), name) && sections[i].0 == name
      ensures SectionAgrees(sections[i].1)
    {
      hide AllAgree, SectionAgrees, Agree;
      SectionFound(sections, secIndex, name);
      if name in secIndex { return secIndex[name]; }
      i := |sections|;
      SectionAppended(sections, secIndex, name);
      sections := sections + [(name, Section([], map[]))];
      secIndex := secIndex[name := i];
      SectionFound(sections, secIndex, name);
    }

    /** `upsert_string` and `upsert_numeric`. */
    method Upsert(name: string, key: string, value: Value)
      requires Valid()
      modifies this
      ensures Valid() && View() == PutIn(old(View()), name, key, value)
    {
      hide AllAgree, SectionAgrees, Ensured, Put;
      var i := EnsureSection(name);
      var sec := UpsertEntry(sections[i].1, key, value);
      SectionReplaced(sections, secIndex, i, sec);
      sections := sections[i := (name, sec)];
    }

    method Remove(name: string, key: string) returns (removed: bool)
      requires Valid()
      modifies this
      ensures Valid() && View() == RemoveIn(old(View()), name, key)
      ensures removed <==> old(Lookup(View(), name, key)).Some?
    {
      hide AllAgree, Agree, Without;
      SectionFound(sections, secIndex, name);
      if name !in secIndex { return false; }
      var i := secIndex[name];
      var sec := sections[i].1;
      AgreeFinds(Keys(sec.entries), sec.index, key);
      if key !in sec.index { return false; }
      var sec' := RemoveEntry(sec, key);
      SectionReplaced(sections, secIndex, i, sec');
      sections := sections[i := (name, sec')];
      return true;
    }

    method RemoveSection(name: string) returns (removed: bool)
      requires Valid()
      modifies this
      ensures Valid() && View() == RemoveNamed(old(View()), name)
      ensures removed <==> name in old(Names(View()))
    {
      hide Agree, Repaired, SectionAgrees;
      SectionFound(sections, secIndex, name);
      FindMissing(Names(View()), name);
      if name !in secIndex { return false; }
      var i := secIndex[name];
      SectionRemoved(sections, secIndex, i);
      var index := Reindex(NamesOf(Without(sections, i)), secIndex - {name});
      sections := sections[..i] + sections[i + 1..];
      secIndex := index;
      return true;
    }

    method Get(name: string, key: string) returns (r: Option<Value>)
      requires Valid()
      ensures r == Lookup(View(), name, key)
    {
      hide AllAgree, Agree;
      SectionFound(sections, secIndex, name);
      if name !in secIndex { return None; }
      var sec := sections[secIndex[name]].1;
      AgreeFinds(Keys(sec.entries), sec.index, key);
      if key !in sec.index { return None; }
      return Some(sec.entries[sec.index[key]].value);
    }
  }

  // A plain map of maps

  type Plain = map<string, map<string, Value>>

  ghost predicate EntriesMatch(entries: seq<Entry>, m: map<string, Value>) {
    && (forall k :: k in m <==> k in Keys(entries))
    && (forall i :: 0 <= i < |entries| ==> m[entries[i].key] == entries[i].value)
  }

  ghost predicate Matches(store: Store, p: Plain) {
    && (forall n :: n in p <==> n in Names(store))
    && (forall i :: 0 <= i < |store| ==> EntriesMatch(store[i].entries, p[store[i].name]))
  }

  datatype Change =
    | Upsert(name: string, key: string, value: Value)
    | Remove(name: string, key: string)
    | RemoveSection(name: string)

  function Apply(store: Store, c: Change): Store {
    match c
    case Upsert(n, k, v) => PutIn(store, n, k, v)
    case Remove(n, k) => RemoveIn(store, n, k)
    case RemoveSection(n) => RemoveNamed(store, n)
  }

  function ApplyPlain(p: Plain, c: Change): Plain {
    match c
    case Upsert(n, k, v) => p[n := (if n in p then p[n] else map[])[k := v]]
    case Remove(n, k) => if n in p then p[n := p[n] - {k}] else p
    case RemoveSection(n) => p - {n}
  }

  function ApplyAll(store: Store, cs: seq<Change>): Store
    decreases |cs|
  {
    if cs == [] then store else ApplyAll(Apply(store, cs[0]), cs[1..])
  }

  function ApplyAllPlain(p: Plain, cs: seq<Change>): Plain
    decreases |cs|
  {
    if cs == [] then p else ApplyAllPlain(ApplyPlain(p, cs[0]), cs[1..])
  }

  lemma FindIs(xs: seq<string>, x: string, i: nat)
    requires i < |xs| && xs[i] == x && Distinct(xs)
    ensures Find(xs, x) == i
  {}

  lemma FindMissing(xs: seq<string>, x: string)
    ensures x in xs <==> Find(xs, x) < |xs|
  {}

  lemma PutMatches(entries: seq<Entry>, m: map<string, Value>, key: string, value: Value)
    requires Distinct(Keys(entries)) && EntriesMatch(entries, m)
    ensures Distinct(Keys(Put(entries, key, value))) && EntriesMatch(Put(entries, key, value), m[key := value])
    ensures Keys(Put(entries, key, value)) == if key in Keys(entries) then Keys(entries) else Keys(entries) + [key]
  {
    var i := Find(Keys(entries), key);
    FindMissing(Keys(entries), key);
    var entries' := Put(entries, key, value);
    if i < |entries| {
      assert Keys(entries') == Keys(entries);
    } else {
      assert Keys(entries') == Keys(entries) + [key];
    }
  }

  lemma RemoveKeepsRest(xs: seq<string>, i: nat)
    requires i < |xs| && Distinct(xs)
    ensures Distinct(Without(xs, i))
    ensures forall x :: x in Without(xs, i) <==> x in xs && x != xs[i]
  {
    var rest := Without(xs, i);
    forall x | x in xs && x != xs[i]
      ensures x in rest
    {
      var j :| 0 <= j < |xs| && xs[j] == x;
      assert rest[if j < i then j else j - 1] == x;
    }
  }

  lemma EntryRemovalMatches(entries: seq<Entry>, m: map<string, Value>, j: nat)
    requires Distinct(Keys(entries)) && EntriesMatch(entries, m) && j < |entries|
    ensures Distinct(Keys(Without(entries, j))) && EntriesMatch(Without(entries, j), m - {entries[j].key})
  {
    var rest := Without(entries, j);
    assert Keys(rest) == Without(Keys(entries), j);
    RemoveKeepsRest(Keys(entries), j);
    forall i | 0 <= i < |rest|
      ensures rest[i].key in m && m[rest[i].key] == rest[i].value
    {
      assert rest[i] == entries[if i < j then i else i + 1];
    }
  }

  lemma EnsuredMatches(store: Store, p: Plain, name: string)
    requires IsStore(store) && Matches(store, p)
    ensures IsStore(Ensured(store, name))
    ensures Matches(Ensured(store, name), if name in p then p else p[name := map[]])
  {
    hide EntriesMatch, Find, Distinct;
    FindMissing(Names(store), name);
    EmptyMatches();
    if name !in p {
      var s := Ensured(store, name);
      assert Names(s) == Names(store) + [name];
      DistinctAppended(Names(store), name);
      forall i | 0 <= i < |s|
        ensures Distinct(Keys(s[i].entries)) && EntriesMatch(s[i].entries, p[name := map[]][s[i].name])
      {
        if i < |store| {
          assert store[i].name in p;
        }
      }
    }
  }

  lemma EmptyMatches()
    ensures EntriesMatch([], map[]) && Distinct(Keys([]))
  {}

  lemma DistinctAppended(xs: seq<string>, x: string)
    requires Distinct(xs) && x !in xs
    ensures Distinct(xs + [x])
  {}

  /** One section is replaced by another of the same name. */
  lemma ReplacedMatches(store: Store, p: Plain, i: nat, entries: seq<Entry>, m: map<string, Value>)
    requires IsStore(store) && Matches(store, p) && i < |store|
    requires Distinct(Keys(entries)) && EntriesMatch(entries, m)
    ensures IsStore(store[i := Named(store[i].name, entries)])
    ensures Matches(store[i := Named(store[i].name, entries)], p[store[i].name := m])
  {
    var s := store[i := Named(store[i].name, entries)];
    assert Names(s) == Names(store);
  }

  lemma UpsertMatches(store: Store, p: Plain, n: string, k: string, v: Value)
    requires IsStore(store) && Matches(store, p)
    ensures IsStore(PutIn(store, n, k, v)) && Matches(PutIn(store, n, k, v), ApplyPlain(p, Upsert(n, k, v)))
  {
    hide Put, Distinct, EntriesMatch, Find, ApplyPlain;
    EnsuredMatches(store, p, n);
    var s := Ensured(store, n);
    var q := if n in p then p else p[n := map[]];
    var i := Find(Names(s), n);
    FindMissing(Names(s), n);
    PutMatches(s[i].entries, q[n], k, v);
    ReplacedMatches(s, q, i, Put(s[i].entries, k, v), q[n][k := v]);
    PlainUpsert(p, n, k, v);
  }

  lemma PlainUpsert(p: Plain, n: string, k: string, v: Value)
    ensures var q := if n in p then p else p[n := map[]];
            q[n := q[n][k := v]] == ApplyPlain(p, Upsert(n, k, v))
  {}

  lemma RemoveMatches(store: Store, p: Plain, n: string, k: string)
    requires IsStore(store) && Matches(store, p)
    ensures IsStore(RemoveIn(store, n, k)) && Matches(RemoveIn(store, n, k), ApplyPlain(p, Remove(n, k)))
  {
    hide Distinct;
    var i := Find(Names(store), n);
    FindMissing(Names(store), n);
    if i < |store| {
      var j := Find(Keys(store[i].entries), k);
      FindMissing(Keys(store[i].entries), k);
      if j == |store[i].entries| {
        assert p[n] - {k} == p[n];
        assert p[n := p[n]] == p;
      } else {
        EntryRemovalMatches(store[i].entries, p[n], j);
        ReplacedMatches(store, p, i, Without(store[i].entries, j), p[n] - {k});
      }
    }
  }

  lemma RemovedFrom(store: Store, i: nat, j: nat)
    requires i < |store| && j < |store| - 1
    ensures Without(store, i)[j] in store && Names(Without(store, i)) == Without(Names(store), i)
  {
    assert Without(store, i)[j] == store[if j < i then j else j + 1];
  }

  lemma SectionMatches(store: Store, p: Plain, s: Named)
    requires IsStore(store) && Matches(store, p) && s in store
    ensures Distinct(Keys(s.entries)) && s.name in p && EntriesMatch(s.entries, p[s.name])
  {
    hide Distinct, EntriesMatch;
    var i :| 0 <= i < |store| && store[i] == s;
    assert Names(store)[i] == s.name;
  }

  lemma NameMatches(store: Store, p: Plain, n: string)
    requires Matches(store, p)
    ensures n in p <==> Find(Names(store), n) < |store|
  {
    hide EntriesMatch;
    FindMissing(Names(store), n);
  }

  lemma RemoveSectionMatches(store: Store, p: Plain, n: string)
    requires IsStore(store) && Matches(store, p)
    ensures IsStore(RemoveNamed(store, n)) && Matches(RemoveNamed(store, n), ApplyPlain(p, RemoveSection(n)))
  {
    hide Matches, IsStore, Find, Without;
    NameMatches(store, p, n);
    var i := Find(Names(store), n);
    if i == |store| {
      assert p - {n} == p;
    } else {
      StoreIsDistinct(store);
      assert Names(Without(store, i)) == Without(Names(store), i) by { NamesWithout(store, i); }
      RemoveKeepsRest(Names(store), i);
      RestMatches(store, p, i);
    }
  }

  lemma StoreIsDistinct(store: Store)
    requires IsStore(store)
    ensures Distinct(Names(store))
  {}

  lemma NamesWithout(store: Store, i: nat)
    requires i < |store|
    ensures Names(Without(store, i)) == Without(Names(store), i)
  {}

  lemma RestMatches(store: Store, p: Plain, i: nat)
    requires IsStore(store) && Matches(store, p) && i < |store|
    requires Names(Without(store, i)) == Without(Names(store), i) && Distinct(Without(Names(store), i))
    requires forall x :: x in Without(Names(store), i) <==> x in Names(store) && x != Names(store)[i]
    ensures IsStore(Without(store, i)) && Matches(Without(store, i), p - {store[i].name})
  {
    hide EntriesMatch, Distinct, Without;
    var rest := Without(store, i);
    var q := p - {store[i].name};
    WithoutLength(store, i);
    forall j | 0 <= j < |rest|
      ensures Distinct(Keys(rest[j].entries)) && rest[j].name in q && EntriesMatch(rest[j].entries, q[rest[j].name])
    {
      RemovedFrom(store, i, j);
      SectionMatches(store, p, rest[j]);
      assert Names(rest)[j] == rest[j].name;
    }
  }

  lemma WithoutLength(store: Store, i: nat)
    requires i < |store|
    ensures |Without(store, i)| == |store| - 1
  {}

  lemma ApplyMatches(store: Store, p: Plain, c: Change)
    requires IsStore(store) && Matches(store, p)
    ensures IsStore(Apply(store, c)) && Matches(Apply(store, c), ApplyPlain(p, c))
  {
    hide Matches, IsStore;
    match c
    case Upsert(n, k, v) => UpsertMatches(store, p, n, k, v);
    case Remove(n, k) => RemoveMatches(store, p, n, k);
    case RemoveSection(n) => RemoveSectionMatches(store, p, n);
  }

  lemma {:induction false} AllMatch(store: Store, p: Plain, cs: seq<Change>)
    requires IsStore(store) && Matches(store, p)
    ensures IsStore(ApplyAll(store, cs)) && Matches(ApplyAll(store, cs), ApplyAllPlain(p, cs))
    decreases |cs|
  {
    hide Matches, IsStore, Apply, ApplyPlain;
    if cs != [] {
      ApplyMatches(store, p, cs[0]);
      AllMatch(Apply(store, cs[0]), ApplyPlain(p, cs[0]), cs[1..]);
    }
  }

  lemma LookupMatches(store: Store, p: Plain, n: string, k: string)
    requires IsStore(store) && Matches(store, p)
    ensures Lookup(store, n, k) == if n in p && k in p[n] then Some(p[n][k]) else None
  {
    FindMissing(Names(store), n);
    var i := Find(Names(store), n);
    if i < |store| {
      FindMissing(Keys(store[i].entries), k);
      assert EntriesMatch(store[i].entries, p[n]);
    }
  }

  /** After any changes to an empty store, lookups answer as a plain map of maps does. */
  lemma LookupsAgreeWithAPlainMap(cs: seq<Change>, n: string, k: string)
    ensures var p := ApplyAllPlain(map[], cs);
            Lookup(ApplyAll([], cs), n, k) == if n in p && k in p[n] then Some(p[n][k]) else None
    ensures n in Names(ApplyAll([], cs)) <==> n in ApplyAllPlain(map[], cs)
  {
    AllMatch([], map[], cs);
    LookupMatches(ApplyAll([], cs), ApplyAllPlain(map[], cs), n, k);
  }

  /** Keys or names without one of them, in the same order. */
  function Except(xs: seq<string>, x: string): seq<string> {
    if xs == [] then [] else (if xs[0] == x then [] else [xs[0]]) + Except(xs[1..], x)
  }

  lemma {:induction false} ExceptMissing(xs: seq<string>, x: string)
    requires x !in xs
    ensures Except(xs, x) == xs
  {
    if xs != [] { ExceptMissing(xs[1..], x); }
  }

  lemma WithoutFirst(xs: seq<string>)
    requires xs != []
    ensures Without(xs, 0) == xs[1..] && [] + xs[1..] == xs[1..]
  {}

  lemma WithoutTail(xs: seq<string>, i: nat)
    requires i + 1 < |xs|
    ensures Without(xs, i + 1) == [xs[0]] + Without(xs[1..], i)
  {}

  lemma TailIsDistinct(xs: seq<string>)
    requires Distinct(xs) && xs != []
    ensures Distinct(xs[1..]) && xs[0] !in xs[1..]
  {}

  lemma {:induction false} ExceptIsWithout(xs: seq<string>, x: string)
    requires Distinct(xs)
    ensures Except(xs, x) == if Find(xs, x) < |xs| then Without(xs, Find(xs, x)) else xs
  {
    hide Distinct, Without;
    if xs != [] {
      TailIsDistinct(xs);
      if xs[0] == x {
        ExceptMissing(xs[1..], x);
        WithoutFirst(xs);
      } else {
        ExceptIsWithout(xs[1..], x);
        var i := Find(xs[1..], x);
        if i < |xs| - 1 { WithoutTail(xs, i); }
        assert [xs[0]] + xs[1..] == xs;
      }
    }
  }

  /** The keys of a section, none when it is missing. */
  function KeysIn(store: Store, name: string): seq<string> {
    var i := Find(Names(store), name);
    if i < |store| then Keys(store[i].entries) else []
  }

  /** A new name goes to the end; a known one stays where it is. */
  function AtEnd(xs: seq<string>, x: string): seq<string> {
    if x in xs then xs else xs + [x]
  }

  /** Survivors keep their order: each change appends, deletes or leaves alone one section name and one key. */
  lemma ChangesKeepTheOrder(store: Store, c: Change, other: string)
    requires IsStore(store)
    ensures Names(Apply(store, c)) ==
            match c
            case Upsert(n, _, _) => AtEnd(Names(store), n)
            case Remove(_, _) => Names(store)
            case RemoveSection(n) => Except(Names(store), n)
    ensures KeysIn(Apply(store, c), other) ==
            match c
            case Upsert(n, k, _) => if n == other then AtEnd(KeysIn(store, n), k) else KeysIn(store, other)
            case Remove(n, k) => if n == other then Except(KeysIn(store, n), k) else KeysIn(store, other)
            case RemoveSection(n) => if n == other then [] else KeysIn(store, other)
  {
    match c
    case Upsert(n, k, v) => UpsertKeepsTheOrder(store, n, k, v, other);
    case Remove(n, k) => RemoveKeepsTheOrder(store, n, k, other);
    case RemoveSection(n) => RemoveSectionKeepsTheOrder(store, n, other);
  }

  lemma UpsertKeepsTheOrder(store: Store, n: string, k: string, v: Value, other: string)
    requires IsStore(store)
    ensures Names(PutIn(store, n, k, v)) == AtEnd(Names(store), n)
    ensures KeysIn(PutIn(store, n, k, v), other) ==
            if n == other then AtEnd(KeysIn(store, n), k) else KeysIn(store, other)
  {
    hide Put, IsStore, Find, KeysIn;
    EnsuredNames(store, n);
    var s := Ensured(store, n);
    var i := Find(Names(s), n);
    FindMissing(Names(s), n);
    PutKeys(s[i].entries, k, v);
    var t := s[i := Named(n, Put(s[i].entries, k, v))];
    assert Names(t) == Names(s);
    KeysInEnsured(store, n, other);
    KeysInReplaced(s, i, t, other);
  }

  lemma EnsuredNames(store: Store, n: string)
    ensures Names(Ensured(store, n)) == AtEnd(Names(store), n)
    ensures n in Names(Ensured(store, n))
  {
    hide Find;
    FindMissing(Names(store), n);
    assert Names(Ensured(store, n)) == AtEnd(Names(store), n);
  }

  /** Adding an empty section at the end changes no keys. */
  lemma KeysInEnsured(store: Store, n: string, other: string)
    ensures KeysIn(Ensured(store, n), other) == KeysIn(store, other)
  {
    hide Find;
    EnsuredNames(store, n);
    FindMissing(Names(store), n);
    FindMissing(Names(store), other);
    FindMissing(Names(Ensured(store, n)), other);
    if other in Names(store) {
      FindOfAppended(Names(store), Names(Ensured(store, n)), other);
    } else if other == n {
      assert Ensured(store, n)[|store|].entries == [];
    }
  }

  lemma KeysInReplaced(s: Store, i: nat, t: Store, other: string)
    requires i < |s| && |t| == |s| && Names(t) == Names(s) && i == Find(Names(s), s[i].name)
    requires forall j :: 0 <= j < |s| && j != i ==> t[j] == s[j]
    ensures KeysIn(t, other) == if other == s[i].name then Keys(t[i].entries) else KeysIn(s, other)
    ensures KeysIn(s, s[i].name) == Keys(s[i].entries)
  {
    hide Find;
    assert Names(s)[i] == s[i].name;
    if other != s[i].name && Find(Names(s), other) < |s| {
      assert Names(s)[Find(Names(s), other)] == other;
    }
  }

  lemma PutKeys(entries: seq<Entry>, k: string, v: Value)
    ensures Keys(Put(entries, k, v)) == AtEnd(Keys(entries), k)
  {
    FindMissing(Keys(entries), k);
    assert Keys(Put(entries, k, v)) == AtEnd(Keys(entries), k);
  }

  lemma FindOfAppended(xs: seq<string>, ys: seq<string>, x: string)
    requires xs <= ys && x in xs
    ensures Find(ys, x) == Find(xs, x)
  {}

  lemma RemoveKeepsTheOrder(store: Store, n: string, k: string, other: string)
    requires IsStore(store)
    ensures Names(RemoveIn(store, n, k)) == Names(store)
    ensures KeysIn(RemoveIn(store, n, k), other) ==
            if n == other then Except(KeysIn(store, n), k) else KeysIn(store, other)
  {
    hide Find, Except, KeysIn, Without, Distinct;
    var t := RemoveIn(store, n, k);
    assert Names(t) == Names(store);
    var i := Find(Names(store), n);
    if i < |store| {
      assert Names(store)[i] == n;
      ExceptIsWithout(Keys(store[i].entries), k);
      KeysInReplaced(store, i, t, other);
      KeysInReplaced(store, i, t, n);
      var j := Find(Keys(store[i].entries), k);
      if j < |store[i].entries| { KeysWithout(store[i].entries, j); }
    }
    NoKeysIn(store, n);
  }

  lemma NoKeysIn(store: Store, name: string)
    ensures Find(Names(store), name) == |store| ==> KeysIn(store, name) == []
    ensures forall k :: Except([], k) == []
  {}

  lemma KeysWithout(entries: seq<Entry>, j: nat)
    requires j < |entries|
    ensures Keys(Without(entries, j)) == Without(Keys(entries), j)
  {}

  lemma RemoveSectionKeepsTheOrder(store: Store, n: string, other: string)
    requires IsStore(store)
    ensures Names(RemoveNamed(store, n)) == Except(Names(store), n)
    ensures KeysIn(RemoveNamed(store, n), other) == if n == other then [] else KeysIn(store, other)
  {
    hide Except, Distinct, Find, KeysIn, Without;
    ExceptIsWithout(Names(store), n);
    NoKeysIn(store, n);
    var i := Find(Names(store), n);
    if i < |store| {
      assert Names(store)[i] == n;
      NamesWithout(store, i);
      FindAfterRemoval(Names(store), i, other);
      KeysAfterRemoval(store, i, other);
    }
  }

  lemma KeysAfterRemoval(store: Store, i: nat, other: string)
    requires i < |store| && Names(Without(store, i)) == Without(Names(store), i)
    requires var j, j' := Find(Names(store), other), Find(Without(Names(store), i), other);
             if j == |store| || j == i then j' == |store| - 1 else j' == if j < i then j else j - 1
    ensures KeysIn(Without(store, i), other) == if Find(Names(store), other) == i then [] else KeysIn(store, other)
  {
    hide Find;
  }

  lemma FindAfterRemoval(xs: seq<string>, i: nat, x: string)
    requires Distinct(xs) && i < |xs|
    ensures var j, j' := Find(xs, x), Find(Without(xs, i), x);
            if j == |xs| || j == i then j' == |xs| - 1 else j' == if j < i then j else j - 1
  {
    var j := Find(xs, x);
    var rest := Without(xs, i);
    RemoveKeepsRest(xs, i);
    FindMissing(rest, x);
    FindMissing(xs, x);
    if j < |xs| && j != i {
      FindIs(rest, x, if j < i then j else j - 1);
    }
  }
}
