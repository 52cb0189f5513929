/** The recursive scan of the file finder, on a finite graph of directories. */
module FileFinder {
  import opened Common
  import opened Wildcard

  datatype Kind = File | Directory | Other

  /** One name in a directory. `kind` is what the name leads to once links are followed, `target`
      the canonical path of a directory. */
  datatype Item = Item(name: string, kind: Kind, isLink: bool, target: string)

  /** The listing of every directory, by canonical path. */
  type Graph = map<string, seq<Item>>

  predicate Closed(g: Graph) {
    forall d, i :: d in g && 0 <= i < |g[d]| && g[d][i].kind == Directory ==> g[d][i].target in g
  }

  /** `extension` and `others` stand for the extension, regular expression, time and size filters. */
  datatype Options = Options(
    includeGlobs: seq<string>, excludeGlobs: seq<string>, excludeDirGlobs: seq<string>, caseSensitive: bool,
    includeHidden: bool, includeLinks: bool, includeFiles: bool, includeDirs: bool, followLinks: bool,
    extension: Item -> bool, others: Item -> bool)

  predicate AnyGlob(globs: seq<string>, name: string, cs: bool) {
    exists i :: 0 <= i < |globs| && Greedy(globs[i], name, cs)
  }

  predicate IsHidden(name: string) {
    name != "" && name[0] == '.'
  }

  predicate NameFilters(name: string, opt: Options) {
    && (opt.includeGlobs != [] ==> AnyGlob(opt.includeGlobs, name, opt.caseSensitive))
    && !AnyGlob(opt.excludeGlobs, name, opt.caseSensitive)
  }

  predicate Skipped(item: Item, opt: Options) {
    item.kind == Directory && AnyGlob(opt.excludeDirGlobs, item.name, opt.caseSensitive)
  }

  /** Is the item collected? A skipped directory is not, whatever the other filters say. */
  predicate Passes(item: Item, opt: Options) {
    && !Skipped(item, opt)
    && (opt.includeHidden || !IsHidden(item.name))
    && NameFilters(item.name, opt)
    && ((item.isLink && opt.includeLinks)
        || (item.kind == File && opt.includeFiles && opt.extension(item))
        || (item.kind == Directory && opt.includeDirs))
    && opt.others(item)
  }

  /** May the scan go on inside the item? Hidden directories may be entered, links only on request. */
  predicate Enters(item: Item, opt: Options) {
    item.kind == Directory && !Skipped(item, opt) && (opt.followLinks || !item.isLink)
  }

  // Reachable directories

  ghost predicate Edge(g: Graph, opt: Options, d: string, e: string) {
    d in g && exists i :: 0 <= i < |g[d]| && Enters(g[d][i], opt) && g[d][i].target == e
  }

  ghost predicate IsPath(g: Graph, opt: Options, p: seq<string>) {
    p != [] && forall i :: 0 <= i < |p| - 1 ==> Edge(g, opt, p[i], p[i + 1])
  }

  ghost predicate PathFromTo(g: Graph, opt: Options, p: seq<string>, d: string, e: string) {
    IsPath(g, opt, p) && p[0] == d && p[|p| - 1] == e
  }

  ghost predicate Reachable(g: Graph, opt: Options, d: string, e: string) {
    exists p :: PathFromTo(g, opt, p, d, e)
  }

  lemma ReachesItself(g: Graph, opt: Options, d: string)
    ensures Reachable(g, opt, d, d)
  {
    assert PathFromTo(g, opt, [d], d, d);
  }

  lemma ReachesThrough(g: Graph, opt: Options, d: string, e: string, f: string)
    requires Edge(g, opt, d, e) && Reachable(g, opt, e, f)
    ensures Reachable(g, opt, d, f)
  {
    hide Edge;
    var p :| PathFromTo(g, opt, p, e, f);
    var q := [d] + p;
    forall i | 0 <= i < |q| - 1
      ensures Edge(g, opt, q[i], q[i + 1])
    {
      if i > 0 { assert q[i] == p[i - 1] && q[i + 1] == p[i]; }
    }
    assert PathFromTo(g, opt, q, d, f);
  }

  ghost predicate ClosedUnderEdges(g: Graph, opt: Options, s: set<string>) {
    forall d, e :: d in s && Edge(g, opt, d, e) ==> e in s
  }

  lemma {:induction false} ClosedContainsPath(g: Graph, opt: Options, s: set<string>, p: seq<string>, i: nat)
    requires ClosedUnderEdges(g, opt, s) && IsPath(g, opt, p) && p[0] in s && i < |p|
    ensures p[i] in s
  {
    hide Edge;
    if i > 0 { ClosedContainsPath(g, opt, s, p, i - 1); }
  }

  lemma ClosedContainsReachable(g: Graph, opt: Options, s: set<string>, d: string, e: string)
    requires ClosedUnderEdges(g, opt, s) && d in s && Reachable(g, opt, d, e)
    ensures e in s
  {
    var p :| PathFromTo(g, opt, p, d, e);
    ClosedContainsPath(g, opt, s, p, |p| - 1);
  }

  // What is collected

  /** A collected item, the canonical path of its directory, and the path it was found under. */
  datatype Entry = Entry(path: seq<string>, dir: string, item: Item)

  function Place(e: Entry): (string, Item) {
    (e.dir, e.item)
  }

  function Places(out: seq<Entry>): multiset<(string, Item)> {
    if out == [] then multiset{} else Places(out[..|out| - 1]) + multiset{Place(out[|out| - 1])}
  }

  /** The items of `listing[..n]` that pass, each once for every time it is listed. */
  function Passing(dir: string, listing: seq<Item>, opt: Options, n: nat): multiset<(string, Item)>
    requires n <= |listing|
  {
    if n == 0 then multiset{}
    else
      Passing(dir, listing, opt, n - 1)
      + (if Passes(listing[n - 1], opt) then multiset{(dir, listing[n - 1])} else multiset{})
  }

  /** The passing items of all directories in `dirs`. */
  function Gathered(g: Graph, opt: Options, dirs: seq<string>): multiset<(string, Item)> {
    if dirs == [] then multiset{}
    else
      var d := dirs[|dirs| - 1];
      Gathered(g, opt, dirs[..|dirs| - 1]) + (if d in g then Passing(d, g[d], opt, |g[d]|) else multiset{})
  }

  lemma {:induction false} GatheredJoined(g: Graph, opt: Options, a: seq<string>, b: seq<string>)
    ensures Gathered(g, opt, a + b) == Gathered(g, opt, a) + Gathered(g, opt, b)
  {
    hide Passing;
    if b == [] {
      assert a + b == a;
    } else {
      assert (a + b)[..|a + b| - 1] == a + b[..|b| - 1];
      GatheredJoined(g, opt, a, b[..|b| - 1]);
    }
  }

  lemma {:induction false} PlacesJoined(a: seq<Entry>, b: seq<Entry>)
    ensures Places(a + b) == Places(a) + Places(b)
  {
    if b == [] {
      assert a + b == a;
    } else {
      assert (a + b)[..|a + b| - 1] == a + b[..|b| - 1];
      PlacesJoined(a, b[..|b| - 1]);
    }
  }

  function Init(names: seq<string>): (init: seq<string>)
    requires names != []
    ensures |init| < |names|
  {
    names[..|names| - 1]
  }

  function Last(names: seq<string>): string
    requires names != []
  {
    names[|names| - 1]
  }

  /** Following the names one after the other leads from `d` to `e`. */
  ghost predicate Leads(g: Graph, d: string, names: seq<string>, e: string)
    decreases |names|
  {
    if names == [] then d == e
    else exists m :: m in g && Leads(g, d, Init(names), m) && Names(g, m, Last(names), e)
  }

  ghost predicate Names(g: Graph, d: string, name: string, e: string) {
    d in g && exists i :: 0 <= i < |g[d]| && IsDirectoryCalled(g[d][i], name, e)
  }

  predicate IsDirectoryCalled(item: Item, name: string, target: string) {
    item.kind == Directory && item.name == name && item.target == target
  }

  /** The entry is where its path says it is. */
  ghost predicate WellPlaced(g: Graph, root: string, e: Entry) {
    && e.path != [] && e.path[|e.path| - 1] == e.item.name
    && Leads(g, root, e.path[..|e.path| - 1], e.dir)
  }

  ghost predicate AllWellPlaced(g: Graph, root: string, out: seq<Entry>) {
    forall i :: 0 <= i < |out| ==> WellPlaced(g, root, out[i])
  }

  // The scan

  /** What a scan of `dir` does: `dirs` are the directories it expands and `found` what it collects,
      while the visited set grows from `before` to `after`. */
  ghost predicate Scans(g: Graph, opt: Options, root: string, dir: string,
                        before: set<string>, after: set<string>, dirs: seq<string>, found: seq<Entry>) {
    && before <= after && after <= before + g.Keys
    && ExpandsNew(dir, before, after, dirs)
    && (forall d, e :: d in dirs && Edge(g, opt, d, e) ==> e in after)
    && (forall d :: d in dirs ==> Reachable(g, opt, dir, d))
    && Places(found) == Gathered(g, opt, dirs)
    && AllWellPlaced(g, root, found)
  }

  /** The directories are `dir` and the newly visited ones, each once. */
  ghost predicate ExpandsNew(dir: string, before: set<string>, after: set<string>, dirs: seq<string>) {
    && (forall i, j :: 0 <= i < j < |dirs| ==> dirs[i] != dirs[j])
    && (forall d :: d in dirs <==> d == dir || (d in after && d !in before))
  }

  /** The state in the middle of the listing of `dir`: the first `n` items are done, and `dirs` are
      the directories expanded below `dir` so far. */
  ghost predicate Partly(g: Graph, opt: Options, root: string, dir: string, n: nat,
                         before: set<string>, after: set<string>, dirs: seq<string>, found: seq<Entry>)
    requires dir in g && n <= |g[dir]|
  {
    && before <= after && after <= before + g.Keys
    && ExpandsBelow(before, after, dirs)
    && (forall d, e :: d in dirs && Edge(g, opt, d, e) ==> e in after)
    && (forall i :: 0 <= i < n && Enters(g[dir][i], opt) ==> g[dir][i].target in after)
    && (forall d :: d in dirs ==> Reachable(g, opt, dir, d))
    && Places(found) == Gathered(g, opt, dirs) + Passing(dir, g[dir], opt, n)
    && AllWellPlaced(g, root, found)
  }

  ghost predicate ExpandsBelow(before: set<string>, after: set<string>, dirs: seq<string>) {
    && (forall i, j :: 0 <= i < j < |dirs| ==> dirs[i] != dirs[j])
    && (forall d :: d in dirs <==> d in after && d !in before)
  }

  lemma PartlyStarts(g: Graph, opt: Options, root: string, dir: string, before: set<string>)
    requires dir in g
    ensures Partly(g, opt, root, dir, 0, before, before, [], [])
  {}

  lemma PartlyEnds(g: Graph, opt: Options, root: string, dir: string,
                   before: set<string>, after: set<string>, dirs: seq<string>, found: seq<Entry>)
    requires dir in g && dir in before && Partly(g, opt, root, dir, |g[dir]|, before, after, dirs, found)
    ensures Scans(g, opt, root, dir, before, after, [dir] + dirs, found)
  {
    hide Reachable, Passing, Enters, AllWellPlaced;
    ReachesItself(g, opt, dir);
    GatheredJoined(g, opt, [dir], dirs);
    assert [dir][..0] == [];
    assert Gathered(g, opt, [dir]) == Passing(dir, g[dir], opt, |g[dir]|);
    ExpandsWithParent(dir, before, after, dirs);
  }

  lemma ExpandsWithParent(dir: string, before: set<string>, after: set<string>, dirs: seq<string>)
    requires dir in before && before <= after && ExpandsBelow(before, after, dirs)
    ensures ExpandsNew(dir, before, after, [dir] + dirs)
  {
    var all := [dir] + dirs;
    forall d
      ensures d in all <==> d == dir || (d in after && d !in before)
    {
      assert all[0] == dir;
      if d in dirs { assert d in all; }
    }
  }

  /** An item that is not entered, or leads where the scan has been, only adds itself. */
  lemma PartlyPassesOver(g: Graph, opt: Options, root: string, dir: string, n: nat,
                         before: set<string>, after: set<string>, dirs: seq<string>, found: seq<Entry>,
                         more: seq<Entry>)
    requires dir in g && n < |g[dir]| && Partly(g, opt, root, dir, n, before, after, dirs, found)
    requires Enters(g[dir][n], opt) ==> g[dir][n].target in after
    requires Collects(g, opt, root, dir, n, more)
    ensures Partly(g, opt, root, dir, n + 1, before, after, dirs, found + more)
  {
    hide Reachable, Enters, Passes, WellPlaced, ExpandsBelow, Edge, Gathered, Places;
    PlacesJoined(found, more);
  }

  /** What is collected at item `n`. */
  ghost predicate Collects(g: Graph, opt: Options, root: string, dir: string, n: nat, more: seq<Entry>)
    requires dir in g && n < |g[dir]|
  {
    && Places(more) == (if Passes(g[dir][n], opt) then multiset{(dir, g[dir][n])} else multiset{})
    && AllWellPlaced(g, root, more)
  }

  lemma CollectsOne(g: Graph, opt: Options, root: string, path: seq<string>, dir: string, n: nat)
    requires dir in g && n < |g[dir]| && Leads(g, root, path, dir)
    ensures Collects(g, opt, root, dir, n,
                     if Passes(g[dir][n], opt) then [Entry(path + [g[dir][n].name], dir, g[dir][n])] else [])
  {
    hide Passes, Leads;
    var e := Entry(path + [g[dir][n].name], dir, g[dir][n]);
    assert e.path[..|e.path| - 1] == path;
    assert [e][..0] == [];
    assert Places([e]) == multiset{(dir, g[dir][n])};
  }

  /** A directory not seen before adds what its own scan does. */
  lemma PartlyEnters(g: Graph, opt: Options, root: string, dir: string, n: nat, before: set<string>,
                     middle: set<string>, after: set<string>, dirs: seq<string>, found: seq<Entry>, more: seq<Entry>,
                     dirs': seq<string>, found': seq<Entry>)
    requires dir in g && n < |g[dir]| && Partly(g, opt, root, dir, n, before, middle, dirs, found)
    requires Enters(g[dir][n], opt) && g[dir][n].target !in middle && g[dir][n].target in g
    requires Collects(g, opt, root, dir, n, more)
    requires Scans(g, opt, root, g[dir][n].target, middle + {g[dir][n].target}, after, dirs', found')
    ensures Partly(g, opt, root, dir, n + 1, before, after, dirs + dirs', found + more + found')
  {
    hide Passes, WellPlaced, Edge, Gathered, Reachable, Places, Enters;
    var t := g[dir][n].target;
    EdgeTo(g, opt, dir, n);
    forall d | d in dirs'
      ensures Reachable(g, opt, dir, d)
    {
      ReachesThrough(g, opt, dir, t, d);
    }
    PlacesJoined(found + more, found');
    PlacesJoined(found, more);
    GatheredJoined(g, opt, dirs, dirs');
    ExpandsBoth(before, middle, after, t, dirs, dirs');
  }

  lemma EdgeTo(g: Graph, opt: Options, dir: string, n: nat)
    requires dir in g && n < |g[dir]| && Enters(g[dir][n], opt)
    ensures Edge(g, opt, dir, g[dir][n].target)
  {}

  lemma ExpandsBoth(before: set<string>, middle: set<string>, after: set<string>, t: string, dirs: seq<string>,
                    dirs': seq<string>)
    requires before <= middle <= after && t !in middle && t in after
    requires ExpandsBelow(before, middle, dirs) && ExpandsNew(t, middle + {t}, after, dirs')
    ensures ExpandsBelow(before, after, dirs + dirs')
  {
    var all := dirs + dirs';
    forall i, j | 0 <= i < j < |all|
      ensures all[i] != all[j]
    {
      if i < |dirs| <= j {
        assert dirs[i] in dirs && dirs'[j - |dirs|] in dirs';
      }
    }
    forall d
      ensures d in all <==> d in after && d !in before
    {
      assert d in all <==> d in dirs || d in dirs';
    }
  }

  lemma LeadsInto(g: Graph, root: string, path: seq<string>, dir: string, n: nat)
    requires dir in g && n < |g[dir]| && g[dir][n].kind == Directory && Leads(g, root, path, dir)
    ensures Leads(g, root, path + [g[dir][n].name], g[dir][n].target)
  {
    var p := path + [g[dir][n].name];
    assert p[..|p| - 1] == path;
    assert IsDirectoryCalled(g[dir][n], g[dir][n].name, g[dir][n].target);
    assert Names(g, dir, g[dir][n].name, g[dir][n].target);
  }

  class Scan {
    var visited: set<string>
    var out: seq<Entry>
    ghost var expanded: seq<string>

    constructor ()
      ensures visited == {} && out == [] && expanded == []
    {
      visited := {};
      out := [];
      expanded := [];
    }

    /** `scan_dir_children`, without depth limit, result limit, callback and errors. */
    method ScanChildren(g: Graph, opt: Options, path: seq<string>, dir: string, ghost root: string)
      requires Closed(g) && dir in g && dir in visited && Leads(g, root, path, dir)
      modifies this
      ensures |expanded| >= |old(expanded)| && expanded[..|old(expanded)|] == old(expanded)
      ensures |out| >= |old(out)| && out[..|old(out)|] == old(out)
      ensures Scans(g, opt, root, dir, old(visited), visited, expanded[|old(expanded)|..], out[|old(out)|..])
      decreases |g.Keys - visited|
    {
      hide Partly, Scans, Collects, Leads, Passes, Enters;
      ghost var before, found0, expanded0 := visited, out, expanded;
      ghost var dirs: seq<string>, found: seq<Entry> := [], [];
      expanded := expanded + [dir];
      PartlyStarts(g, opt, root, dir, before);
      var listing := g[dir];
      for n := 0 to |listing|
        invariant Partly(g, opt, root, dir, n, before, visited, dirs, found)
        invariant before <= visited
        invariant expanded == expanded0 + ([dir] + dirs) && out == found0 + found
      {
        var item := listing[n];
        ghost var more := if Passes(item, opt) then [Entry(path + [item.name], dir, item)] else [];
        CollectsOne(g, opt, root, path, dir, n);
        if Passes(item, opt) {
          out := out + [Entry(path + [item.name], dir, item)];
        }
        Regrouped(found0, found, more);
        assert more == [] ==> found + more == found;
        if Enters(item, opt) && item.target !in visited {
          EntersDirectory(g, opt, dir, n);
          LeadsInto(g, root, path, dir, n);
          ghost var middle, out1, expanded1 := visited, out, expanded;
          visited := visited + {item.target};
          FewerLeft(g.Keys, before, middle, item.target);
          ScanChildren(g, opt, path + [item.name], item.target, root);
          ghost var dirs', found' := expanded[|expanded1|..], out[|out1|..];
          ScansGrows(g, opt, root, item.target, middle + {item.target}, visited, dirs', found');
          PartlyEnters(g, opt, root, dir, n, before, middle, visited, dirs, found, more, dirs', found');
          Reassembled(expanded0, [dir] + dirs, dirs', expanded);
          Regrouped([dir], dirs, dirs');
          Reassembled(found0, found + more, found', out);
          dirs, found := dirs + dirs', found + more + found';
        } else {
          PartlyPassesOver(g, opt, root, dir, n, before, visited, dirs, found, more);
          found := found + more;
        }
      }
      PartlyEnds(g, opt, root, dir, before, visited, dirs, found);
      assert expanded[|expanded0|..] == [dir] + dirs && out[|found0|..] == found;
    }

    /** `find` on a directory, recursively, with neither sorting nor a limit. */
    method Find(g: Graph, opt: Options, rootItem: Item)
      requires Closed(g) && rootItem.kind == Directory && rootItem.target in g
      modifies this
      ensures forall d :: d in visited <==> Reachable(g, opt, rootItem.target, d)
      ensures forall i, j :: 0 <= i < j < |expanded| ==> expanded[i] != expanded[j]
      ensures forall d :: d in expanded <==> d in visited
      ensures var top := if PassesAsRoot(rootItem, opt) then [Entry([], "", rootItem)] else [];
              && |top| <= |out| && out[..|top|] == top
              && Places(out[|top|..]) == Gathered(g, opt, expanded)
              && AllWellPlaced(g, rootItem.target, out[|top|..])
    {
      hide Passes, Enters, Gathered, Places, Edge, Reachable, AllWellPlaced, Closed;
      var root := rootItem.target;
      visited, out := {}, [];
      expanded := [];
      if PassesAsRoot(rootItem, opt) { out := [Entry([], "", rootItem)]; }
      ghost var top := out;
      visited := {root};
      ScanChildren(g, opt, [], root, root);
      assert expanded[0..] == expanded;
      forall d
        ensures d in visited <==> Reachable(g, opt, root, d)
      {
        if Reachable(g, opt, root, d) { ClosedContainsReachable(g, opt, visited, root, d); }
      }
    }
  }

  /** The root is collected as a directory; the globs that skip directories do not apply to it. */
  predicate PassesAsRoot(root: Item, opt: Options) {
    && opt.includeDirs && (opt.includeHidden || !IsHidden(root.name))
    && NameFilters(root.name, opt) && opt.others(root)
  }

  lemma EntersDirectory(g: Graph, opt: Options, dir: string, n: nat)
    requires Closed(g) && dir in g && n < |g[dir]| && Enters(g[dir][n], opt)
    ensures g[dir][n].kind == Directory && g[dir][n].target in g
  {}

  lemma FewerLeft(keys: set<string>, before: set<string>, middle: set<string>, t: string)
    requires before <= middle && t in keys && t !in middle
    ensures |keys - (middle + {t})| < |keys - before|
  {
    assert keys - (middle + {t}) < keys - before;
    SmallerSet(keys - (middle + {t}), keys - before);
  }

  lemma {:induction false} SmallerSet(a: set<string>, b: set<string>)
    requires a < b
    ensures |a| < |b|
  {
    assert b == a + (b - a);
  }

  lemma Reassembled<T>(a: seq<T>, b: seq<T>, c: seq<T>, all: seq<T>)
    requires |a + b| <= |all| && all[..|a + b|] == a + b && all[|a + b|..] == c
    ensures all == a + (b + c)
  {
    assert all == all[..|a + b|] + all[|a + b|..];
  }

  lemma ScansGrows(g: Graph, opt: Options, root: string, dir: string,
                   before: set<string>, after: set<string>, dirs: seq<string>, found: seq<Entry>)
    requires Scans(g, opt, root, dir, before, after, dirs, found)
    ensures before <= after
  {}
}
