/** What the file finder enters and collects, in terms of listings and options. */
module FinderMeaning {
  import opened Wildcard
  import opened FileFinder

  /** A directory that no pattern excludes; a link to one only if links are followed. */
  predicate MayEnter(item: Item, opt: Options) {
    && item.kind == Directory
    && (item.isLink ==> opt.followLinks)
    && forall i :: 0 <= i < |opt.excludeDirGlobs| ==> !Greedy(opt.excludeDirGlobs[i], item.name, opt.caseSensitive)
  }

  /** Every filter that a collected item meets. */
  predicate MayCollect(item: Item, opt: Options) {
    && (item.kind == Directory ==>
          forall i :: 0 <= i < |opt.excludeDirGlobs| ==>
            !Greedy(opt.excludeDirGlobs[i], item.name, opt.caseSensitive))
    && (!opt.includeHidden && item.name != "" ==> item.name[0] != '.')
    && (opt.includeGlobs == [] ||
        exists i :: 0 <= i < |opt.includeGlobs| && Greedy(opt.includeGlobs[i], item.name, opt.caseSensitive))
    && (forall i :: 0 <= i < |opt.excludeGlobs| ==> !Greedy(opt.excludeGlobs[i], item.name, opt.caseSensitive))
    && ((item.isLink && opt.includeLinks)
        || (item.kind == File && opt.includeFiles && opt.extension(item))
        || (item.kind == Directory && opt.includeDirs))
    && opt.others(item)
  }

  lemma EntersIs(item: Item, opt: Options)
    ensures Enters(item, opt) <==> MayEnter(item, opt)
  {
    hide Greedy;
  }

  lemma PassesIs(item: Item, opt: Options)
    ensures Passes(item, opt) <==> MayCollect(item, opt)
  {
    hide Greedy;
  }

  // Directories

  /** Item `i` of the listing of `d` may be entered and leads to `e`. */
  predicate EntersAt(g: Graph, opt: Options, d: string, i: nat, e: string) {
    d in g && i < |g[d]| && MayEnter(g[d][i], opt) && g[d][i].target == e
  }

  /** With `d` the set has every directory that an item of its listing may be entered to. */
  ghost predicate HasEntered(g: Graph, opt: Options, s: set<string>) {
    forall d, i: nat, e :: d in s && EntersAt(g, opt, d, i, e) ==> e in s
  }

  lemma EdgeIs(g: Graph, opt: Options, d: string, e: string)
    ensures Edge(g, opt, d, e) <==> exists i: nat :: EntersAt(g, opt, d, i, e)
  {
    hide Enters, MayEnter;
    if Edge(g, opt, d, e) {
      var i :| 0 <= i < |g[d]| && Enters(g[d][i], opt) && g[d][i].target == e;
      EntersIs(g[d][i], opt);
      assert EntersAt(g, opt, d, i, e);
    }
    if i: nat :| EntersAt(g, opt, d, i, e) {
      EntersIs(g[d][i], opt);
      assert Enters(g[d][i], opt);
    }
  }

  lemma HasEnteredIs(g: Graph, opt: Options, s: set<string>)
    ensures HasEntered(g, opt, s) <==> ClosedUnderEdges(g, opt, s)
  {
    hide Edge, EntersAt;
    forall d, e ensures Edge(g, opt, d, e) <==> exists i: nat :: EntersAt(g, opt, d, i, e) { EdgeIs(g, opt, d, e); }
  }

  lemma EdgeReaches(g: Graph, opt: Options, root: string, d: string, e: string)
    requires Reachable(g, opt, root, d) && Edge(g, opt, d, e)
    ensures Reachable(g, opt, root, e)
  {
    hide Edge;
    var p :| PathFromTo(g, opt, p, root, d);
    var q := p + [e];
    forall i | 0 <= i < |q| - 1
      ensures Edge(g, opt, q[i], q[i + 1])
    {
      if i < |p| - 1 { assert q[i] == p[i] && q[i + 1] == p[i + 1]; }
    }
    assert PathFromTo(g, opt, q, root, e);
  }

  /** A directory that was visited is the root or was entered from one that was visited. */
  lemma EnteredFrom(g: Graph, opt: Options, root: string, e: string) returns (d: string, i: nat)
    requires Reachable(g, opt, root, e) && e != root
    ensures Reachable(g, opt, root, d) && EntersAt(g, opt, d, i, e)
  {
    hide Edge, EntersAt;
    var p :| PathFromTo(g, opt, p, root, e);
    var n := |p| - 2;
    d := p[n];
    assert IsPath(g, opt, p[..n + 1]);
    assert PathFromTo(g, opt, p[..n + 1], root, d);
    assert Edge(g, opt, p[n], p[n + 1]);
    EdgeIs(g, opt, d, e);
    i :| EntersAt(g, opt, d, i, e);
  }

  /** The scan visits the root and whatever may be entered from a visited directory, and nothing else: no excluded
      directory is entered, and no link unless links are followed. */
  lemma VisitedExactly(g: Graph, opt: Options, root: string, visited: set<string>)
    requires forall d :: d in visited <==> Reachable(g, opt, root, d)
    ensures root in visited && HasEntered(g, opt, visited)
    ensures forall e :: e in visited && e != root ==>
              exists d, i: nat :: d in visited && EntersAt(g, opt, d, i, e)
    ensures forall s: set<string> :: root in s && HasEntered(g, opt, s) ==> visited <= s
  {
    hide Edge, EntersAt, Reachable, HasEntered, ClosedUnderEdges;
    ReachesItself(g, opt, root);
    VisitedIsClosed(g, opt, root, visited);
    HasEnteredIs(g, opt, visited);
    forall e | e in visited && e != root
      ensures exists d, i: nat :: d in visited && EntersAt(g, opt, d, i, e)
    {
      var d, i := EnteredFrom(g, opt, root, e);
      assert d in visited && EntersAt(g, opt, d, i, e);
    }
    forall s: set<string> | root in s && HasEntered(g, opt, s)
      ensures visited <= s
    {
      HasEnteredIs(g, opt, s);
      forall e | e in visited ensures e in s { ClosedContainsReachable(g, opt, s, root, e); }
    }
  }

  lemma VisitedIsClosed(g: Graph, opt: Options, root: string, visited: set<string>)
    requires forall d :: d in visited <==> Reachable(g, opt, root, d)
    ensures ClosedUnderEdges(g, opt, visited)
  {
    hide Edge, Reachable;
    forall d, e | d in visited && Edge(g, opt, d, e) ensures e in visited { EdgeReaches(g, opt, root, d, e); }
  }

  // Items

  /** How often the item is among the first `n` of the listing. */
  function Copies(listing: seq<Item>, item: Item, n: nat): nat
    requires n <= |listing|
  {
    if n == 0 then 0 else Copies(listing, item, n - 1) + (if listing[n - 1] == item then 1 else 0)
  }

  lemma {:induction false} PassingCounts(dir: string, listing: seq<Item>, opt: Options, n: nat, d: string, item: Item)
    requires n <= |listing|
    ensures Passing(dir, listing, opt, n)[(d, item)] ==
            if d == dir && MayCollect(item, opt) then Copies(listing, item, n) else 0
  {
    hide Passes, MayCollect;
    if n > 0 {
      PassingCounts(dir, listing, opt, n - 1, d, item);
      PassesIs(listing[n - 1], opt);
    }
  }

  lemma {:induction false} GatheredCounts(g: Graph, opt: Options, dirs: seq<string>, d: string, item: Item)
    requires forall i, j :: 0 <= i < j < |dirs| ==> dirs[i] != dirs[j]
    ensures Gathered(g, opt, dirs)[(d, item)] ==
            if d in dirs && d in g && MayCollect(item, opt) then Copies(g[d], item, |g[d]|) else 0
  {
    hide Passing, MayCollect, Copies;
    if dirs != [] {
      var n := |dirs| - 1;
      GatheredCounts(g, opt, dirs[..n], d, item);
      assert dirs == dirs[..n] + [dirs[n]];
      if dirs[n] in g { PassingCounts(dirs[n], g[dirs[n]], opt, |g[dirs[n]]|, d, item); }
      if d == dirs[n] {
        assert d !in dirs[..n];
      } else {
        assert d in dirs <==> d in dirs[..n];
      }
    }
  }

  /** Below the root the results hold each listed item of each visited directory as often as it is listed if it meets
      every filter, and not at all otherwise. */
  lemma CollectedExactly(g: Graph, opt: Options, expanded: seq<string>, visited: set<string>, found: seq<Entry>,
                         d: string, item: Item)
    requires forall i, j :: 0 <= i < j < |expanded| ==> expanded[i] != expanded[j]
    requires forall d :: d in expanded <==> d in visited
    requires Places(found) == Gathered(g, opt, expanded)
    ensures Places(found)[(d, item)] ==
            if d in visited && d in g && MayCollect(item, opt) then Copies(g[d], item, |g[d]|) else 0
  {
    hide Places, Gathered, MayCollect, Copies;
    GatheredCounts(g, opt, expanded, d, item);
  }

  /** The root itself is collected only as a directory; patterns for directories do not apply to it. */
  lemma RootIsCollected(root: Item, opt: Options)
    ensures PassesAsRoot(root, opt) <==>
            && opt.includeDirs && opt.others(root)
            && (!opt.includeHidden && root.name != "" ==> root.name[0] != '.')
            && (opt.includeGlobs == [] ||
                exists i :: 0 <= i < |opt.includeGlobs| && Greedy(opt.includeGlobs[i], root.name, opt.caseSensitive))
            && (forall i :: 0 <= i < |opt.excludeGlobs| ==>
                  !Greedy(opt.excludeGlobs[i], root.name, opt.caseSensitive))
  {
    hide Greedy;
  }
}
