/** What a depth-first search finishes first, said without the search: by what the roots and the
    lists of dependencies need, from the front. */
module WalkOrder {
  import opened Options
  import opened Graph
  import opened DepthFirst

  /** p is needed earlier than q among the names, or among the dependencies of a name before which no
      name needs q, and so on down the path. */
  ghost predicate NeededFirst(edges: Edges, names: seq<string>, p: string, q: string, path: seq<nat>)
    decreases |path|
  {
    if path == [] then NeededEarlier(edges, names, p, q)
    else
      && path[0] < |names| && (forall m | 0 <= m < path[0] :: !Reaches(edges, names[m], q))
      && NeededFirst(edges, Deps(edges, names[path[0]]), p, q, path[1..])
  }

  // ---------------------------------------------------------------- needed first, finished first

  lemma BeforeIn(order: seq<string>, front: seq<string>, p: string, q: string)
    requires front <= order && p in front && q in order && q !in front
    ensures Before(order, p, q)
  {
    var i :| 0 <= i < |front| && front[i] == p;
    var k :| 0 <= k < |order| && order[k] == q;
    assert order[i] == p;
  }

  lemma BeforeExtends(order: seq<string>, front: seq<string>, p: string, q: string)
    requires front <= order && Before(front, p, q)
    ensures Before(order, p, q)
  {
    var i, k :| 0 <= i < k < |front| && front[i] == p && front[k] == q;
    assert order[i] == p && order[k] == q;
  }

  /** Names that do not need q are walked before it finishes. */
  lemma WalkedBefore(edges: Edges, visiting: set<string>, done: seq<string>, names: seq<string>, a: nat, q: string)
    requires Searching(edges, visiting, done) && AllLead(edges, visiting, names) && a <= |names|
    requires q !in done && q in WalkAll(edges, visiting, done, names).order
    requires forall m | 0 <= m < a :: !Reaches(edges, names[m], q)
    ensures var w := WalkAll(edges, visiting, done, names[..a]);
            && w.cycle.None? && q !in w.order && w.order <= WalkAll(edges, visiting, done, names).order
            && Searching(edges, visiting, w.order) && forall m | 0 <= m < a :: names[m] in w.order
  {
    var front := names[..a];
    var w := WalkAll(edges, visiting, done, front);
    WalkContinues(edges, visiting, done, names, a);
    assert AllLead(edges, visiting, front);
    WalkAllIsWalked(edges, visiting, done, front);
    hide WalkAll, Searching, Reaches, OnCycle, LeadsTo;
    forall x | x in w.order && x !in done ensures ReachedFrom(edges, front, x) {
      assert w.order == done + w.order[|done|..];
    }
    forall m | 0 <= m < a ensures names[m] in w.order {
      assert front[m] == names[m] && front[m] in front;
    }
  }

  lemma {:induction false} NeedsIt(edges: Edges, names: seq<string>, p: string, q: string, path: seq<nat>)
    requires NeededFirst(edges, names, p, q, path)
    ensures ReachedFrom(edges, names, p)
    decreases |path|
  {
    hide Reaches;
    if path == [] {
      var a :| NeededFirstBy(edges, names, p, q, a);
    } else {
      var n := names[path[0]];
      NeedsIt(edges, Deps(edges, n), p, q, path[1..]);
      ReachedBelow(edges, n);
      var m :| m in [n] && Reaches(edges, m, p);
      assert n in names;
    }
  }

  lemma {:induction false} FirstInWalk(edges: Edges, visiting: set<string>, done: seq<string>, names: seq<string>,
                                       p: string, q: string, path: seq<nat>)
    requires Searching(edges, visiting, done) && AllLead(edges, visiting, names) && q !in done
    requires NeededFirst(edges, names, p, q, path) && q in WalkAll(edges, visiting, done, names).order
    ensures Before(WalkAll(edges, visiting, done, names).order, p, q)
    decreases |path|, 0
  {
    hide Searching, AllLead, WalkAll, Reaches, Before;
    if path == [] {
      var a :| NeededFirstBy(edges, names, p, q, a);
      WalkedBefore(edges, visiting, done, names, a + 1, q);
      var w := WalkAll(edges, visiting, done, names[..a + 1]);
      FinishedAt(edges, visiting, w.order, names[a], p);
      BeforeIn(WalkAll(edges, visiting, done, names).order, w.order, p, q);
    } else {
      var a := path[0];
      WalkedBefore(edges, visiting, done, names, a, q);
      var before := WalkAll(edges, visiting, done, names[..a]).order;
      OneMoreWalked(edges, visiting, done, names, a);
      FirstBelow(edges, visiting, before, names[a], WalkAll(edges, visiting, done, names), p, q, path[1..]);
    }
  }

  lemma FinishedAt(edges: Edges, visiting: set<string>, order: seq<string>, n: string, p: string)
    requires Searching(edges, visiting, order) && n in order && Reaches(edges, n, p)
    ensures p in order
  {
    var k :| 0 <= k < |order| && order[k] == n;
    ReachedStandsBefore(edges, order, k, p);
  }

  lemma OneMoreWalked(edges: Edges, visiting: set<string>, done: seq<string>, names: seq<string>, a: nat)
    requires Searching(edges, visiting, done) && AllLead(edges, visiting, names) && a < |names|
    requires WalkAll(edges, visiting, done, names[..a]).cycle.None?
    ensures var w := WalkFrom(edges, visiting, WalkAll(edges, visiting, done, names[..a]).order, names[a]);
            && w.order <= WalkAll(edges, visiting, done, names).order
            && (w.cycle.Some? ==> WalkAll(edges, visiting, done, names) == w)
    ensures AllLead(edges, visiting, [names[a]])
  {
    WalkContinues(edges, visiting, done, names, a + 1);
    assert names[..a + 1][..a] == names[..a];
    hide WalkFrom, Searching, LeadsTo;
  }

  /** The walk from the name whose dependencies come to p before q. */
  lemma {:induction false} FirstBelow(edges: Edges, visiting: set<string>, done: seq<string>, n: string, whole: Walk,
                                      p: string, q: string, path: seq<nat>)
    requires Searching(edges, visiting, done) && AllLead(edges, visiting, [n]) && q !in done && q in whole.order
    requires NeededFirst(edges, Deps(edges, n), p, q, path)
    requires var w := WalkFrom(edges, visiting, done, n); w.order <= whole.order && (w.cycle.Some? ==> whole == w)
    ensures Before(whole.order, p, q)
    decreases |path|, 1
  {
    NeedsIt(edges, Deps(edges, n), p, q, path);
    ReachedBelow(edges, n);
    assert Reaches(edges, n, p);
    hide WalkAll, Reaches, Before, NeededFirst, LeadsTo, Searching;
    if n in done {
      FinishedAt(edges, visiting, done, n, p);
      BeforeIn(whole.order, done, p, q);
    } else {
      assert n !in visiting && n in edges;
      assert forall v | v in visiting :: LeadsTo(edges, v, n) by {
        assert n in [n];
      }
      VisitingLeads(edges, visiting, n);
      SearchingInside(edges, visiting, done, n);
      var below := WalkAll(edges, visiting + {n}, done, edges[n]);
      if q in below.order {
        FirstInWalk(edges, visiting + {n}, done, edges[n], p, q, path);
        BeforeExtends(whole.order, below.order, p, q);
      } else {
        WalkAllIsWalked(edges, visiting + {n}, done, edges[n]);
        StillSearching(edges, visiting + {n}, done, edges[n], below);
        var d :| d in Deps(edges, n) && Reaches(edges, d, p);
        FinishedAt(edges, visiting + {n}, below.order, d, p);
        BeforeIn(whole.order, below.order, p, q);
      }
    }
  }

  // ---------------------------------------------------------------- one of two names is needed first

  lemma ThroughDependency(edges: Edges, n: string, p: string)
    requires Reaches(edges, n, p) && n != p
    ensures ReachedFrom(edges, Deps(edges, n), p)
  {
    var path :| PathFromTo(edges, path, n, p);
    assert path[1] in Deps(edges, n);
    assert PathFromTo(edges, path[1..], path[1], p);
    assert Reaches(edges, path[1], p);
  }

  lemma BelowAvoidsCycles(edges: Edges, n: string)
    requires !ReachesCycle(edges, n)
    ensures forall d | d in Deps(edges, n) :: !ReachesCycle(edges, d)
  {
    forall d | d in Deps(edges, n) ensures !ReachesCycle(edges, d) {
      if ReachesCycle(edges, d) {
        var c :| Reaches(edges, d, c) && OnCycle(edges, c);
        EdgeReaches(edges, n, d);
        ReachesTransitive(edges, n, d, c);
      }
    }
  }

  lemma NotVisited(edges: Edges, visiting: set<string>, n: string)
    requires AllLead(edges, visiting, [n]) && !ReachesCycle(edges, n)
    ensures n !in visiting
  {
    if n in visiting {
      assert n in [n];
      var d :| d in Deps(edges, n) && Reaches(edges, d, n);
      DependencyClosesCycle(edges, n, d);
      ReachesSelf(edges, n);
    }
  }

  /** The first name that needs p or q. */
  lemma {:induction false} FirstNeed(edges: Edges, names: seq<string>, p: string, q: string) returns (a: nat)
    requires ReachedFrom(edges, names, p)
    ensures a < |names| && (Reaches(edges, names[a], p) || Reaches(edges, names[a], q))
    ensures forall m | 0 <= m < a :: !Reaches(edges, names[m], p) && !Reaches(edges, names[m], q)
  {
    hide Reaches;
    var n :| n in names && Reaches(edges, n, p);
    var k :| 0 <= k < |names| && names[k] == n;
    a := 0;
    while !Reaches(edges, names[a], p) && !Reaches(edges, names[a], q)
      invariant a <= k
      invariant forall m | 0 <= m < a :: !Reaches(edges, names[m], p) && !Reaches(edges, names[m], q)
      decreases k - a
    {
      a := a + 1;
    }
  }

  lemma {:induction false} OneIsFirst(edges: Edges, visiting: set<string>, names: seq<string>, p: string, q: string)
    returns (path: seq<nat>)
    requires p != q && ReachedFrom(edges, names, p) && ReachedFrom(edges, names, q)
    requires AllLead(edges, visiting, names) && forall n | n in names :: !ReachesCycle(edges, n)
    ensures Reaches(edges, p, q) || Reaches(edges, q, p)
            || NeededFirst(edges, names, p, q, path) || NeededFirst(edges, names, q, p, path)
    decreases edges.Keys - visiting
  {
    var a := FirstNeed(edges, names, p, q);
    var n := names[a];
    hide Reaches, ReachesCycle;
    if !Reaches(edges, n, q) {
      assert NeededFirstBy(edges, names, p, q, a);
      path := [];
    } else if !Reaches(edges, n, p) {
      assert NeededFirstBy(edges, names, q, p, a);
      path := [];
    } else if n != p && n != q {
      assert AllLead(edges, visiting, [n]) by { assert n in names; }
      NotVisited(edges, visiting, n);
      ThroughDependency(edges, n, p);
      ThroughDependency(edges, n, q);
      BelowAvoidsCycles(edges, n);
      assert forall v | v in visiting :: LeadsTo(edges, v, n) by { assert n in names; }
      VisitingLeads(edges, visiting, n);
      var below := OneIsFirst(edges, visiting + {n}, Deps(edges, n), p, q);
      path := [a] + below;
      assert path[1..] == below;
    } else {
      path := [];
    }
  }

  /** Without a cycle, p finishes before q exactly if q needs p, or p is needed first. */
  lemma StandsBeforeExactly(edges: Edges, roots: seq<string>, p: string, q: string)
    requires Search(edges, roots).cycle.None? && p in Search(edges, roots).order && q in Search(edges, roots).order
    ensures Before(Search(edges, roots).order, p, q) <==>
            p != q && (Reaches(edges, q, p) || exists path :: NeededFirst(edges, roots, p, q, path))
  {
    var order := Search(edges, roots).order;
    SearchIsWalked(edges, roots);
    AllReached(edges, roots, p);
    AllReached(edges, roots, q);
    hide Reaches, ReachesCycle, WalkAll, NeededFirst, ReachedFrom, Topological, Walked;
    SearchIsTopological(edges, roots);
    OneWayOnly(order, p, q);
    FirstStandsBefore(edges, roots, p, q);
    FirstStandsBefore(edges, roots, q, p);
    if p != q {
      if Reaches(edges, q, p) {
        NeededStandsBefore(edges, order, p, q);
      }
      if Reaches(edges, p, q) {
        NeededStandsBefore(edges, order, q, p);
      }
      var path := OneIsFirst(edges, {}, roots, p, q);
    }
  }

  lemma FirstStandsBefore(edges: Edges, roots: seq<string>, p: string, q: string)
    requires q in Search(edges, roots).order
    ensures (exists path :: NeededFirst(edges, roots, p, q, path)) ==> Before(Search(edges, roots).order, p, q)
  {
    hide WalkAll, NeededFirst, Before;
    NothingSearched(edges);
    if path :| NeededFirst(edges, roots, p, q, path) {
      FirstInWalk(edges, {}, [], roots, p, q, path);
    }
  }

  lemma AllReached(edges: Edges, roots: seq<string>, p: string)
    requires p in Search(edges, roots).order
    ensures ReachedFrom(edges, roots, p)
  {
    SearchIsWalked(edges, roots);
    hide Reaches, WalkAll, ReachedFrom;
    assert Search(edges, roots).order[0..] == Search(edges, roots).order;
  }

  // ---------------------------------------------------------------- lists that agree on two names

  /** In the list, q never stands without p before it. */
  ghost predicate Favours(names: seq<string>, p: string, q: string) {
    forall b | 0 <= b < |names| && names[b] == q :: p in names[..b]
  }

  ghost predicate OnlyAfter(order: seq<string>, p: string, q: string) {
    q in order ==> Before(order, p, q)
  }

  lemma OneMoreFinished(order: seq<string>, p: string, q: string, n: string)
    requires OnlyAfter(order, p, q) && (n == q ==> p in order)
    ensures OnlyAfter(order + [n], p, q)
  {
    var longer := order + [n];
    if q in order {
      BeforeExtends(longer, order, p, q);
    } else if n == q {
      assert longer[|order|] == q && longer[..|order|] == order;
      BeforeAt(longer, p, |order|);
    }
  }

  /** If every list of dependencies has q only after p, then so have the finished names. */
  lemma {:induction false} FavouredFrom(edges: Edges, visiting: set<string>, done: seq<string>, n: string, p: string,
                                        q: string)
    requires Searching(edges, visiting, done) && AllLead(edges, visiting, [n])
    requires (forall m :: Favours(Deps(edges, m), p, q)) && OnlyAfter(done, p, q) && (n == q ==> p in done)
    ensures OnlyAfter(WalkFrom(edges, visiting, done, n).order, p, q)
    decreases edges.Keys - visiting, 0
  {
    if n !in done && n !in visiting {
      hide OnlyAfter, Searching, LeadsTo, WalkAll, Favours;
      if n !in edges {
        OneMoreFinished(done, p, q, n);
      } else {
        assert forall v | v in visiting :: LeadsTo(edges, v, n) by { assert n in [n]; }
        VisitingLeads(edges, visiting, n);
        SearchingInside(edges, visiting, done, n);
        FavouredAll(edges, visiting + {n}, done, edges[n], p, q);
        WalkAllIsWalked(edges, visiting + {n}, done, edges[n]);
        OneMoreFinished(WalkAll(edges, visiting + {n}, done, edges[n]).order, p, q, n);
      }
    }
  }

  lemma {:induction false} FavouredAll(edges: Edges, visiting: set<string>, done: seq<string>, names: seq<string>,
                                       p: string, q: string)
    requires Searching(edges, visiting, done) && AllLead(edges, visiting, names) && Favours(names, p, q)
    requires (forall m :: Favours(Deps(edges, m), p, q)) && OnlyAfter(done, p, q)
    ensures OnlyAfter(WalkAll(edges, visiting, done, names).order, p, q)
    decreases edges.Keys - visiting, |names|
  {
    hide LeadsTo, WalkFrom, OnlyAfter, Searching;
    if names != [] {
      var front, last := names[..|names| - 1], names[|names| - 1];
      assert names == front + [last] && last in names;
      assert AllLead(edges, visiting, front) && AllLead(edges, visiting, [last]);
      assert Favours(front, p, q) by {
        forall b | 0 <= b < |front| && front[b] == q ensures p in front[..b] {
          assert names[b] == q && names[..b] == front[..b];
        }
      }
      FavouredAll(edges, visiting, done, front, p, q);
      WalkAllIsWalked(edges, visiting, done, front);
      var before := WalkAll(edges, visiting, done, front);
      if before.cycle.None? {
        StillSearching(edges, visiting, done, front, before);
        FavouredFrom(edges, visiting, before.order, last, p, q);
      }
    }
  }

  lemma FavouredInSearch(edges: Edges, roots: seq<string>, p: string, q: string)
    requires Favours(roots, p, q) && (forall m :: Favours(Deps(edges, m), p, q)) && q in Search(edges, roots).order
    ensures Before(Search(edges, roots).order, p, q)
  {
    hide WalkAll, Favours, Before;
    NothingSearched(edges);
    FavouredAll(edges, {}, [], roots, p, q);
  }
}
