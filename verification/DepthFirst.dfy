/** Depth-first search in post-order, as a function: which names finish, in which order, and
    where the search runs into a cycle. */
module DepthFirst {
  import opened Options
  import opened Graph

  /** The names finished so far and the name that closed a cycle, if one did. */
  datatype Walk = Walk(order: seq<string>, cycle: Option<string>)

  /** Finishes n after everything it depends on. */
  function WalkFrom(edges: Edges, visiting: set<string>, done: seq<string>, n: string): Walk
    decreases edges.Keys - visiting, 0
  {
    if n in done then Walk(done, None)
    else if n in visiting then Walk(done, Some(n))
    else if n !in edges then Walk(done + [n], None)
    else
      var below := WalkAll(edges, visiting + {n}, done, edges[n]);
      if below.cycle.Some? then below else Walk(below.order + [n], None)
  }

  /** Finishes the names one after the other. */
  function WalkAll(edges: Edges, visiting: set<string>, done: seq<string>, names: seq<string>): Walk
    decreases edges.Keys - visiting, |names|
  {
    if names == [] then Walk(done, None)
    else
      var before := WalkAll(edges, visiting, done, names[..|names| - 1]);
      if before.cycle.Some? then before else WalkFrom(edges, visiting, before.order, names[|names| - 1])
  }

  // ---------------------------------------------------------------- what a walk finishes

  /** One of the dependencies of v is n or needs it. */
  ghost predicate LeadsTo(edges: Edges, v: string, n: string) {
    exists d :: d in Deps(edges, v) && Reaches(edges, d, n)
  }

  ghost predicate AllLead(edges: Edges, visiting: set<string>, names: seq<string>) {
    forall v, n | v in visiting && n in names :: LeadsTo(edges, v, n)
  }

  ghost predicate ReachedFrom(edges: Edges, names: seq<string>, x: string) {
    exists m :: m in names && Reaches(edges, m, x)
  }

  /** The state of a search: dependencies finish first, and nothing that is being visited has finished. */
  ghost predicate Searching(edges: Edges, visiting: set<string>, done: seq<string>) {
    Topological(edges, done) && forall v | v in visiting :: v !in done
  }

  /** A walk of the names keeps the state, finishes only what they need and all of them, or
      ends at a cycle that one of them reaches. */
  ghost predicate Walked(edges: Edges, visiting: set<string>, done: seq<string>, names: seq<string>, w: Walk) {
    && done <= w.order && Searching(edges, visiting, w.order)
    && (forall x | x in w.order[|done|..] :: ReachedFrom(edges, names, x))
    && (w.cycle.None? ==> forall m | m in names :: m in w.order)
    && (w.cycle.Some? ==> OnCycle(edges, w.cycle.value) && ReachedFrom(edges, names, w.cycle.value))
  }

  lemma {:induction false} WalkFromIsWalked(edges: Edges, visiting: set<string>, done: seq<string>, n: string)
    requires Searching(edges, visiting, done) && AllLead(edges, visiting, [n])
    ensures Walked(edges, visiting, done, [n], WalkFrom(edges, visiting, done, n))
    decreases edges.Keys - visiting, 0
  {
    hide Topological, Reaches, OnCycle;
    ReachesSelf(edges, n);
    assert n in [n];
    if n !in done && n in visiting {
      var d :| d in Deps(edges, n) && Reaches(edges, d, n);
      DependencyClosesCycle(edges, n, d);
    } else if n !in done && n !in edges {
      TopologicalExtend(edges, done, n);
    } else if n !in done {
      hide LeadsTo, AllLead, Searching, Walked, WalkAll;
      VisitingLeads(edges, visiting, n);
      SearchingInside(edges, visiting, done, n);
      WalkAllIsWalked(edges, visiting + {n}, done, edges[n]);
      WalkEnds(edges, visiting, done, n, WalkAll(edges, visiting + {n}, done, edges[n]));
    }
  }

  lemma SearchingInside(edges: Edges, visiting: set<string>, done: seq<string>, n: string)
    requires n !in done
    ensures Searching(edges, visiting + {n}, done) <==> Searching(edges, visiting, done)
  {
    hide Topological;
  }

  /** The name finishes when its dependencies have, and halts where they do. */
  lemma WalkEnds(edges: Edges, visiting: set<string>, done: seq<string>, n: string, below: Walk)
    requires n !in visiting && Walked(edges, visiting + {n}, done, Deps(edges, n), below)
    ensures Walked(edges, visiting, done, [n], if below.cycle.Some? then below else Walk(below.order + [n], None))
  {
    hide Topological, Reaches, OnCycle;
    ReachesSelf(edges, n);
    ReachedBelow(edges, n);
    assert n in [n] && ReachedFrom(edges, [n], n);
    hide ReachedFrom;
    if below.cycle.None? {
      TopologicalExtend(edges, below.order, n);
      assert (below.order + [n])[|done|..] == below.order[|done|..] + [n];
    }
  }

  lemma {:induction false} WalkAllIsWalked(edges: Edges, visiting: set<string>, done: seq<string>, names: seq<string>)
    requires Searching(edges, visiting, done) && AllLead(edges, visiting, names)
    ensures Walked(edges, visiting, done, names, WalkAll(edges, visiting, done, names))
    decreases edges.Keys - visiting, |names|
  {
    hide Topological, Reaches, OnCycle, LeadsTo;
    if names != [] {
      var front, last := names[..|names| - 1], names[|names| - 1];
      assert names == front + [last] && last in names;
      assert AllLead(edges, visiting, front) && AllLead(edges, visiting, [last]);
      hide Walked, AllLead, Searching;
      var before := WalkAll(edges, visiting, done, front);
      WalkAllIsWalked(edges, visiting, done, front);
      if before.cycle.None? {
        StillSearching(edges, visiting, done, front, before);
        WalkFromIsWalked(edges, visiting, before.order, last);
        WalksJoin(edges, visiting, done, front, last, before, WalkFrom(edges, visiting, before.order, last));
      } else {
        WalkHalted(edges, visiting, done, front, last, before);
      }
    }
  }

  lemma StillSearching(edges: Edges, visiting: set<string>, done: seq<string>, names: seq<string>, w: Walk)
    requires Walked(edges, visiting, done, names, w)
    ensures Searching(edges, visiting, w.order)
  {
    hide Searching, ReachedFrom;
  }

  lemma WalksJoin(edges: Edges, visiting: set<string>, done: seq<string>, front: seq<string>, last: string,
                  before: Walk, w: Walk)
    requires Walked(edges, visiting, done, front, before) && Walked(edges, visiting, before.order, [last], w)
    requires before.cycle.None?
    ensures Walked(edges, visiting, done, front + [last], w)
  {
    MoreReached(edges, front, last);
    hide Searching, ReachedFrom, OnCycle;
    assert w.order[|done|..] == before.order[|done|..] + w.order[|before.order|..];
    assert last in [last];
  }

  lemma WalkHalted(edges: Edges, visiting: set<string>, done: seq<string>, front: seq<string>, last: string, w: Walk)
    requires Walked(edges, visiting, done, front, w) && w.cycle.Some?
    ensures Walked(edges, visiting, done, front + [last], w)
  {
    MoreReached(edges, front, last);
    hide Searching, ReachedFrom, OnCycle;
  }

  lemma DependencyClosesCycle(edges: Edges, n: string, d: string)
    requires d in Deps(edges, n) && Reaches(edges, d, n)
    ensures OnCycle(edges, n)
  {
    var p :| PathFromTo(edges, p, d, n);
    assert PathFromTo(edges, [n] + p, n, n);
  }

  /** What leads to n leads to its dependencies, and so does n. */
  lemma VisitingLeads(edges: Edges, visiting: set<string>, n: string)
    requires forall v | v in visiting :: LeadsTo(edges, v, n)
    ensures AllLead(edges, visiting + {n}, Deps(edges, n))
  {
    hide Reaches;
    forall v, m | v in visiting + {n} && m in Deps(edges, n) ensures LeadsTo(edges, v, m) {
      ReachesSelf(edges, m);
      EdgeReaches(edges, n, m);
      if v != n {
        var d :| d in Deps(edges, v) && Reaches(edges, d, n);
        ReachesTransitive(edges, d, n, m);
      }
    }
  }

  lemma ReachedBelow(edges: Edges, n: string)
    ensures forall x | ReachedFrom(edges, Deps(edges, n), x) :: ReachedFrom(edges, [n], x)
  {
    hide Reaches;
    forall x | ReachedFrom(edges, Deps(edges, n), x) ensures ReachedFrom(edges, [n], x) {
      var m :| m in Deps(edges, n) && Reaches(edges, m, x);
      EdgeReaches(edges, n, m);
      ReachesTransitive(edges, n, m, x);
      assert n in [n];
    }
  }

  lemma MoreReached(edges: Edges, front: seq<string>, last: string)
    ensures forall x | ReachedFrom(edges, front, x) || ReachedFrom(edges, [last], x) ::
      ReachedFrom(edges, front + [last], x)
  {
    hide Reaches;
  }

  /** Longer lists of names continue the walk, unless it ended at a cycle. */
  lemma {:induction false} WalkContinues(edges: Edges, visiting: set<string>, done: seq<string>, names: seq<string>,
                                         i: nat)
    requires i <= |names| && Searching(edges, visiting, done) && AllLead(edges, visiting, names)
    ensures var w := WalkAll(edges, visiting, done, names[..i]);
            && w.order <= WalkAll(edges, visiting, done, names).order
            && (w.cycle.Some? ==> WalkAll(edges, visiting, done, names) == w)
    decreases |names|
  {
    hide Topological, LeadsTo;
    if i == |names| {
      assert names[..i] == names;
    } else {
      var front, last := names[..|names| - 1], names[|names| - 1];
      assert front[..i] == names[..i] && last in names;
      assert AllLead(edges, visiting, front) && AllLead(edges, visiting, [last]);
      hide AllLead, Searching;
      WalkContinues(edges, visiting, done, front, i);
      WalkAllIsWalked(edges, visiting, done, front);
      var before := WalkAll(edges, visiting, done, front);
      if before.cycle.None? {
        WalkFromIsWalked(edges, visiting, before.order, last);
      }
    }
  }

  // ---------------------------------------------------------------- the whole search

  /** The search over all roots. */
  function Search(edges: Edges, roots: seq<string>): Walk {
    WalkAll(edges, {}, [], roots)
  }

  lemma NothingSearched(edges: Edges)
    ensures Searching(edges, {}, [])
  {
  }

  /** The search finishes names after their dependencies, and all roots unless one reaches a cycle. */
  lemma SearchIsWalked(edges: Edges, roots: seq<string>)
    ensures Walked(edges, {}, [], roots, Search(edges, roots))
    ensures Search(edges, roots).cycle.Some? <==> exists m :: m in roots && ReachesCycle(edges, m)
  {
    WalkAllIsWalked(edges, {}, [], roots);
    var w := Search(edges, roots);
    hide Topological, Reaches, OnCycle, WalkAll;
    if w.cycle.Some? {
      var m :| m in roots && Reaches(edges, m, w.cycle.value);
      assert ReachesCycle(edges, m);
    } else {
      forall m | m in roots ensures !ReachesCycle(edges, m) {
        TopologicalAvoidsCycles(edges, w.order, m);
      }
    }
  }

  /** The name is needed by a root, and all earlier roots had finished before it. */
  ghost predicate InTime(edges: Edges, roots: seq<string>, order: seq<string>, i: int, j: int) {
    && 0 <= i < |order| && 0 <= j < |roots| && Reaches(edges, roots[j], order[i])
    && forall m | 0 <= m < j :: roots[m] in order[..i]
  }

  lemma {:induction false} SearchInTime(edges: Edges, roots: seq<string>, i: nat) returns (j: nat)
    requires i < |Search(edges, roots).order|
    ensures InTime(edges, roots, Search(edges, roots).order, i, j)
    decreases |roots|
  {
    var front, last := roots[..|roots| - 1], roots[|roots| - 1];
    var before := Search(edges, front);
    NothingSearched(edges);
    assert roots == front + [last];
    WalkAllIsWalked(edges, {}, [], front);
    StillSearching(edges, {}, [], front, before);
    hide WalkFrom, WalkAll, Walked, Searching, InTime;
    if before.cycle.None? {
      WalkFromIsWalked(edges, {}, before.order, last);
      if i < |before.order| {
        j := SearchInTime(edges, front, i);
        EarlierInTime(edges, front, last, before.order, WalkFrom(edges, {}, before.order, last).order, i, j);
      } else {
        j := |front|;
        LaterInTime(edges, front, last, before, WalkFrom(edges, {}, before.order, last), i);
      }
    } else {
      j := SearchInTime(edges, front, i);
      EarlierInTime(edges, front, last, before.order, before.order, i, j);
    }
  }

  lemma EarlierInTime(edges: Edges, front: seq<string>, last: string, was: seq<string>, now: seq<string>, i: nat,
                      j: nat)
    requires InTime(edges, front, was, i, j) && was <= now
    ensures InTime(edges, front + [last], now, i, j)
  {
    assert now[..i] == was[..i];
  }

  lemma LaterInTime(edges: Edges, front: seq<string>, last: string, before: Walk, w: Walk, i: nat)
    requires Walked(edges, {}, [], front, before) && before.cycle.None? && Walked(edges, {}, before.order, [last], w)
    requires |before.order| <= i < |w.order|
    ensures InTime(edges, front + [last], w.order, i, |front|)
  {
    hide Searching, Reaches, OnCycle;
    assert w.order[i] == w.order[|before.order|..][i - |before.order|];
    assert ReachedFrom(edges, [last], w.order[i]);
    var m :| m in [last] && Reaches(edges, m, w.order[i]);
    assert m == (front + [last])[|front|];
    var early := w.order[..i];
    assert early[..|before.order|] == before.order;
    forall k | 0 <= k < |front| ensures (front + [last])[k] in early {
      assert front[k] in front && front[k] in early[..|before.order|];
    }
  }


  // ---------------------------------------------------------------- what stands before what

  ghost predicate Before(order: seq<string>, p: string, q: string) {
    exists i, k :: 0 <= i < k < |order| && order[i] == p && order[k] == q
  }

  lemma BeforeAt(order: seq<string>, p: string, k: nat)
    requires k < |order| && p in order[..k]
    ensures Before(order, p, order[k])
  {
    var i :| 0 <= i < k && order[..k][i] == p;
  }

  lemma OneWayOnly(order: seq<string>, p: string, q: string)
    requires Distinct(order)
    ensures !(Before(order, p, q) && Before(order, q, p)) && (p == q ==> !Before(order, p, q))
  {
  }

  /** What a name needs stands before it. */
  lemma NeededStandsBefore(edges: Edges, order: seq<string>, p: string, q: string)
    requires Topological(edges, order) && q in order && p != q && Reaches(edges, q, p)
    ensures Before(order, p, q)
  {
    var k :| 0 <= k < |order| && order[k] == q;
    ReachedStandsBefore(edges, order, k, p);
    assert order[..k + 1] == order[..k] + [q];
    BeforeAt(order, p, k);
  }

  /** Some root needs p, and neither it nor any root before it needs q. */
  ghost predicate NeededEarlier(edges: Edges, roots: seq<string>, p: string, q: string) {
    exists a :: NeededFirstBy(edges, roots, p, q, a)
  }

  ghost predicate NeededFirstBy(edges: Edges, roots: seq<string>, p: string, q: string, a: int) {
    0 <= a < |roots| && Reaches(edges, roots[a], p) && forall m | 0 <= m <= a :: !Reaches(edges, roots[m], q)
  }

  /** What an earlier root needs stands before whatever only later roots need. */
  lemma NeededEarlierStandsBefore(edges: Edges, roots: seq<string>, p: string, q: string)
    requires NeededEarlier(edges, roots, p, q) && q in Search(edges, roots).order
    ensures Before(Search(edges, roots).order, p, q)
  {
    var order := Search(edges, roots).order;
    SearchIsTopological(edges, roots);
    hide Search, Topological, Reaches, Before;
    var a :| NeededFirstBy(edges, roots, p, q, a);
    var k :| 0 <= k < |order| && order[k] == q;
    var j := SearchInTime(edges, roots, k);
    EarlierRootFinished(edges, roots, order, p, k, a, j);
    BeforeAt(order, p, k);
  }

  lemma SearchIsTopological(edges: Edges, roots: seq<string>)
    ensures Topological(edges, Search(edges, roots).order)
  {
    SearchIsWalked(edges, roots);
    hide Search, Topological, ReachesCycle, ReachedFrom;
  }

  lemma EarlierRootFinished(edges: Edges, roots: seq<string>, order: seq<string>, p: string, k: nat, a: nat, j: nat)
    requires Topological(edges, order) && k < |order| && NeededFirstBy(edges, roots, p, order[k], a)
    requires InTime(edges, roots, order, k, j)
    ensures p in order[..k]
  {
    hide Topological, Reaches;
    assert a < j;
    var x :| 0 <= x < k && order[..k][x] == roots[a];
    ReachedStandsBefore(edges, order, x, p);
    assert order[..x + 1] <= order[..k];
  }

  // ---------------------------------------------------------------- roots in order

  /** Names whose dependencies have finished add nothing to a walk. */
  lemma {:induction false} DoneAddsNothing(edges: Edges, visiting: set<string>, done: seq<string>, names: seq<string>)
    requires forall n | n in names :: n in done
    ensures WalkAll(edges, visiting, done, names) == Walk(done, None)
  {
    if names != [] {
      DoneAddsNothing(edges, visiting, done, names[..|names| - 1]);
    }
  }

  /** Roots of which each depends on earlier ones only finish in their order. */
  lemma {:induction false} RootsInOrder(edges: Edges, roots: seq<string>)
    requires Topological(edges, roots)
    ensures Search(edges, roots) == Walk(roots, None)
  {
    if roots != [] {
      var front, last := roots[..|roots| - 1], roots[|roots| - 1];
      assert Topological(edges, front) by {
        forall i, d | 0 <= i < |front| && d in Deps(edges, front[i]) ensures d in front[..i] {
          assert front[..i] == roots[..i] && front[i] == roots[i];
        }
      }
      RootsInOrder(edges, front);
      assert last !in front;
      assert roots[..|front|] == front;
      DoneAddsNothing(edges, {last}, front, Deps(edges, last));
      assert {} + {last} == {last};
      assert WalkFrom(edges, {}, front, last) == Walk(front + [last], None);
      assert front + [last] == roots;
      assert WalkAll(edges, {}, [], front) == Search(edges, front);
    }
  }
}
