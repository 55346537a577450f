/** What the order of calls in a scheduler run guarantees, for any graph and any executor. */
module CompositeOrder {
  import opened Options
  import opened Graph
  import opened DepthFirst
  import opened CompositeModel

  /** Position p of order that holds the i-th known name, with exactly the first i known names before it. */
  lemma {:induction false} KnownAt(comps: seq<Component>, order: seq<string>, i: nat) returns (p: nat)
    requires i < |Known(comps, order)|
    ensures p < |order| && order[p] == Known(comps, order)[i]
    ensures Known(comps, order[..p]) == Known(comps, order)[..i]
    ensures IsName(comps, order[p])
  {
    var front := order[..|order| - 1];
    if i < |Known(comps, front)| {
      p := KnownAt(comps, front, i);
      assert front[..p] == order[..p];
      assert Known(comps, front)[..i] == Known(comps, order)[..i];
    } else {
      p := |order| - 1;
      assert Known(comps, order)[..i] == Known(comps, front);
    }
  }

  lemma {:induction false} KnownHas(comps: seq<Component>, order: seq<string>, n: string)
    ensures n in Known(comps, order) <==> n in order && IsName(comps, n)
  {
    if order != [] {
      var front, last := order[..|order| - 1], order[|order| - 1];
      KnownHas(comps, front, n);
      assert n in order <==> n in front || n == last;
    }
  }

  lemma {:induction false} KnownDistinct(comps: seq<Component>, order: seq<string>)
    requires Distinct(order)
    ensures Distinct(Known(comps, order))
  {
    if order != [] {
      var front, last := order[..|order| - 1], order[|order| - 1];
      KnownDistinct(comps, front);
      KnownHas(comps, front, last);
    }
  }

  lemma {:induction false} DistinctSeqsOfSameElements(s: seq<string>, t: seq<string>)
    requires Distinct(s) && Distinct(t) && forall n :: n in s <==> n in t
    ensures multiset(s) == multiset(t)
  {
    forall n ensures multiset(s)[n] == multiset(t)[n] {
      CountInDistinct(s, n);
      CountInDistinct(t, n);
    }
  }

  lemma {:induction false} CountInDistinct(s: seq<string>, n: string)
    requires Distinct(s)
    ensures multiset(s)[n] == if n in s then 1 else 0
  {
    if s != [] {
      var front, last := s[..|s| - 1], s[|s| - 1];
      CountInDistinct(front, n);
      assert s == front + [last];
    }
  }

  lemma {:induction false} KnownPrefix(comps: seq<Component>, order: seq<string>, n: nat)
    requires n <= |order|
    ensures Known(comps, order[..n]) <= Known(comps, order)
    decreases |order|
  {
    if n < |order| {
      assert order[..|order| - 1][..n] == order[..n];
      KnownPrefix(comps, order[..|order| - 1], n);
    } else {
      assert order[..n] == order;
    }
  }

  // ---------------------------------------------------------------- the calls of a run

  /** The order in which the components would be called if nothing failed. */
  ghost function CallOrder(comps: seq<Component>, edges: Edges): seq<string> {
    Known(comps, Search(edges, Registered(comps)).order)
  }

  /** Every run calls the components of one order that the graph and the registration fix, and
      stops early only at a call that fails, which is the last. */
  lemma CallsFollowWalk(comps: seq<Component>, edges: Edges, calls: seq<Call>, err: Option<RunError>)
    requires GraphRun(comps, edges, calls, err)
    ensures Names(calls) <= CallOrder(comps, edges)
    ensures forall i | 0 <= i < |calls| :: calls[i].comp in comps
    ensures forall i | 0 <= i < |calls| :: calls[i].outcome.Failed? ==>
              i == |calls| - 1 && err == Some(ExecutionFailed(calls[i].comp.name, calls[i].outcome.error))
    ensures match err
            case None => Names(calls) == CallOrder(comps, edges) && Search(edges, Registered(comps)).cycle.None?
            case Some(Circular(n)) =>
              Names(calls) == CallOrder(comps, edges) && Search(edges, Registered(comps)).cycle == Some(n)
            case Some(ExecutionFailed(n, cause)) => calls != [] && calls[|calls| - 1].outcome == Failed(cause)
  {
    hide Search;
    var w := Search(edges, Registered(comps));
    var order :| RunsAlong(comps, w, order, calls, err);
    if err.Some? && err.value.ExecutionFailed? {
      LastCallFollows(comps, w, order, calls, err.value);
    } else {
      forall i | 0 <= i < |calls| ensures calls[i].comp in comps && !calls[i].outcome.Failed? {
        assert calls[i] in calls;
      }
    }
  }

  lemma LastCallFollows(comps: seq<Component>, w: Walk, order: seq<string>, calls: seq<Call>, err: RunError)
    requires Stops(comps, w, order, calls, err) && err.ExecutionFailed?
    ensures Names(calls) <= Known(comps, w.order)
    ensures forall i | 0 <= i < |calls| :: calls[i].comp in comps
    ensures forall i | 0 <= i < |calls| - 1 :: !calls[i].outcome.Failed?
  {
    var front, last := calls[..|calls| - 1], calls[|calls| - 1];
    forall i | 0 <= i < |calls| - 1 ensures calls[i].comp in comps && !calls[i].outcome.Failed? {
      assert calls[i] == front[i] && front[i] in front;
    }
    assert IsName(comps, err.name) by {
      var i :| 0 <= i < |comps| && comps[i] == last.comp;
    }
    assert (order + [err.name])[..|order|] == order;
    assert Known(comps, order + [err.name]) == Known(comps, order) + [err.name];
    assert Names(calls) == Names(front) + [err.name];
    assert w.order[..|order| + 1] == order + [err.name];
    KnownPrefix(comps, w.order, |order| + 1);
  }

  /** Position p of the walk at which the i-th called name finished. */
  lemma CalledAt(comps: seq<Component>, edges: Edges, calls: seq<Call>, i: nat) returns (p: nat)
    requires Names(calls) <= CallOrder(comps, edges) && i < |calls|
    ensures var order := Search(edges, Registered(comps)).order;
            && p < |order| && order[p] == calls[i].comp.name
            && Known(comps, order[..p]) == Names(calls)[..i]
  {
    hide Search, Known;
    p := KnownAt(comps, Search(edges, Registered(comps)).order, i);
    assert Names(calls)[i] == CallOrder(comps, edges)[i];
    assert Names(calls)[..i] == CallOrder(comps, edges)[..i];
  }

  /** Every call comes after the calls of all its registered dependencies. */
  ghost predicate DependenciesFirst(comps: seq<Component>, edges: Edges, called: seq<string>) {
    forall i, d | 0 <= i < |called| && d in Deps(edges, called[i]) && IsName(comps, d) :: d in called[..i]
  }

  /** In every run no component is called twice, every registered dependency of a called
      component was called before it, only the last call can have failed, and it has failed
      exactly when the run reports that failure; a run without error called each
      registered component exactly once. */
  lemma RunIsTopological(comps: seq<Component>, edges: Edges, calls: seq<Call>, err: Option<RunError>)
    requires DistinctNames(comps) && GraphRun(comps, edges, calls, err)
    ensures Distinct(Names(calls)) && DependenciesFirst(comps, edges, Names(calls))
    ensures forall i | 0 <= i < |calls| :: calls[i].comp in comps
    ensures forall i | 0 <= i < |calls| :: calls[i].outcome.Failed? ==>
              i == |calls| - 1 && err == Some(ExecutionFailed(calls[i].comp.name, calls[i].outcome.error))
    ensures err.Some? && err.value.ExecutionFailed? ==>
              calls != [] && calls[|calls| - 1].outcome == Failed(err.value.cause)
    ensures err.None? ==> multiset(Names(calls)) == multiset(Registered(comps))
  {
    var called, roots := Names(calls), Registered(comps);
    var order := Search(edges, roots).order;
    CallsFollowWalk(comps, edges, calls, err);
    SearchIsWalked(edges, roots);
    hide Search, GraphRun, Known, IsName, ReachesCycle;
    KnownDistinct(comps, order);
    forall i, d | 0 <= i < |called| && d in Deps(edges, called[i]) && IsName(comps, d) ensures d in called[..i] {
      var p := CalledAt(comps, edges, calls, i);
      KnownHas(comps, order[..p], d);
    }
    if err.None? {
      forall n ensures n in called <==> n in roots {
        KnownHas(comps, order, n);
        RegisteredHas(comps, n);
      }
      RegisteredDistinct(comps);
      DistinctSeqsOfSameElements(called, roots);
    }
  }

  lemma RegisteredHas(comps: seq<Component>, n: string)
    ensures n in Registered(comps) <==> IsName(comps, n)
  {
    if IsName(comps, n) {
      var i :| 0 <= i < |comps| && comps[i].name == n;
      assert Registered(comps)[i] == n;
    }
  }

  lemma RegisteredDistinct(comps: seq<Component>)
    requires DistinctNames(comps)
    ensures Distinct(Registered(comps))
  {
  }

  /** No run ever calls a component that lies on a cycle or needs one. */
  lemma NothingOnACycleIsCalled(comps: seq<Component>, edges: Edges, calls: seq<Call>, err: Option<RunError>, i: nat)
    requires GraphRun(comps, edges, calls, err) && i < |calls|
    ensures !ReachesCycle(edges, calls[i].comp.name)
  {
    CallsFollowWalk(comps, edges, calls, err);
    SearchIsWalked(edges, Registered(comps));
    hide Search, Topological, GraphRun, Known;
    var p := CalledAt(comps, edges, calls, i);
    TopologicalAvoidsCycles(edges, Search(edges, Registered(comps)).order, calls[i].comp.name);
  }

  /** Unless an execution fails, a run reports an error exactly when some component reaches
      a cycle, and the component it names lies on one. */
  lemma CycleReportedExactly(comps: seq<Component>, edges: Edges, calls: seq<Call>, err: Option<RunError>)
    requires GraphRun(comps, edges, calls, err)
    ensures err.Some? && err.value.Circular? ==> OnCycle(edges, err.value.name)
    ensures !(err.Some? && err.value.ExecutionFailed?) ==>
              (err.Some? <==> exists c :: c in comps && ReachesCycle(edges, c.name))
  {
    CallsFollowWalk(comps, edges, calls, err);
    SearchIsWalked(edges, Registered(comps));
    hide Search, OnCycle, ReachesCycle, GraphRun;
    if c :| c in comps && ReachesCycle(edges, c.name) {
      var i :| 0 <= i < |comps| && comps[i] == c;
      assert Registered(comps)[i] == c.name;
    }
    if m :| m in Registered(comps) && ReachesCycle(edges, m) {
      var i :| 0 <= i < |comps| && Registered(comps)[i] == m;
      assert comps[i] in comps;
    }
  }

  lemma {:induction false} HistoryAt(executor: Executor, implements: Implements, calls: seq<Call>, i: nat)
    requires HistoryOk(executor, implements, calls) && i < |calls|
    ensures CallOk(executor, implements, calls[..i], calls[i])
  {
    var front := calls[..|calls| - 1];
    if i < |front| {
      HistoryAt(executor, implements, front, i);
      assert front[..i] == calls[..i];
    }
  }

  /** With an executor that never refuses, the graph executor fails exactly on a cycle
      that some component reaches. */
  lemma NeverRefusingExecutor(comps: seq<Component>, edges: Edges, implements: Implements,
                              respond: (seq<string>, string) -> Option<nat>,
                              earlier: seq<Call>, calls: seq<Call>, err: Option<RunError>)
    requires forall called, n :: respond(called, n).None?
    requires GraphRun(comps, edges, calls, err)
    requires HistoryOk(Substitute(respond), implements, earlier + calls)
    ensures err.Some? <==> exists c :: c in comps && ReachesCycle(edges, c.name)
    ensures err.Some? ==> err.value.Circular?
  {
    CycleReportedExactly(comps, edges, calls, err);
  }

  ghost predicate CalledBefore(calls: seq<Call>, p: string, q: string) {
    exists i, k :: 0 <= i < k < |calls| && calls[i].comp.name == p && calls[k].comp.name == q
  }

  /** What the search finishes first is called first. */
  lemma KnownBefore(comps: seq<Component>, order: seq<string>, p: string, q: string)
    requires Before(order, p, q) && IsName(comps, p) && IsName(comps, q)
    ensures Before(Known(comps, order), p, q)
  {
    hide IsName;
    var i, k :| 0 <= i < k < |order| && order[i] == p && order[k] == q;
    assert order[..k + 1][..k] == order[..k] && order[..k][i] == p;
    KnownHas(comps, order[..k], p);
    KnownPrefix(comps, order, k + 1);
    var known := Known(comps, order[..k]);
    assert known + [q] <= Known(comps, order);
    BeforeAt(Known(comps, order), p, |known|);
  }

  lemma CallOrderIsDistinct(comps: seq<Component>, edges: Edges)
    ensures Distinct(CallOrder(comps, edges))
    ensures forall n | n in CallOrder(comps, edges) :: IsName(comps, n)
  {
    var order := Search(edges, Registered(comps)).order;
    SearchIsWalked(edges, Registered(comps));
    hide Search, IsName;
    KnownDistinct(comps, order);
    forall n | n in CallOrder(comps, edges) ensures IsName(comps, n) {
      KnownHas(comps, order, n);
    }
  }

  /** What a component needs is called before it, and what is needed earlier in registration
      order is called before what is needed only later. */
  lemma CalledFirst(comps: seq<Component>, edges: Edges, p: string, q: string)
    requires q in CallOrder(comps, edges) && IsName(comps, p)
    requires (p != q && Reaches(edges, q, p)) || NeededEarlier(edges, Registered(comps), p, q)
    ensures Before(CallOrder(comps, edges), p, q)
  {
    var order := Search(edges, Registered(comps)).order;
    SearchIsWalked(edges, Registered(comps));
    KnownHas(comps, order, q);
    hide Search, IsName, Known, Reaches, NeededEarlier, Before, Topological;
    if NeededEarlier(edges, Registered(comps), p, q) {
      NeededEarlierStandsBefore(edges, Registered(comps), p, q);
    } else {
      NeededStandsBefore(edges, order, p, q);
    }
    KnownBefore(comps, order, p, q);
  }

  /** The calls of a run have the order of the search. */
  lemma CallsKeepOrder(comps: seq<Component>, edges: Edges, calls: seq<Call>, p: string, k: nat)
    requires Names(calls) <= CallOrder(comps, edges) && k < |calls|
    ensures p in Names(calls)[..k] <==> Before(CallOrder(comps, edges), p, calls[k].comp.name)
  {
    CallOrderIsDistinct(comps, edges);
    hide Known, CallOrder, IsName;
    var called, order := Names(calls), CallOrder(comps, edges);
    assert called[k] == order[k] && called[..k] == order[..k];
    if p in called[..k] {
      BeforeAt(order, p, k);
    }
    if Before(order, p, called[k]) {
      var i, l :| 0 <= i < l < |order| && order[i] == p && order[l] == called[k];
      assert l == k && order[..k][i] == p;
    }
  }

  lemma CalledEarlier(comps: seq<Component>, edges: Edges, calls: seq<Call>, p: string, k: nat)
    requires Names(calls) <= CallOrder(comps, edges) && k < |calls|
    requires Before(CallOrder(comps, edges), p, calls[k].comp.name)
    ensures CalledBefore(calls, p, calls[k].comp.name)
  {
    CallsKeepOrder(comps, edges, calls, p, k);
    hide Before, CallOrder;
    var h :| 0 <= h < k && Names(calls)[..k][h] == p;
    assert Names(calls)[h] == p;
  }

  /** A component that q needs, directly or not, is called before q in every run that calls q. */
  lemma NeededRunsBefore(comps: seq<Component>, edges: Edges, calls: seq<Call>, err: Option<RunError>, p: string,
                         k: nat)
    requires GraphRun(comps, edges, calls, err) && k < |calls| && IsName(comps, p)
    requires p != calls[k].comp.name && Reaches(edges, calls[k].comp.name, p)
    ensures CalledBefore(calls, p, calls[k].comp.name)
  {
    CallsFollowWalk(comps, edges, calls, err);
    hide CallOrder, Before, GraphRun, Reaches, IsName, CalledBefore;
    assert Names(calls)[k] in CallOrder(comps, edges);
    CalledFirst(comps, edges, p, calls[k].comp.name);
    CalledEarlier(comps, edges, calls, p, k);
  }

  /** What is needed earlier in registration order is called first, in every run that calls
      the other component. */
  lemma NeededEarlierRunsBefore(comps: seq<Component>, edges: Edges, calls: seq<Call>, err: Option<RunError>,
                                p: string, k: nat)
    requires GraphRun(comps, edges, calls, err) && k < |calls| && IsName(comps, p)
    requires NeededEarlier(edges, Registered(comps), p, calls[k].comp.name)
    ensures CalledBefore(calls, p, calls[k].comp.name)
  {
    CallsFollowWalk(comps, edges, calls, err);
    hide CallOrder, Before, GraphRun, NeededEarlier, IsName, CalledBefore;
    assert Names(calls)[k] in CallOrder(comps, edges);
    CalledFirst(comps, edges, p, calls[k].comp.name);
    CalledEarlier(comps, edges, calls, p, k);
  }
}
