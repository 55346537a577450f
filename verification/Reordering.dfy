/** Lists of constructors in another order, behind the constructors that the framework
    registers first; and orders that bring some of them to the front. */
module Reordering {
  import opened Options
  import opened Graph
  import opened DepthFirst
  import opened CompositeModel
  import opened CompositeOrder
  import opened CompositeValues
  import opened CompositeSuccess
  import opened CompositeRearrangement
  import opened CompositePrecedence
  import opened CompositeRegistry

  // ---------------------------------------------------------------- lists of constructors

  /** The same constructors in another order. */
  ghost predicate Reordered(ctors: seq<Constructor>, ctors': seq<Constructor>, b: Bijection) {
    && |ctors| == |ctors'| && IsBijection(b, |ctors|)
    && forall i | 0 <= i < |ctors'| :: ctors'[i] == ctors[b.to[i]]
  }

  /** Constructors of the same signatures, with any titles and any Apply methods. */
  ghost predicate SameSignatures(ctors: seq<Constructor>, ctors': seq<Constructor>) {
    && |ctors| == |ctors'|
    && forall i | 0 <= i < |ctors| ::
         && ctors[i].Constructor? && ctors'[i].Constructor?
         && ctors[i].consumes == ctors'[i].consumes && ctors[i].produces == ctors'[i].produces
  }

  function Identity(n: nat): Bijection {
    Bijection(seq(n, i => i), seq(n, i => i))
  }

  lemma ReorderedComponents(ctors: seq<Constructor>, ctors': seq<Constructor>, b: Bijection)
    requires AllUsable(ctors) && Reordered(ctors, ctors', b)
    ensures AllUsable(ctors') && Rearranged(Components(ctors), Components(ctors'), b)
  {
    ComponentsHaveDistinctNames(ctors);
    forall i | 0 <= i < |ctors'| ensures ctors'[i].Constructor? {
      assert ctors'[i] == ctors[b.to[i]];
    }
    ComponentsHaveDistinctNames(ctors');
    hide DistinctNames, IndexedName;
    var comps, comps' := Components(ctors), Components(ctors');
    forall i | 0 <= i < |comps'| ensures Alike(comps[b.to[i]], comps'[i]) && comps[b.to[i]].apply == comps'[i].apply {
      assert ctors'[i] == ctors[b.to[i]];
    }
  }

  lemma SameSignaturesMatch(ctors: seq<Constructor>, ctors': seq<Constructor>)
    requires SameSignatures(ctors, ctors')
    ensures AllUsable(ctors) && AllUsable(ctors')
    ensures Matched(Components(ctors), Components(ctors'), Identity(|ctors|))
    ensures Matched(Components(ctors'), Components(ctors), Identity(|ctors|))
  {
    ComponentsHaveDistinctNames(ctors);
    ComponentsHaveDistinctNames(ctors');
    hide DistinctNames, IndexedName;
  }

  lemma IdentityKeepsHead(n: nat, h: nat)
    requires h <= n
    ensures KeepsHead(Identity(n), h) && IsBijection(Identity(n), n)
  {
  }

  /** The number of constructors that the framework registers before all others. */
  const FRAMEWORK: nat := 2

  /** The constructors of a composite, the built-in ones first. */
  function Whole(context: Value, factory: Value, ctors: seq<Constructor>): (r: seq<Constructor>)
    ensures |r| == FRAMEWORK + |ctors|
  {
    Builtins(context, factory) + ctors
  }

  lemma WholeIsUsable(context: Value, factory: Value, ctors: seq<Constructor>)
    ensures AllUsable(Whole(context, factory, ctors)) <==> AllUsable(ctors)
  {
    var all := Whole(context, factory, ctors);
    if AllUsable(all) {
      forall i | 0 <= i < |ctors| ensures ctors[i].Constructor? {
        assert all[FRAMEWORK + i] == ctors[i];
      }
    }
  }

  /** The built-in components need nothing that others produce, if the context is produced once. */
  lemma FrameworkIsFirst(context: Value, factory: Value, ctors: seq<Constructor>)
    requires AllUsable(Whole(context, factory, ctors))
    requires UniqueSingles(Components(Whole(context, factory, ctors)))
    ensures DistinctNames(Components(Whole(context, factory, ctors)))
    ensures HeadFirst(Components(Whole(context, factory, ctors)), FRAMEWORK)
  {
    var comps := Components(Whole(context, factory, ctors));
    ComponentsHaveDistinctNames(Whole(context, factory, ctors));
    assert comps[0].consumes == [] && comps[1].consumes == [CONTEXT];
    assert comps[0].produces == Some(CONTEXT) && comps[1].produces == Some(CHART_FACTORY);
    hide Whole, Components, Builtins, IndexedName, DistinctNames, Producers;
    assert comps[1] in comps && CONTEXT in comps[1].consumes;
    UniqueAt(comps, comps[1], CONTEXT);
    var i := OneProducer(comps, 1, CONTEXT);
    assert Feeds(comps, 0, 1, CONTEXT);
    forall k | 0 <= k < |comps| ensures comps[k].produces == Some(CONTEXT) <==> k == 0 {
      assert Feeds(comps, k, 1, CONTEXT) ==> k == i;
    }
    HeadOfTwo(comps);
  }

  lemma HeadOfTwo(comps: seq<Component>)
    requires DistinctNames(comps) && |comps| >= 2 && comps[0].consumes == [] && comps[1].consumes == [CONTEXT]
    requires forall k | 0 <= k < |comps| :: comps[k].produces == Some(CONTEXT) <==> k == 0
    ensures HeadFirst(comps, FRAMEWORK)
  {
    hide DistinctNames, InferredEdges;
    assert Feeds(comps, 0, 1, Wanted(CONTEXT)) && CONTEXT in comps[1].consumes;
    FeedsIsEdge(comps, 0, 1, CONTEXT);
    EdgeReaches(InferredEdges(comps), comps[1].name, comps[0].name);
    forall i, k | 0 <= i < FRAMEWORK <= k < |comps| ensures !Needs(comps, i, k) {
      if Needs(comps, i, k) {
        var p :| PathFromTo(InferredEdges(comps), p, comps[i].name, comps[k].name);
        StaysInHead(comps, p, i);
        NamesDiffer(comps, 0, k);
        NamesDiffer(comps, 1, k);
      }
    }
  }

  /** Paths from the first two components end there. */
  lemma {:induction false} StaysInHead(comps: seq<Component>, p: seq<string>, i: nat)
    requires DistinctNames(comps) && |comps| >= 2 && comps[0].consumes == [] && comps[1].consumes == [CONTEXT]
    requires forall k | 0 <= k < |comps| :: comps[k].produces == Some(CONTEXT) <==> k == 0
    requires i < 2 && IsPath(InferredEdges(comps), p) && p[0] == comps[i].name
    ensures p[|p| - 1] == comps[0].name || p[|p| - 1] == comps[1].name
    decreases |p|
  {
    hide DistinctNames, InferredEdges;
    if |p| > 1 {
      assert p[1] in Deps(InferredEdges(comps), p[0]);
      var k, t := EdgeOfPosition(comps, i, p[1]);
      forall l | 0 <= l < |p[1..]| - 1 ensures p[1..][l + 1] in Deps(InferredEdges(comps), p[1..][l]) {
        assert p[l + 2] in Deps(InferredEdges(comps), p[l + 1]);
      }
      StaysInHead(comps, p[1..], k);
    }
  }

  // ---------------------------------------------------------------- bringing some to the front

  /** The numbers below n that are in the set, or those that are not, in increasing order. */
  ghost function Picked(n: nat, front: set<nat>, wanted: bool): seq<nat> {
    if n == 0 then []
    else Picked(n - 1, front, wanted) + if (n - 1 in front) == wanted then [n - 1] else []
  }

  lemma {:induction false} PickedAre(n: nat, front: set<nat>, wanted: bool)
    ensures forall i :: i in Picked(n, front, wanted) <==> 0 <= i < n && (i in front) == wanted
    ensures Distinct(Picked(n, front, wanted))
  {
    if n > 0 {
      PickedAre(n - 1, front, wanted);
    }
  }

  lemma {:induction false} AllPicked(n: nat, front: set<nat>)
    ensures |Picked(n, front, true)| + |Picked(n, front, false)| == n
  {
    if n > 0 {
      AllPicked(n - 1, front);
    }
  }

  lemma {:induction false} HeadIsPicked(n: nat, front: set<nat>, h: nat, i: nat)
    requires i < h <= n && forall k: nat | k < h :: k in front
    ensures i < |Picked(n, front, true)| && Picked(n, front, true)[i] == i
    decreases n
  {
    if n > h {
      HeadIsPicked(n - 1, front, h, i);
    } else {
      AllInFront(n, front);
    }
  }

  lemma {:induction false} AllInFront(n: nat, front: set<nat>)
    requires forall k: nat | k < n :: k in front
    ensures |Picked(n, front, true)| == n && forall i | 0 <= i < n :: Picked(n, front, true)[i] == i
  {
    if n > 0 {
      AllInFront(n - 1, front);
    }
  }

  ghost function IndexOf(s: seq<nat>, x: nat): (i: nat)
    requires x in s
    ensures i < |s| && s[i] == x
  {
    var i :| 0 <= i < |s| && s[i] == x;
    i
  }

  /** Distinct numbers below n, as many as n, are all of them. */
  lemma InverseOf(to: seq<nat>, n: nat) returns (b: Bijection)
    requires |to| == n && Distinct(to) && (forall i | 0 <= i < n :: to[i] < n) && forall i: nat | i < n :: i in to
    ensures b.to == to && IsBijection(b, n)
  {
    b := Bijection(to, seq(n, i requires 0 <= i < n => IndexOf(to, i)));
  }

  lemma {:induction false} PickedInTwo(n: nat, front: set<nat>, wider: set<nat>)
    requires front <= wider
    ensures |Picked(n, wider, true)| == |Picked(n, front, true)| + |Picked(n, wider - front, true)|
  {
    if n > 0 {
      PickedInTwo(n - 1, front, wider);
    }
  }

  ghost predicate FrontComesFirst(to: seq<nat>, front: set<nat>) {
    forall i, k | 0 <= i < k < |to| && to[k] in front :: to[i] in front
  }

  /** An order in which the positions of a set come first, among them the head, which stays, and
      those of a wider set before the rest. */
  lemma FrontedOrder(n: nat, front: set<nat>, wider: set<nat>, h: nat) returns (b: Bijection)
    requires h <= n && front <= wider && forall k: nat | k < h :: k in front
    ensures IsBijection(b, n) && KeepsHead(b, h) && FrontComesFirst(b.to, front) && FrontComesFirst(b.to, wider)
  {
    hide *;
    var first, more, last := Picked(n, front, true), Picked(n, wider - front, true), Picked(n, wider, false);
    PartsCover(n, front, wider);
    b := PartsMakeOrder(first + more, last, n);
    BackAndForth(b, n, 0);
    OthersAreBehind(n, front, wider);
    PartsComeFirst(first, more + last, front);
    PartsComeFirst(first + more, last, wider);
    assert first + (more + last) == first + more + last;
    KeptHead(n, front, h, first, b);
  }

  lemma PartsCover(n: nat, front: set<nat>, wider: set<nat>)
    requires front <= wider
    ensures var first, more, last := Picked(n, front, true), Picked(n, wider - front, true), Picked(n, wider, false);
            && Distinct(first + more) && Distinct(last) && |first + more| + |last| == n
            && (forall i: nat :: i in first + more <==> i < n && i in wider)
            && (forall i: nat :: i in last <==> i < n && i !in wider)
            && forall i: nat :: i in first ==> i in front
  {
    var first, more := Picked(n, front, true), Picked(n, wider - front, true);
    PickedAre(n, front, true);
    PickedAre(n, wider - front, true);
    PickedAre(n, wider, false);
    AllPicked(n, wider);
    PickedInTwo(n, front, wider);
    hide Picked, Distinct;
    JoinIsDistinct(first, more);
    JoinHas(first, more);
  }

  lemma OthersAreBehind(n: nat, front: set<nat>, wider: set<nat>)
    requires front <= wider
    ensures forall i: nat :: i in Picked(n, wider - front, true) + Picked(n, wider, false) ==> i !in front
  {
    PickedAre(n, wider - front, true);
    PickedAre(n, wider, false);
    hide Picked, Distinct;
    JoinHas(Picked(n, wider - front, true), Picked(n, wider, false));
  }

  lemma JoinHas(s: seq<nat>, t: seq<nat>)
    ensures forall i: nat :: i in s + t <==> i in s || i in t
  {
  }

  lemma PartsComeFirst(s: seq<nat>, t: seq<nat>, front: set<nat>)
    requires (forall i | i in s :: i in front) && forall i | i in t :: i !in front
    ensures FrontComesFirst(s + t, front)
  {
    forall i, k | 0 <= i < k < |s + t| && (s + t)[k] in front ensures (s + t)[i] in front {
      JoinAt(s, t, i);
      JoinAt(s, t, k);
    }
  }

  lemma KeptHead(n: nat, front: set<nat>, h: nat, first: seq<nat>, b: Bijection)
    requires first == Picked(n, front, true) && IsBijection(b, n) && first <= b.to
    requires h <= n && forall k: nat | k < h :: k in front
    ensures KeepsHead(b, h)
  {
    hide Picked, IsBijection;
    BackAndForth(b, n, 0);
    forall i | 0 <= i < h ensures b.to[i] == i && b.from[i] == i {
      HeadIsPicked(n, front, h, i);
      BackAndForth(b, n, i);
    }
  }

  lemma BackAndForth(b: Bijection, n: nat, i: nat)
    requires IsBijection(b, n)
    ensures |b.to| == |b.from| == n
    ensures i < n ==> b.to[i] < n && b.from[b.to[i]] == i
  {
  }

  /** Two parts that hold the numbers below n make an order of them. */
  lemma PartsMakeOrder(first: seq<nat>, last: seq<nat>, n: nat) returns (b: Bijection)
    requires Distinct(first) && Distinct(last) && |first| + |last| == n
    requires forall i: nat :: i in first ==> i !in last
    requires forall i: nat :: i < n <==> i in first || i in last
    ensures IsBijection(b, n) && b.to == first + last
  {
    var to := first + last;
    JoinIsDistinct(first, last);
    hide Distinct;
    forall i | 0 <= i < n ensures to[i] < n {
      JoinAt(first, last, i);
    }
    b := InverseOf(to, n);
  }

  lemma JoinAt(s: seq<nat>, t: seq<nat>, i: nat)
    requires i < |s + t|
    ensures if i < |s| then (s + t)[i] == s[i] && (s + t)[i] in s else (s + t)[i] in t
  {
    assert i < |s| ==> (s + t)[i] == s[i];
    assert i >= |s| ==> (s + t)[i] == t[i - |s|];
  }

  lemma JoinIsDistinct(s: seq<nat>, t: seq<nat>)
    requires Distinct(s) && Distinct(t) && forall i | i in s :: i !in t
    ensures Distinct(s + t)
  {
    forall i, k | 0 <= i < k < |s + t| ensures (s + t)[i] != (s + t)[k] {
      if i < |s| && k >= |s| {
        assert s[i] in s && t[k - |s|] in t;
      }
    }
  }

  /** The constructors in the given order, behind those of the framework. */
  ghost function Permuted(context: Value, factory: Value, ctors: seq<Constructor>, b: Bijection): (r: seq<Constructor>)
    requires IsBijection(b, FRAMEWORK + |ctors|)
    ensures |r| == |ctors|
  {
    var all := Whole(context, factory, ctors);
    seq(|ctors|, i requires 0 <= i < |ctors| => all[b.to[FRAMEWORK + i]])
  }

  lemma PermutedIsReordered(context: Value, factory: Value, ctors: seq<Constructor>, b: Bijection)
    requires IsBijection(b, FRAMEWORK + |ctors|) && KeepsHead(b, FRAMEWORK)
    ensures Reordered(Whole(context, factory, ctors), Whole(context, factory, Permuted(context, factory, ctors, b)), b)
  {
    var all, all' := Whole(context, factory, ctors), Whole(context, factory, Permuted(context, factory, ctors, b));
    hide Whole, Permuted;
    forall i | 0 <= i < |all'| ensures all'[i] == all[b.to[i]] {
      PermutedAt(context, factory, ctors, b, i);
    }
  }

  lemma PermutedAt(context: Value, factory: Value, ctors: seq<Constructor>, b: Bijection, i: nat)
    requires IsBijection(b, FRAMEWORK + |ctors|) && KeepsHead(b, FRAMEWORK) && i < FRAMEWORK + |ctors|
    ensures Whole(context, factory, Permuted(context, factory, ctors, b))[i] == Whole(context, factory, ctors)[b.to[i]]
  {
    hide Builtins;
    if i >= FRAMEWORK {
      assert Whole(context, factory, Permuted(context, factory, ctors, b))[i]
        == Permuted(context, factory, ctors, b)[i - FRAMEWORK];
    }
  }

  /** What is at the front is called before whatever nothing at the front needs. */
  lemma FrontRunsFirst(comps: seq<Component>, comps': seq<Component>, b: Bijection, front: set<nat>, p: nat, q: nat)
    requires Matched(comps, comps', b) && p < |comps'| && q < |comps'| && comps'[q].name in Schedule(comps')
    requires FrontComesFirst(b.to, front)
    requires b.to[p] in front && forall m: nat | m in front :: !Needs(comps, m, b.to[q])
    ensures Before(Schedule(comps'), comps'[p].name, comps'[q].name)
  {
    MatchedIsDistinct(comps, comps', b);
    hide InferredEdges, Schedule, CallOrder, Matched, DistinctNames, IsName, Before, NeededEarlier;
    FrontIsNeededFirst(comps, comps', b, front, p, q);
    assert IsName(comps', comps'[p].name) by { NameAt(comps', p); }
    ScheduleIsCallOrder(comps');
    CalledFirst(comps', InferredEdges(comps'), comps'[p].name, comps'[q].name);
  }

  lemma NameAt(comps: seq<Component>, i: nat)
    requires i < |comps|
    ensures IsName(comps, comps[i].name)
  {
  }

  lemma FrontIsNeededFirst(comps: seq<Component>, comps': seq<Component>, b: Bijection, front: set<nat>, p: nat, q: nat)
    requires Matched(comps, comps', b) && p < |comps'| && q < |comps'|
    requires FrontComesFirst(b.to, front)
    requires b.to[p] in front && forall m: nat | m in front :: !Needs(comps, m, b.to[q])
    ensures NeededEarlier(InferredEdges(comps'), Registered(comps'), comps'[p].name, comps'[q].name)
  {
    var edges, roots := InferredEdges(comps'), Registered(comps');
    MatchedIsDistinct(comps, comps', b);
    ReachesSelf(edges, comps'[p].name);
    assert roots[p] == comps'[p].name;
    hide InferredEdges, Matched, DistinctNames, Reaches;
    forall m | 0 <= m <= p ensures !Reaches(edges, roots[m], comps'[q].name) {
      assert b.to[m] in front && roots[m] == comps'[m].name;
      if Needs(comps', m, q) {
        NeedsForth(comps, comps', b, m, q);
      }
    }
    assert NeededFirstBy(edges, roots, comps'[p].name, comps'[q].name, p);
  }
}
