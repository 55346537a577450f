/** Which components are called before which in every order of registration. The first
    components of a list may be fixed there, as the framework does with its own. */
module CompositePrecedence {
  import opened Options
  import opened Graph
  import opened DepthFirst
  import opened CompositeModel
  import opened CompositeSearch
  import opened CompositeOrder
  import opened CompositeValues
  import opened CompositeSuccess
  import opened CompositeRearrangement

  ghost predicate Needs(comps: seq<Component>, i: int, j: int)
    requires DistinctNames(comps)
  {
    0 <= i < |comps| && 0 <= j < |comps| && Reaches(InferredEdges(comps), comps[i].name, comps[j].name)
  }

  /** The first h components need nothing else, and of any two of them one needs the other. */
  ghost predicate HeadFirst(comps: seq<Component>, h: nat)
    requires DistinctNames(comps)
  {
    && h <= |comps|
    && (forall i, k | 0 <= i < h <= k < |comps| :: !Needs(comps, i, k))
    && forall i, k | 0 <= i < k < h :: Needs(comps, i, k) || Needs(comps, k, i)
  }

  /** The rearrangement leaves the first h components where they are. */
  ghost predicate KeepsHead(b: Bijection, h: nat) {
    h <= |b.to| && h <= |b.from| && forall i | 0 <= i < h :: b.to[i] == i && b.from[i] == i
  }

  /** In every order of registration, the component at i is called before the one at k. */
  ghost predicate Fixed(comps: seq<Component>, h: nat, i: int, k: int)
    requires DistinctNames(comps)
  {
    0 <= i < |comps| && 0 <= k < |comps| && i != k && (Needs(comps, k, i) || i < h <= k)
  }

  lemma FixedIsBefore(comps: seq<Component>, h: nat, i: nat, k: nat)
    requires DistinctNames(comps) && HeadFirst(comps, h) && Fixed(comps, h, i, k) && comps[k].name in Schedule(comps)
    ensures Before(Schedule(comps), comps[i].name, comps[k].name)
  {
    var edges, roots := InferredEdges(comps), Registered(comps);
    assert IsName(comps, comps[i].name);
    ReachesSelf(edges, comps[i].name);
    hide Schedule, InferredEdges, CallOrder, Before, IsName, Reaches, DistinctNames;
    if Needs(comps, k, i) {
      NamesDiffer(comps, i, k);
    } else {
      forall m | 0 <= m <= i ensures !Reaches(edges, roots[m], comps[k].name) {
        assert !Needs(comps, m, k) && roots[m] == comps[m].name;
      }
      assert roots[i] == comps[i].name;
      assert NeededFirstBy(edges, roots, comps[i].name, comps[k].name, i);
    }
    ScheduleIsCallOrder(comps);
    CalledFirst(comps, edges, comps[i].name, comps[k].name);
  }

  lemma ScheduleIsCallOrder(comps: seq<Component>)
    requires DistinctNames(comps)
    ensures Schedule(comps) == CallOrder(comps, InferredEdges(comps))
  {
  }

  lemma NamesDiffer(comps: seq<Component>, i: nat, j: nat)
    requires DistinctNames(comps) && i < |comps| && j < |comps| && i != j
    ensures comps[i].name != comps[j].name
  {
  }

  lemma FixedNotAfter(comps: seq<Component>, h: nat, i: nat, k: nat)
    requires DistinctNames(comps) && HeadFirst(comps, h) && Fixed(comps, h, i, k)
    ensures !Before(Schedule(comps), comps[k].name, comps[i].name)
  {
    if Before(Schedule(comps), comps[k].name, comps[i].name) {
      hide InferredEdges, CallOrder, HeadFirst, DistinctNames;
      FixedIsBefore(comps, h, i, k);
      CallOrderIsDistinct(comps, InferredEdges(comps));
      OneWayOnly(Schedule(comps), comps[i].name, comps[k].name);
    }
  }

  // ---------------------------------------------------------------- conditions on components

  ghost predicate MayReturnNil(c: Component) {
    c.produces.Some? && exists args :: c.apply(args) == Success(Nil)
  }

  /** Every other component that takes an interface is always called before. */
  ghost predicate ConsumersFirst(comps: seq<Component>, h: nat, q: int)
    requires DistinctNames(comps)
  {
    forall c | 0 <= c < |comps| && c != q && ConsumesInterface(comps[c]) :: Fixed(comps, h, c, q)
  }

  /** Some component that takes an interface is always called later. */
  ghost predicate ConsumerLater(comps: seq<Component>, h: nat, q: int)
    requires DistinctNames(comps)
  {
    exists c :: 0 <= c < |comps| && ConsumesInterface(comps[c]) && Fixed(comps, h, q, c)
  }

  /** A result of the component that is nil does harm in every order or in none. */
  ghost predicate NilsSafe(comps: seq<Component>, h: nat)
    requires DistinctNames(comps)
  {
    forall q | 0 <= q < |comps| && MayReturnNil(comps[q]) :: ConsumersFirst(comps, h, q) || ConsumerLater(comps, h, q)
  }

  /** Other implementers of an interface are always called after what takes it. */
  ghost predicate ImplementersSafe(comps: seq<Component>, h: nat, implements: Implements)
    requires DistinctNames(comps)
  {
    forall q, c, t | 0 <= q < |comps| && 0 <= c < |comps| && q != c
      && OtherImplementer(implements, comps[q], comps[c], t) ::
      Fixed(comps, h, c, q)
  }

  lemma SafeIsSettled(comps: seq<Component>, h: nat, implements: Implements)
    requires DistinctNames(comps) && HeadFirst(comps, h) && ImplementersSafe(comps, h, implements)
    ensures InterfacesSettled(comps, implements)
  {
    CallOrderIsDistinct(comps, InferredEdges(comps));
    hide InferredEdges, CallOrder, HeadFirst, Fixed, OtherImplementer, DistinctNames;
    forall c, q, t | c in comps && q in comps && OtherImplementer(implements, q, c, t)
      ensures !Before(Schedule(comps), q.name, c.name)
    {
      var i :| 0 <= i < |comps| && comps[i] == c;
      var k :| 0 <= k < |comps| && comps[k] == q;
      if i == k {
        OneWayOnly(Schedule(comps), c.name, c.name);
      } else {
        FixedNotAfter(comps, h, i, k);
      }
    }
  }

  // ---------------------------------------------------------------- other orders of registration

  lemma NeedsBack(comps: seq<Component>, comps': seq<Component>, b: Bijection, i: nat, j: nat)
    requires Matched(comps, comps', b) && i < |comps'| && j < |comps'| && Needs(comps, b.to[i], b.to[j])
    ensures Needs(comps', i, j)
  {
    InverseMatches(comps, comps', b);
    NeedsCarries(comps', comps, Inverse(b), b.to[i], b.to[j]);
  }

  lemma NeedsForth(comps: seq<Component>, comps': seq<Component>, b: Bijection, i: nat, j: nat)
    requires Matched(comps, comps', b) && i < |comps'| && j < |comps'| && Needs(comps', i, j)
    ensures Needs(comps, b.to[i], b.to[j])
  {
    InRange(comps, comps', b, i);
    InRange(comps, comps', b, j);
    hide InferredEdges, Reaches, DistinctNames;
    NeedsCarries(comps, comps', b, i, j);
  }

  lemma HeadCarries(comps: seq<Component>, comps': seq<Component>, b: Bijection, h: nat)
    requires Matched(comps, comps', b) && KeepsHead(b, h) && HeadFirst(comps, h)
    ensures HeadFirst(comps', h)
  {
    hide Needs, DistinctNames, Alike;
    forall i, k | 0 <= i < h <= k < |comps'| ensures !Needs(comps', i, k) {
      assert b.from[b.to[k]] == k;
      if Needs(comps', i, k) {
        NeedsForth(comps, comps', b, i, k);
      }
    }
    forall i, k | 0 <= i < k < h ensures Needs(comps', i, k) || Needs(comps', k, i) {
      if Needs(comps, i, k) {
        NeedsBack(comps, comps', b, i, k);
      } else {
        NeedsBack(comps, comps', b, k, i);
      }
    }
  }

  lemma FixedCarries(comps: seq<Component>, comps': seq<Component>, b: Bijection, h: nat, i: nat, k: nat)
    requires Matched(comps, comps', b) && KeepsHead(b, h) && i < |comps'| && k < |comps'|
    ensures Fixed(comps', h, i, k) <==> Fixed(comps, h, b.to[i], b.to[k])
  {
    hide Needs, DistinctNames, Alike;
    assert b.from[b.to[i]] == i && b.from[b.to[k]] == k;
    assert (i < h <==> b.to[i] < h) && (k < h <==> b.to[k] < h);
    if Needs(comps', k, i) { NeedsForth(comps, comps', b, k, i); }
    if Needs(comps, b.to[k], b.to[i]) { NeedsBack(comps, comps', b, k, i); }
  }

  lemma ConsumersFirstCarries(comps: seq<Component>, comps': seq<Component>, b: Bijection, h: nat, q: nat)
    requires Matched(comps, comps', b) && KeepsHead(b, h) && q < |comps'| && ConsumersFirst(comps, h, b.to[q])
    ensures ConsumersFirst(comps', h, q)
  {
    hide Fixed, DistinctNames;
    forall c | 0 <= c < |comps'| && c != q && ConsumesInterface(comps'[c]) ensures Fixed(comps', h, c, q) {
      InRange(comps, comps', b, c);
      FixedCarries(comps, comps', b, h, c, q);
      assert b.to[c] != b.to[q] && ConsumesInterface(comps[b.to[c]]);
    }
  }

  lemma ImplementersSafeCarries(comps: seq<Component>, comps': seq<Component>, b: Bijection, h: nat,
                                implements: Implements)
    requires Rearranged(comps, comps', b) && KeepsHead(b, h) && ImplementersSafe(comps, h, implements)
    ensures ImplementersSafe(comps', h, implements)
  {
    hide Fixed, DistinctNames, Satisfies, KeepsHead;
    forall q, c, t | 0 <= q < |comps'| && 0 <= c < |comps'| && q != c
      && OtherImplementer(implements, comps'[q], comps'[c], t)
      ensures Fixed(comps', h, c, q)
    {
      InRange(comps, comps', b, c);
      InRange(comps, comps', b, q);
      FixedCarries(comps, comps', b, h, c, q);
      ImplementerIsBehaviour(implements, comps[b.to[q]], comps'[q], t);
      assert OtherImplementer(implements, comps[b.to[q]], comps[b.to[c]], t);
    }
  }

  lemma ImplementerIsBehaviour(implements: Implements, q: Component, q': Component, t: Type)
    requires q.apply == q'.apply && CanReturnImplementer(implements, q', t)
    ensures CanReturnImplementer(implements, q, t)
  {
    hide Satisfies;
  }

  /** What returned nil in a run that succeeded is always called after everything else that takes an interface. */
  lemma NilIsLate(comps: seq<Component>, h: nat, implements: Implements, calls: seq<Call>, k: nat, q: nat)
    requires FreshRun(comps, implements, calls, None) && HeadFirst(comps, h) && NilsSafe(comps, h)
    requires k < |calls| && q < |comps| && calls[k].comp == comps[q] && calls[k].outcome == Returned(Nil)
    requires comps[q].produces.Some?
    ensures ConsumersFirst(comps, h, q)
  {
    CallsInOrder(comps, implements, calls, None);
    CallsFollowSchedule(comps, implements, calls, None);
    hide FreshRun, DependenciesFirst, CallOk, Schedule, Fixed, HeadFirst, ConsumersFirst, DistinctNames,
      ConsumesInterface;
    ReturnedUnlessFailed(implements, calls[..k], calls[k]);
    assert MayReturnNil(comps[q]);
    if ConsumerLater(comps, h, q) {
      var c :| 0 <= c < |comps| && ConsumesInterface(comps[c]) && Fixed(comps, h, q, c);
      assert comps[c] in comps;
      var i := CallOfComponent(comps, implements, calls, comps[c]);
      NoNilWasStored(comps, implements, calls, None, i);
      assert Names(calls)[i] == comps[c].name;
      FixedIsBefore(comps, h, q, c);
      CalledWhenBefore(comps, implements, calls, None, k, i);
      assert OutputOf(calls, i, comps[q], Nil);
      OutputIsStored(calls, i, comps[q], Nil);
    }
  }

  /** Of two calls of a run, the one of the component that the schedule has first comes first. */
  lemma CalledWhenBefore(comps: seq<Component>, implements: Implements, calls: seq<Call>, err: Option<CompositeError>,
                         h: nat, k: nat)
    requires FreshRun(comps, implements, calls, err) && h < |calls| && k < |calls|
    requires Before(Schedule(comps), calls[h].comp.name, calls[k].comp.name)
    ensures h < k
  {
    FreshIsDistinct(comps, implements, calls, err);
    hide FreshRun, CallOrder, InferredEdges, DistinctNames, Before;
    CallsFollowSchedule(comps, implements, calls, err);
    CallOrderIsDistinct(comps, InferredEdges(comps));
    OneWayOnly(Schedule(comps), calls[h].comp.name, calls[k].comp.name);
    OneWayOnly(Schedule(comps), calls[k].comp.name, calls[k].comp.name);
  }

  // ---------------------------------------------------------------- two orders to compare

  lemma NilsSafeCarries(comps: seq<Component>, comps': seq<Component>, b: Bijection, h: nat)
    requires Rearranged(comps, comps', b) && KeepsHead(b, h) && NilsSafe(comps, h)
    ensures NilsSafe(comps', h)
  {
    hide DistinctNames, ConsumersFirst, Fixed, KeepsHead;
    forall q | 0 <= q < |comps'| && MayReturnNil(comps'[q])
      ensures ConsumersFirst(comps', h, q) || ConsumerLater(comps', h, q) {
      InRange(comps, comps', b, q);
      NilIsBehaviour(comps[b.to[q]], comps'[q]);
      if ConsumersFirst(comps, h, b.to[q]) {
        ConsumersFirstCarries(comps, comps', b, h, q);
      } else {
        var c :| 0 <= c < |comps| && ConsumesInterface(comps[c]) && Fixed(comps, h, b.to[q], c);
        assert b.from[c] < |comps'| && b.to[b.from[c]] == c;
        InRange(comps, comps', b, b.from[c]);
        FixedCarries(comps, comps', b, h, q, b.from[c]);
        assert ConsumesInterface(comps'[b.from[c]]);
      }
    }
  }

  lemma NilIsBehaviour(q: Component, q': Component)
    requires q.apply == q'.apply && q.produces == q'.produces && MayReturnNil(q')
    ensures MayReturnNil(q)
  {
    var args :| q'.apply(args) == Success(Nil);
    assert q.apply(args) == Success(Nil);
  }

  /** The same components in two orders, of which nil results and implementers found in the
      store make no difference. */
  ghost predicate Interchangeable(comps: seq<Component>, comps': seq<Component>, b: Bijection, h: nat,
                                  implements: Implements) {
    && Rearranged(comps, comps', b) && KeepsHead(b, h) && HeadFirst(comps, h)
    && ProperParameters(comps) && WellTyped(comps, implements)
    && NilsSafe(comps, h) && ImplementersSafe(comps, h, implements)
  }

  lemma InterchangeableBack(comps: seq<Component>, comps': seq<Component>, b: Bijection, h: nat, implements: Implements)
    requires Interchangeable(comps, comps', b, h, implements)
    ensures Interchangeable(comps', comps, Inverse(b), h, implements)
    ensures Matched(comps, comps', b) && InterfacesSettled(comps, implements) && InterfacesSettled(comps', implements)
  {
    RearrangedMatches(comps, comps', b);
    hide Rearranged, Matched, HeadFirst, ProperParameters, WellTyped, NilsSafe, ImplementersSafe, InterfacesSettled,
      DistinctNames;
    InverseMatches(comps, comps', b);
    HeadCarries(comps, comps', b, h);
    ProperCarries(comps, comps', b);
    WellTypedCarries(comps, comps', b, implements);
    NilsSafeCarries(comps, comps', b, h);
    ImplementersSafeCarries(comps, comps', b, h, implements);
    MatchedIsDistinct(comps, comps', b);
    SafeIsSettled(comps, h, implements);
    SafeIsSettled(comps', h, implements);
  }

  lemma MatchedIsDistinct(comps: seq<Component>, comps': seq<Component>, b: Bijection)
    requires Matched(comps, comps', b)
    ensures DistinctNames(comps) && DistinctNames(comps')
  {
    hide DistinctNames, IsBijection, Alike;
  }
}
