/** The promise that the order of registration does not matter, stated on lists of constructors
    behind those of the framework: exactly when it holds, whatever the Apply methods do. */
module RegistrationOrder {
  import opened Options
  import opened Graph
  import opened DepthFirst
  import opened CompositeModel
  import opened CompositeSearch
  import opened CompositeOrder
  import opened CompositeValues
  import opened CompositeSuccess
  import opened CompositeRearrangement
  import opened CompositePrecedence
  import opened CompositeRegistration
  import opened CompositeExact
  import opened CompositeRuns
  import opened CompositeRegistry
  import opened Reordering
  import opened Staging

  // ---------------------------------------------------------------- conditions on signatures

  ghost predicate ProducesInterface(c: Component) {
    c.produces.Some? && c.produces.value.Interface?
  }

  /** Where a component may return nil, the search for an interface always comes before it, or
      some such search always comes after it. */
  ghost predicate NilsOrdered(comps: seq<Component>, h: nat)
    requires DistinctNames(comps)
  {
    forall q | 0 <= q < |comps| && ProducesInterface(comps[q]) :: ConsumersFirst(comps, h, q)
      || ConsumerLater(comps, h, q)
  }

  /** A result of type t may implement the interface. */
  ghost predicate MayImplement(implements: Implements, t: Type, iface: Type) {
    exists d :: Fits(implements, d, t) && implements(d, iface)
  }

  /** q produces another type than the interface that c takes, but one that may implement it. */
  ghost predicate OtherMayImplement(implements: Implements, q: Component, c: Component, t: Type) {
    t in c.consumes && t.Interface? && q.produces.Some? && q.produces.value != t
      && MayImplement(implements, q.produces.value, t)
  }

  /** What else may implement an interface is always called after the components that take it. */
  ghost predicate ImplementersOrdered(comps: seq<Component>, h: nat, implements: Implements)
    requires DistinctNames(comps)
  {
    forall q, c, t | 0 <= q < |comps| && 0 <= c < |comps| && q != c
      && OtherMayImplement(implements, comps[q], comps[c], t) ::
      Fixed(comps, h, c, q)
  }

  /** Signatures that leave nothing to the order of registration. */
  ghost predicate OrderedBySignature(comps: seq<Component>, h: nat, implements: Implements)
    requires DistinctNames(comps)
  {
    SlicesOrdered(comps, h) && NilsOrdered(comps, h) && ImplementersOrdered(comps, h, implements)
  }

  /** Every result type but those of errors has a dynamic type. */
  ghost predicate Inhabited(comps: seq<Component>, implements: Implements) {
    forall c | c in comps && c.produces.Some? && !ErrorType(implements, c.produces.value) ::
      exists d :: Fits(implements, d, c.produces.value)
  }

  /** Results that are errors leave a way to succeed. They are nil then, so nothing that takes an
      interface may always come after one; and of two that take an interface themselves, the
      second would find the nil of the first. */
  ghost predicate ErrorsFeasible(comps: seq<Component>, h: nat, implements: Implements)
    requires DistinctNames(comps)
  {
    && (forall c | c in comps && IsError(implements, c) :: c.produces.value.Interface?)
    && forall e, c | 0 <= e < |comps| && 0 <= c < |comps| && e != c && IsError(implements, comps[e])
         && ConsumesInterface(comps[c]) ::
         !Fixed(comps, h, e, c) && !(IsError(implements, comps[c]) && ConsumesInterface(comps[e]))
  }

  /** The components can succeed in some order of registration. */
  ghost predicate CanSucceed(comps: seq<Component>, h: nat, implements: Implements)
    requires DistinctNames(comps)
  {
    Viable(comps) && ErrorsFeasible(comps, h, implements)
  }

  lemma ErrorsFeasibleCarries(comps: seq<Component>, comps': seq<Component>, b: Bijection, h: nat,
                              implements: Implements)
    requires Matched(comps, comps', b) && KeepsHead(b, h) && ErrorsFeasible(comps, h, implements)
    ensures ErrorsFeasible(comps', h, implements)
  {
    hide DistinctNames, Fixed, KeepsHead, ConsumesInterface, ErrorType;
    forall c | c in comps' && IsError(implements, c) ensures c.produces.value.Interface? {
      var i :| 0 <= i < |comps'| && comps'[i] == c;
      InRange(comps, comps', b, i);
      assert comps[b.to[i]] in comps;
    }
    forall e, c | 0 <= e < |comps'| && 0 <= c < |comps'| && e != c && IsError(implements, comps'[e])
        && ConsumesInterface(comps'[c])
      ensures !Fixed(comps', h, e, c) && !(IsError(implements, comps'[c]) && ConsumesInterface(comps'[e]))
    {
      InRange(comps, comps', b, e);
      InRange(comps, comps', b, c);
      SameConsumer(comps[b.to[c]], comps'[c]);
      SameConsumer(comps[b.to[e]], comps'[e]);
      FixedCarries(comps, comps', b, h, e, c);
      assert b.to[e] != b.to[c];
    }
  }

  lemma SameConsumer(c: Component, c': Component)
    requires Alike(c, c')
    ensures ConsumesInterface(c) <==> ConsumesInterface(c')
  {
  }

  lemma CanSucceedCarries(comps: seq<Component>, comps': seq<Component>, b: Bijection, h: nat, implements: Implements)
    requires Matched(comps, comps', b) && KeepsHead(b, h) && CanSucceed(comps, h, implements)
    ensures CanSucceed(comps', h, implements)
  {
    MatchedIsDistinct(comps, comps', b);
    hide Matched, KeepsHead, Viable, ErrorsFeasible, DistinctNames;
    ViableCarries(comps, comps', b);
    ErrorsFeasibleCarries(comps, comps', b, h, implements);
  }

  /** In a run that succeeds, an error is nil, and what takes an interface is called before it. */
  lemma SearchComesFirst(comps: seq<Component>, implements: Implements, calls: seq<Call>, e: nat, c: nat)
      returns (k: nat, i: nat)
    requires FreshRun(comps, implements, calls, None) && WellTyped(comps, implements) && e < |comps| && c < |comps|
    requires e != c && IsError(implements, comps[e]) && ConsumesInterface(comps[c])
    ensures k < |calls| && i < |calls| && calls[k].comp == comps[e] && calls[i].comp == comps[c] && i < k
    ensures comps[e].produces.value.Interface?
  {
    FreshIsDistinct(comps, implements, calls, None);
    NamesDiffer(comps, e, c);
    hide FreshRun, WellTyped, DistinctNames, ConsumesInterface, ErrorType;
    assert comps[e] in comps && comps[c] in comps;
    k := CallOfComponent(comps, implements, calls, comps[e]);
    i := CallOfComponent(comps, implements, calls, comps[c]);
    ReturnedFits(comps, implements, calls, None, k);
    NoNilWasStored(comps, implements, calls, None, i);
    if k < i {
      assert OutputOf(calls, i, comps[e], Nil);
      OutputIsStored(calls, i, comps[e], Nil);
    }
  }

  lemma ErrorIsInterface(comps: seq<Component>, implements: Implements, calls: seq<Call>, c: Component)
    requires FreshRun(comps, implements, calls, None) && WellTyped(comps, implements)
    requires c in comps && IsError(implements, c)
    ensures c.produces.value.Interface?
  {
    hide FreshRun, WellTyped, ErrorType;
    var k := CallOfComponent(comps, implements, calls, c);
    ReturnedFits(comps, implements, calls, None, k);
  }

  /** What succeeds can. */
  lemma SuccessIsPossible(comps: seq<Component>, h: nat, implements: Implements, calls: seq<Call>)
    requires FreshRun(comps, implements, calls, None) && WellTyped(comps, implements) && HeadFirst(comps, h)
    ensures DistinctNames(comps) && ErrorsFeasible(comps, h, implements)
  {
    FreshIsDistinct(comps, implements, calls, None);
    hide FreshRun, WellTyped, DistinctNames, ConsumesInterface, IsError, Fixed, HeadFirst, Schedule, Before;
    forall c | c in comps && IsError(implements, c) ensures c.produces.Some? && c.produces.value.Interface? {
      IsErrorParts(implements, c);
      ErrorIsInterface(comps, implements, calls, c);
    }
    forall e, c | 0 <= e < |comps| && 0 <= c < |comps| && e != c && IsError(implements, comps[e])
        && ConsumesInterface(comps[c])
      ensures !Fixed(comps, h, e, c) && !(IsError(implements, comps[c]) && ConsumesInterface(comps[e]))
    {
      var k, i := SearchComesFirst(comps, implements, calls, e, c);
      CallsFollowSchedule(comps, implements, calls, None);
      if Fixed(comps, h, e, c) {
        FixedNotAfter(comps, h, e, c);
      }
      if IsError(implements, comps[c]) && ConsumesInterface(comps[e]) {
        var k', i' := SearchComesFirst(comps, implements, calls, c, e);
        CalledWhenBefore(comps, implements, calls, None, k, i);
      }
    }
  }

  lemma IsErrorParts(implements: Implements, c: Component)
    requires IsError(implements, c)
    ensures c.produces.Some? && ErrorType(implements, c.produces.value)
  {
  }

  lemma NilsOrderedCarries(comps: seq<Component>, comps': seq<Component>, b: Bijection, h: nat)
    requires Matched(comps, comps', b) && KeepsHead(b, h) && NilsOrdered(comps, h)
    ensures NilsOrdered(comps', h)
  {
    hide DistinctNames, ConsumersFirst, Fixed, KeepsHead;
    forall q | 0 <= q < |comps'| && ProducesInterface(comps'[q])
      ensures ConsumersFirst(comps', h, q) || ConsumerLater(comps', h, q) {
      InRange(comps, comps', b, q);
      assert ProducesInterface(comps[b.to[q]]);
      if ConsumersFirst(comps, h, b.to[q]) {
        ConsumersFirstCarries(comps, comps', b, h, q);
      } else {
        var c :| 0 <= c < |comps| && ConsumesInterface(comps[c]) && Fixed(comps, h, b.to[q], c);
        assert b.from[c] < |comps'| && b.to[b.from[c]] == c;
        InRange(comps, comps', b, b.from[c]);
        FixedCarries(comps, comps', b, h, q, b.from[c]);
        assert ConsumesInterface(comps'[b.from[c]]);
      }
    }
  }

  lemma ImplementersOrderedCarries(comps: seq<Component>, comps': seq<Component>, b: Bijection, h: nat,
                                   implements: Implements)
    requires Matched(comps, comps', b) && KeepsHead(b, h) && ImplementersOrdered(comps, h, implements)
    ensures ImplementersOrdered(comps', h, implements)
  {
    hide Fixed, DistinctNames, MayImplement, KeepsHead;
    forall q, c, t | 0 <= q < |comps'| && 0 <= c < |comps'| && q != c
      && OtherMayImplement(implements, comps'[q], comps'[c], t)
      ensures Fixed(comps', h, c, q)
    {
      InRange(comps, comps', b, c);
      InRange(comps, comps', b, q);
      FixedCarries(comps, comps', b, h, c, q);
      assert OtherMayImplement(implements, comps[b.to[q]], comps[b.to[c]], t);
    }
  }

  /** Whatever well-typed components with such signatures do, nil results and other implementers make no difference. */
  lemma OrderedIsInterchangeable(comps: seq<Component>, comps': seq<Component>, b: Bijection, h: nat,
                                 implements: Implements)
    requires Rearranged(comps, comps', b) && KeepsHead(b, h) && HeadFirst(comps, h)
    requires ProperParameters(comps) && WellTyped(comps, implements)
    requires NilsOrdered(comps, h) && ImplementersOrdered(comps, h, implements)
    ensures Interchangeable(comps, comps', b, h, implements)
  {
    RearrangedMatches(comps, comps', b);
    MatchedIsDistinct(comps, comps', b);
    hide Rearranged, Matched, KeepsHead, HeadFirst, ProperParameters, DistinctNames, ConsumersFirst, ConsumerLater,
      Fixed;
    forall q | 0 <= q < |comps| && MayReturnNil(comps[q])
      ensures ConsumersFirst(comps, h, q) || ConsumerLater(comps, h, q) {
      assert comps[q] in comps;
      assert ProducesInterface(comps[q]);
    }
    forall q, c, t | 0 <= q < |comps| && 0 <= c < |comps| && q != c
      && OtherImplementer(implements, comps[q], comps[c], t)
      ensures Fixed(comps, h, c, q)
    {
      var args :| comps[q].apply(args).Success? && Satisfies(implements, comps[q].apply(args).value, t);
      assert comps[q] in comps && ResultFits(implements, comps[q].apply(args).value, comps[q].produces.value);
      assert OtherMayImplement(implements, comps[q], comps[c], t);
    }
  }

  // ---------------------------------------------------------------- sufficient conditions

  /** Two runs end alike: both fail, or both succeed with the same values. */
  ghost predicate EndAlike(comps: seq<Component>, comps': seq<Component>, b: Bijection,
                           calls: seq<Call>, err: Option<CompositeError>, calls': seq<Call>,
                             err': Option<CompositeError>)
    requires Matched(comps, comps', b)
  {
    && (err.None? <==> err'.None?)
    && (err.None? ==> SameValues(comps, comps', b, ValuesOf(calls), ValuesOf(calls')))
  }

  /** What can run in one order can run in the other. */
  lemma SuccessIsViableInBoth(comps: seq<Component>, comps': seq<Component>, b: Bijection, implements: Implements,
                              calls: seq<Call>, err: Option<CompositeError>, calls': seq<Call>,
                                err': Option<CompositeError>)
    requires Matched(comps, comps', b) && ProperParameters(comps)
    requires FreshRun(comps, implements, calls, err) && FreshRun(comps', implements, calls', err')
    requires err.None? || err'.None?
    ensures DistinctNames(comps) && Viable(comps)
  {
    MatchedIsDistinct(comps, comps', b);
    InverseMatches(comps, comps', b);
    ProperCarries(comps, comps', b);
    hide Matched, FreshRun, ProperParameters, InterfacesProduced, DistinctNames, NoCycle, UniqueSingles;
    ProperInterfacesProduced(comps);
    ProperInterfacesProduced(comps');
    if err.None? {
      SuccessIsViable(comps, implements, calls);
    } else {
      SuccessIsViable(comps', implements, calls');
      ViableCarries(comps', comps, Inverse(b));
    }
  }

  lemma SuccessCanHappenInBoth(comps: seq<Component>, comps': seq<Component>, b: Bijection, h: nat,
                               implements: Implements,
                               calls: seq<Call>, err: Option<CompositeError>,
                               calls': seq<Call>, err': Option<CompositeError>)
    requires Rearranged(comps, comps', b) && KeepsHead(b, h) && ProperParameters(comps) && WellTyped(comps, implements)
    requires Viable(comps) ==> HeadFirst(comps, h)
    requires FreshRun(comps, implements, calls, err) && FreshRun(comps', implements, calls', err')
    requires err.None? || err'.None?
    ensures HeadFirst(comps, h) && CanSucceed(comps, h, implements)
  {
    RearrangedMatches(comps, comps', b);
    MatchedIsDistinct(comps, comps', b);
    hide Matched, Rearranged, KeepsHead, FreshRun, ProperParameters, WellTyped, HeadFirst, DistinctNames, Viable,
      ErrorsFeasible;
    SuccessIsViableInBoth(comps, comps', b, implements, calls, err, calls', err');
    if err.None? {
      SuccessIsPossible(comps, h, implements, calls);
    } else {
      HeadCarries(comps, comps', b, h);
      WellTypedCarries(comps, comps', b, implements);
      SuccessIsPossible(comps', h, implements, calls');
      InverseMatches(comps, comps', b);
      InverseKeepsHead(b, h);
      ErrorsFeasibleCarries(comps', comps, Inverse(b), h, implements);
    }
  }

  lemma InverseKeepsHead(b: Bijection, h: nat)
    requires KeepsHead(b, h)
    ensures KeepsHead(Inverse(b), h)
  {
  }

  /** Components that can succeed in no order, or whose signatures leave nothing to the order,
      end alike in every order. */
  lemma OrderedInAnyOrder(comps: seq<Component>, comps': seq<Component>, b: Bijection, h: nat, implements: Implements,
                          calls: seq<Call>, err: Option<CompositeError>,
                          calls': seq<Call>, err': Option<CompositeError>)
    requires Rearranged(comps, comps', b) && KeepsHead(b, h) && ProperParameters(comps) && WellTyped(comps, implements)
    requires Viable(comps) ==> HeadFirst(comps, h)
    requires CanSucceed(comps, h, implements) ==> OrderedBySignature(comps, h, implements)
    requires FreshRun(comps, implements, calls, err) && FreshRun(comps', implements, calls', err')
    ensures Matched(comps, comps', b) && EndAlike(comps, comps', b, calls, err, calls', err')
  {
    RearrangedMatches(comps, comps', b);
    MatchedIsDistinct(comps, comps', b);
    hide Matched, Rearranged, KeepsHead, FreshRun, ProperParameters, WellTyped, HeadFirst, DistinctNames, Viable,
      SameValues, ValuesOf, Interchangeable, SlicesOrdered, NilsOrdered, ImplementersOrdered, CanSucceed;
    if err.None? || err'.None? {
      SuccessCanHappenInBoth(comps, comps', b, h, implements, calls, err, calls', err');
      OrderedIsInterchangeable(comps, comps', b, h, implements);
      if err.None? {
        OrderedRunsAgree(comps, comps', b, h, implements, calls, calls', err');
      } else {
        SlicesOrderedCarries(comps, comps', b, h);
        InterchangeableBack(comps, comps', b, h, implements);
        OrderedRunsAgree(comps', comps, Inverse(b), h, implements, calls', calls, err);
      }
    }
  }

  lemma OrderedRunsAgree(comps: seq<Component>, comps': seq<Component>, b: Bijection, h: nat, implements: Implements,
                         calls: seq<Call>, calls': seq<Call>, err': Option<CompositeError>)
    requires Matched(comps, comps', b) && Interchangeable(comps, comps', b, h, implements) && SlicesOrdered(comps, h)
    requires FreshRun(comps, implements, calls, None) && FreshRun(comps', implements, calls', err')
    ensures err'.None? && SameValues(comps, comps', b, ValuesOf(calls), ValuesOf(calls'))
  {
    hide Interchangeable, SlicesOrdered, FreshRun, Matched, SameValues, ValuesOf;
    OrderedSlicesFixCalls(Runs(comps, comps', b, h, implements, calls, calls', err'));
  }

  /** Constructors whose components tolerate reordered slices end alike in every order. */
  lemma TolerantInAnyOrder(context: Value, factory: Value, ctors: seq<Constructor>, ctors': seq<Constructor>,
                           b: Bijection,
                           implements: Implements, calls: seq<Call>, err: Option<CompositeError>,
                           calls': seq<Call>, err': Option<CompositeError>)
    requires AllUsable(Whole(context, factory, ctors)) && AllUsable(Whole(context, factory, ctors'))
    requires Reordered(Whole(context, factory, ctors), Whole(context, factory, ctors'), b) && KeepsHead(b, FRAMEWORK)
    requires var comps := Components(Whole(context, factory, ctors));
             && DistinctNames(comps) && ProperParameters(comps) && WellTyped(comps, implements)
               && ReorderTolerant(comps)
             && NilsSafe(comps, FRAMEWORK) && ImplementersSafe(comps, FRAMEWORK, implements)
    requires FreshRun(Components(Whole(context, factory, ctors)), implements, calls, err)
    requires FreshRun(Components(Whole(context, factory, ctors')), implements, calls', err')
    ensures var comps, comps' := Components(Whole(context, factory, ctors)),
      Components(Whole(context, factory, ctors'));
            Matched(comps, comps', b) && EndAlike(comps, comps', b, calls, err, calls', err')
  {
    var comps, comps' := Components(Whole(context, factory, ctors)), Components(Whole(context, factory, ctors'));
    ReorderedComponents(Whole(context, factory, ctors), Whole(context, factory, ctors'), b);
    RearrangedMatches(comps, comps', b);
    hide Matched, Rearranged, KeepsHead, FreshRun, ProperParameters, WellTyped, HeadFirst, DistinctNames, SameValues,
      ValuesOf, ReorderTolerant, Components, Whole, NoCycle, UniqueSingles, NilsSafe, ImplementersSafe;
    if err.None? || err'.None? {
      SuccessIsViableInBoth(comps, comps', b, implements, calls, err, calls', err');
      FrameworkIsFirst(context, factory, ctors);
      RegistrationOrderIrrelevant(comps, comps', b, FRAMEWORK, implements, calls, calls', err, err');
    }
  }

  // ---------------------------------------------------------------- the promise

  /** A run over some constructors and a run over the same constructors in another order. */
  datatype Trial = Trial(context: Value, factory: Value, ctors: seq<Constructor>, ctors': seq<Constructor>,
                         b: Bijection,
                         calls: seq<Call>, err: Option<CompositeError>, calls': seq<Call>, err': Option<CompositeError>)

  ghost predicate IsTrial(t: Trial, implements: Implements) {
    var all, all' := Whole(t.context, t.factory, t.ctors), Whole(t.context, t.factory, t.ctors');
    && AllUsable(all) && AllUsable(all') && Reordered(all, all', t.b) && KeepsHead(t.b, FRAMEWORK)
    && WellTyped(Components(all), implements)
    && FreshRun(Components(all), implements, t.calls, t.err) && FreshRun(Components(all'), implements, t.calls', t.err')
  }

  ghost predicate TrialEndsAlike(t: Trial) {
    var all, all' := Whole(t.context, t.factory, t.ctors), Whole(t.context, t.factory, t.ctors');
    && AllUsable(all) && AllUsable(all') && Matched(Components(all), Components(all'), t.b)
    && EndAlike(Components(all), Components(all'), t.b, t.calls, t.err, t.calls', t.err')
  }

  /** Whatever the Apply methods of these signatures do within Go's typing, every order of registration ends alike. */
  ghost predicate OrderNeverMatters(ctors: seq<Constructor>, implements: Implements) {
    forall t: Trial | SameSignatures(ctors, t.ctors) && IsTrial(t, implements) :: TrialEndsAlike(t)
  }

  lemma WholeSignatures(context: Value, factory: Value, ctors: seq<Constructor>, context': Value, factory': Value,
                        ctors': seq<Constructor>)
    requires SameSignatures(ctors, ctors')
    ensures SameSignatures(Whole(context, factory, ctors), Whole(context', factory', ctors'))
  {
    var all, all' := Whole(context, factory, ctors), Whole(context', factory', ctors');
    forall i | 0 <= i < |all|
      ensures all[i].Constructor? && all'[i].Constructor? && all[i].consumes == all'[i].consumes
      ensures all[i].produces == all'[i].produces
    {
      if i >= FRAMEWORK {
        assert all[i] == ctors[i - FRAMEWORK] && all'[i] == ctors'[i - FRAMEWORK];
      }
    }
  }

  /** What the signatures decide holds for all constructors of these signatures. */
  lemma SignaturesDecide(all: seq<Constructor>, all': seq<Constructor>, h: nat, implements: Implements)
    requires SameSignatures(all, all') && h <= |all|
    ensures AllUsable(all) && AllUsable(all')
    ensures DistinctNames(Components(all)) && DistinctNames(Components(all'))
    ensures Matched(Components(all), Components(all'), Identity(|all|)) && KeepsHead(Identity(|all|), h)
    ensures ProperParameters(Components(all)) ==> ProperParameters(Components(all'))
    ensures Viable(Components(all)) <==> Viable(Components(all'))
    ensures CanSucceed(Components(all), h, implements) <==> CanSucceed(Components(all'), h, implements)
    ensures OrderedBySignature(Components(all), h, implements) ==> OrderedBySignature(Components(all'), h, implements)
  {
    var comps, comps', id := Components(all), Components(all'), Identity(|all|);
    SameSignaturesMatch(all, all');
    IdentityKeepsHead(|all|, h);
    MatchedIsDistinct(comps, comps', id);
    hide Components, Matched, KeepsHead, Identity, DistinctNames, Viable, CanSucceed, ProperParameters, SlicesOrdered,
      NilsOrdered,
      ImplementersOrdered, SameSignatures, AllUsable;
    if ProperParameters(comps) { ProperCarries(comps, comps', id); }
    if Viable(comps) { ViableCarries(comps, comps', id); }
    if Viable(comps') { ViableCarries(comps', comps, id); }
    if CanSucceed(comps, h, implements) { CanSucceedCarries(comps, comps', id, h, implements); }
    if CanSucceed(comps', h, implements) { CanSucceedCarries(comps', comps, id, h, implements); }
    if OrderedBySignature(comps, h, implements) {
      SlicesOrderedCarries(comps, comps', id, h);
      NilsOrderedCarries(comps, comps', id, h);
      ImplementersOrderedCarries(comps, comps', id, h, implements);
    }
  }

  /** The condition: the components cannot succeed in any order, or their signatures leave nothing to it. */
  ghost predicate NothingLeftToOrder(comps: seq<Component>, implements: Implements)
    requires DistinctNames(comps)
  {
    CanSucceed(comps, FRAMEWORK, implements) ==> OrderedBySignature(comps, FRAMEWORK, implements)
  }

  lemma TrialOfOrderedEndsAlike(context: Value, factory: Value, ctors: seq<Constructor>, implements: Implements,
                                t: Trial)
    requires SameSignatures(ctors, t.ctors) && IsTrial(t, implements) && AllUsable(Whole(context, factory, ctors))
    requires var comps := Components(Whole(context, factory, ctors));
             DistinctNames(comps) && ProperParameters(comps) && NothingLeftToOrder(comps, implements)
    ensures TrialEndsAlike(t)
  {
    var all, all1, all2 := Whole(context, factory, ctors), Whole(t.context, t.factory, t.ctors),
      Whole(t.context, t.factory, t.ctors');
    WholeSignatures(context, factory, ctors, t.context, t.factory, t.ctors);
    hide Whole, Components, Matched, Rearranged, Viable, CanSucceed, OrderedBySignature, ProperParameters, WellTyped,
      FreshRun,
      EndAlike, SameSignatures, Reordered, AllUsable, HeadFirst, KeepsHead, DistinctNames;
    SignaturesDecide(all, all1, FRAMEWORK, implements);
    ReorderedComponents(all1, all2, t.b);
    if Viable(Components(all1)) {
      FrameworkIsFirst2(t.context, t.factory, t.ctors);
    }
    OrderedInAnyOrder(Components(all1), Components(all2), t.b, FRAMEWORK, implements, t.calls, t.err, t.calls', t.err');
  }

  lemma FrameworkIsFirst2(context: Value, factory: Value, ctors: seq<Constructor>)
    requires AllUsable(Whole(context, factory, ctors)) && DistinctNames(Components(Whole(context, factory, ctors)))
    requires Viable(Components(Whole(context, factory, ctors)))
    ensures HeadFirst(Components(Whole(context, factory, ctors)), FRAMEWORK)
  {
    hide Whole, Components, UniqueSingles, NoCycle, HeadFirst;
    FrameworkIsFirst(context, factory, ctors);
  }

  // ---------------------------------------------------------------- two orders that differ

  /** Constructors with given Apply methods, registered in two orders. */
  datatype Contest = Contest(context: Value, factory: Value, ctors: seq<Constructor>, first: Bijection,
                             second: Bijection)

  ghost predicate IsOrder(k: Contest, b: Bijection) {
    IsBijection(b, FRAMEWORK + |k.ctors|) && KeepsHead(b, FRAMEWORK)
  }

  ghost predicate IsContest(k: Contest, implements: Implements) {
    && AllUsable(Whole(k.context, k.factory, k.ctors)) && IsOrder(k, k.first) && IsOrder(k, k.second)
    && WellTyped(Components(Whole(k.context, k.factory, k.ctors)), implements)
  }

  ghost function Base(k: Contest): seq<Component>
    requires AllUsable(Whole(k.context, k.factory, k.ctors))
  {
    Components(Whole(k.context, k.factory, k.ctors))
  }

  ghost predicate IsEntry(k: Contest, b: Bijection, comps: seq<Component>) {
    && IsOrder(k, b)
    && var all := Whole(k.context, k.factory, Permuted(k.context, k.factory, k.ctors, b));
    && AllUsable(all) && comps == Components(all)
  }

  /** The value after a run of the component that stands at position i of the first list. */
  ghost function FinalValue(comps: seq<Component>, b: Bijection, calls: seq<Call>, i: nat): Option<Value>
    requires i < |b.from| && b.from[i] < |comps|
  {
    var n, values := comps[b.from[i]].name, ValuesOf(calls);
    if n in values then Some(values[n]) else None
  }

  ghost predicate ValuesDiffer(comps: seq<Component>, b: Bijection, calls: seq<Call>,
                               comps': seq<Component>, b': Bijection, calls': seq<Call>) {
    exists i :: && 0 <= i < |b.from| && i < |b'.from| && b.from[i] < |comps| && b'.from[i] < |comps'|
                && FinalValue(comps, b, calls, i) != FinalValue(comps', b', calls', i)
  }

  /** One fails and the other succeeds, or both succeed and some component has different values. */
  ghost predicate EndDifferently(comps: seq<Component>, b: Bijection, calls: seq<Call>, err: Option<CompositeError>,
                                 comps': seq<Component>, b': Bijection, calls': seq<Call>,
                                   err': Option<CompositeError>) {
    if err.None? && err'.None? then ValuesDiffer(comps, b, calls, comps', b', calls') else err.None? || err'.None?
  }

  /** Every run of the one order and every run of the other end differently. */
  ghost predicate AllRunsDiffer(implements: Implements, comps: seq<Component>, b: Bijection, comps': seq<Component>,
                                b': Bijection) {
    forall calls, err, calls', err' | FreshRun(comps, implements, calls, err)
      && FreshRun(comps', implements, calls', err') ::
      EndDifferently(comps, b, calls, err, comps', b', calls', err')
  }

  ghost predicate SomeRunsDiffer(implements: Implements, comps: seq<Component>, b: Bijection, comps': seq<Component>,
                                 b': Bijection) {
    exists calls, err, calls', err' :: FreshRun(comps, implements, calls, err)
      && FreshRun(comps', implements, calls', err')
      && EndDifferently(comps, b, calls, err, comps', b', calls', err')
  }

  /** Some Apply methods of these signatures make two orders end differently, in all their runs. */
  ghost predicate TwoOrdersDiffer(ctors: seq<Constructor>, implements: Implements) {
    exists k: Contest, comps, comps' :: SameSignatures(ctors, k.ctors) && IsContest(k, implements)
      && IsEntry(k, k.first, comps) && IsEntry(k, k.second, comps')
        && AllRunsDiffer(implements, comps, k.first, comps', k.second)
  }

  /** Some Apply methods of these signatures leave a choice: one order has two runs that end differently. */
  ghost predicate OneOrderDiffers(ctors: seq<Constructor>, implements: Implements) {
    exists k: Contest, comps :: SameSignatures(ctors, k.ctors) && IsContest(k, implements)
      && IsEntry(k, k.first, comps) && SomeRunsDiffer(implements, comps, k.first, comps, k.first)
  }

  lemma EntryIsRearranged(k: Contest, implements: Implements, b: Bijection, comps: seq<Component>)
    requires IsContest(k, implements) && IsEntry(k, b, comps)
    ensures Rearranged(Base(k), comps, b) && Matched(Base(k), comps, b) && DistinctNames(comps)
  {
    PermutedIsReordered(k.context, k.factory, k.ctors, b);
    ReorderedComponents(Whole(k.context, k.factory, k.ctors),
                        Whole(k.context, k.factory, Permuted(k.context, k.factory, k.ctors, b)), b);
    RearrangedMatches(Base(k), comps, b);
    hide Whole, Components, Permuted, Rearranged, WellTyped;
    MatchedIsDistinct(Base(k), comps, b);
  }

  /** An order of the contest as a trial. */
  lemma EntryEndsAlike(ctors: seq<Constructor>, implements: Implements, k: Contest, b: Bijection, comps: seq<Component>,
                       calls0: seq<Call>, err0: Option<CompositeError>, calls: seq<Call>, err: Option<CompositeError>)
    requires OrderNeverMatters(ctors, implements) && SameSignatures(ctors, k.ctors) && IsContest(k, implements)
    requires IsEntry(k, b, comps)
    requires FreshRun(Base(k), implements, calls0, err0) && FreshRun(comps, implements, calls, err)
    ensures Matched(Base(k), comps, b) && EndAlike(Base(k), comps, b, calls0, err0, calls, err)
  {
    var t := EntryIsTrial(implements, k, b, comps, calls0, err0, calls, err);
    hide Whole, Components, IsTrial, WellTyped, Matched, FreshRun, SameSignatures, AllUsable, EndAlike, IsOrder;
    assert TrialEndsAlike(t);
  }

  lemma EntryIsTrial(implements: Implements, k: Contest, b: Bijection, comps: seq<Component>,
                     calls0: seq<Call>, err0: Option<CompositeError>, calls: seq<Call>, err: Option<CompositeError>)
                       returns (t: Trial)
    requires IsContest(k, implements) && IsEntry(k, b, comps)
    requires FreshRun(Base(k), implements, calls0, err0) && FreshRun(comps, implements, calls, err)
    ensures t == Trial(k.context, k.factory, k.ctors, Permuted(k.context, k.factory, k.ctors, b), b, calls0, err0,
                       calls, err)
    ensures IsTrial(t, implements)
  {
    PermutedIsReordered(k.context, k.factory, k.ctors, b);
    hide Whole, Components, Permuted, WellTyped, FreshRun, AllUsable, Reordered, IsBijection, KeepsHead;
    t := Trial(k.context, k.factory, k.ctors, Permuted(k.context, k.factory, k.ctors, b), b, calls0, err0, calls, err);
  }

  lemma ValueCarries(comps: seq<Component>, comps': seq<Component>, b: Bijection, calls: seq<Call>, calls': seq<Call>,
                     i: nat)
    requires Matched(comps, comps', b) && SameValues(comps, comps', b, ValuesOf(calls), ValuesOf(calls'))
    requires i < |comps|
    ensures i < |b.from| && b.from[i] < |comps'| && comps[i].name in ValuesOf(calls)
    ensures FinalValue(comps', b, calls', i) == Some(ValuesOf(calls)[comps[i].name])
  {
    hide DistinctNames, ValuesOf, Alike;
    assert b.to[b.from[i]] == i;
  }

  /** Runs that end differently refute the promise. */
  lemma DifferenceMatters(ctors: seq<Constructor>, implements: Implements, k: Contest, b: Bijection,
                          comps: seq<Component>,
                          b': Bijection, comps': seq<Component>)
    requires SameSignatures(ctors, k.ctors) && IsContest(k, implements) && IsEntry(k, b, comps)
    requires IsEntry(k, b', comps')
    requires SomeRunsDiffer(implements, comps, b, comps', b')
    ensures !OrderNeverMatters(ctors, implements)
  {
    if OrderNeverMatters(ctors, implements) {
      var calls, err, calls', err' :| FreshRun(comps, implements, calls, err)
        && FreshRun(comps', implements, calls', err')
        && EndDifferently(comps, b, calls, err, comps', b', calls', err');
      ComponentsHaveDistinctNames(Whole(k.context, k.factory, k.ctors));
      hide OrderNeverMatters, FreshRun, DistinctNames, Whole, Components, Permuted, WellTyped, SameSignatures,
        AllUsable;
      var calls0, err0 := RunExists(Base(k), implements);
      EntryEndsAlike(ctors, implements, k, b, comps, calls0, err0, calls, err);
      EntryEndsAlike(ctors, implements, k, b', comps', calls0, err0, calls', err');
      hide IsContest, IsEntry;
      AlikeIsNotDifferent(Base(k), comps, b, comps', b', calls0, err0, calls, err, calls', err');
    }
  }

  lemma AlikeIsNotDifferent(base: seq<Component>, comps: seq<Component>, b: Bijection, comps': seq<Component>,
                            b': Bijection,
                            calls0: seq<Call>, err0: Option<CompositeError>, calls: seq<Call>,
                              err: Option<CompositeError>,
                            calls': seq<Call>, err': Option<CompositeError>)
    requires Matched(base, comps, b) && EndAlike(base, comps, b, calls0, err0, calls, err)
    requires Matched(base, comps', b') && EndAlike(base, comps', b', calls0, err0, calls', err')
    ensures !EndDifferently(comps, b, calls, err, comps', b', calls', err')
  {
    if err.None? && err'.None? {
      hide DistinctNames, Alike, ValuesOf, SameValues, FinalValue;
      forall i | 0 <= i < |b.from| && i < |b'.from| && b.from[i] < |comps| && b'.from[i] < |comps'|
        ensures FinalValue(comps, b, calls, i) == FinalValue(comps', b', calls', i)
      {
        ValueCarries(base, comps, b, calls0, calls, i);
        ValueCarries(base, comps', b', calls0, calls', i);
      }
    }
  }

  lemma AllIsSome(implements: Implements, comps: seq<Component>, b: Bijection, comps': seq<Component>, b': Bijection)
    requires AllRunsDiffer(implements, comps, b, comps', b') && DistinctNames(comps) && DistinctNames(comps')
    ensures SomeRunsDiffer(implements, comps, b, comps', b')
  {
    hide FreshRun, DistinctNames, EndDifferently;
    var calls, err := RunExists(comps, implements);
    var calls', err' := RunExists(comps', implements);
  }

  lemma TwoOrdersRefute(ctors: seq<Constructor>, implements: Implements)
    requires TwoOrdersDiffer(ctors, implements)
    ensures !OrderNeverMatters(ctors, implements)
  {
    hide SameSignatures, IsContest, IsEntry, OrderNeverMatters;
    var k: Contest, comps, comps' :| SameSignatures(ctors, k.ctors) && IsContest(k, implements)
      && IsEntry(k, k.first, comps) && IsEntry(k, k.second, comps')
        && AllRunsDiffer(implements, comps, k.first, comps', k.second);
    hide AllRunsDiffer, SomeRunsDiffer, Rearranged, Matched, DistinctNames;
    EntryIsRearranged(k, implements, k.first, comps);
    EntryIsRearranged(k, implements, k.second, comps');
    AllIsSome(implements, comps, k.first, comps', k.second);
    DifferenceMatters(ctors, implements, k, k.first, comps, k.second, comps');
  }

  lemma OneOrderRefutes(ctors: seq<Constructor>, implements: Implements)
    requires OneOrderDiffers(ctors, implements)
    ensures !OrderNeverMatters(ctors, implements)
  {
    hide SameSignatures, IsContest, IsEntry, OrderNeverMatters, SomeRunsDiffer;
    var k: Contest, comps :| SameSignatures(ctors, k.ctors) && IsContest(k, implements)
      && IsEntry(k, k.first, comps) && SomeRunsDiffer(implements, comps, k.first, comps, k.first);
    DifferenceMatters(ctors, implements, k, k.first, comps, k.first, comps);
  }
}
