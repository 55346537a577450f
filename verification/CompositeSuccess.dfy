/** When a composite succeeds, also with parameters of interface types such as the context
    that the framework provides and with results that are nil, such as the error of an Apply
    method that has no other result; and when its run is determined. */
module CompositeSuccess {
  import opened Options
  import opened Graph
  import opened DepthFirst
  import opened CompositeModel
  import opened CompositeSearch
  import opened CompositeOrder
  import opened CompositeValues

  ghost predicate IsInterface(t: Type) {
    t.Interface? || (t.Slice? && t.elem.Interface?)
  }

  /** Finding an argument for c searches everything that is stored. */
  ghost predicate ConsumesInterface(c: Component) {
    exists t :: t in c.consumes && IsInterface(t)
  }

  /** Every interface parameter has another producer of exactly that type. */
  ghost predicate InterfacesProduced(comps: seq<Component>) {
    forall c, t | c in comps && t in c.consumes && t.Interface? :: |Producers(comps, c.name, t)| >= 1
  }

  /** Every parameter that is not a slice has exactly one other producer of its type. */
  ghost predicate UniqueSingles(comps: seq<Component>) {
    forall c, t | c in comps && t in c.consumes && !t.Slice? :: |Producers(comps, c.name, t)| == 1
  }

  lemma UniqueAt(comps: seq<Component>, c: Component, t: Type)
    requires UniqueSingles(comps) && c in comps && t in c.consumes && !t.Slice?
    ensures |Producers(comps, c.name, t)| == 1
  {
    hide Producers;
  }

  // ---------------------------------------------------------------- arguments

  lemma StoredByProducer(comps: seq<Component>, implements: Implements, calls: seq<Call>, err: Option<CompositeError>,
                         i: nat, t: Type) returns (v: Value)
    requires FreshRun(comps, implements, calls, err) && i < |calls|
    requires t in calls[i].comp.consumes && !t.Slice? && |Producers(comps, calls[i].comp.name, t)| == 1
    ensures v in Outputs(calls[..i], t)
  {
    var name := calls[i].comp.name;
    var n := Producers(comps, name, t)[0];
    ProducersAre(comps, name, t, n);
    hide FreshRun, Producers, Outputs;
    var p :| p in comps && OtherProducer(p, name, t) && p.name == n;
    var k := ProducerHasReturned(comps, implements, calls, err, i, p, t);
    v := calls[k].outcome.value;
    assert StoredBy(calls[..i], k, t, v);
    OutputsAre(calls[..i], t, v);
  }

  /** A parameter with its one producer, or a slice, is available unless an interface is
      looked for while a nil is stored. */
  lemma AlwaysAvailable(comps: seq<Component>, implements: Implements, calls: seq<Call>, err: Option<CompositeError>,
                        i: nat, t: Type, e: ExecError)
    requires FreshRun(comps, implements, calls, err) && i < |calls| && t in calls[i].comp.consumes
    requires WellTyped(comps, implements) && (!t.Slice? ==> |Producers(comps, calls[i].comp.name, t)| == 1)
    requires IsInterface(t) ==> !StoredValue(calls[..i], Nil)
    ensures !Unavailable(implements, calls[..i], t, e)
  {
    var before := calls[..i];
    hide FreshRun, WellTyped, Producers, Outputs;
    if !t.Slice? {
      var v := StoredByProducer(comps, implements, calls, err, i, t);
      StoredFits(comps, implements, calls, err, i, t, v);
      assert StoredValue(before, v);
    } else if Nil in Outputs(before, t.elem) {
      StoredFits(comps, implements, calls, err, i, t.elem, Nil);
    }
  }

  lemma ArgumentsAreComplete(comps: seq<Component>, implements: Implements, calls: seq<Call>,
                             err: Option<CompositeError>,
                             i: nat)
    requires FreshRun(comps, implements, calls, err) && i < |calls| && WellTyped(comps, implements)
    requires UniqueSingles(comps)
    requires ConsumesInterface(calls[i].comp) ==> !StoredValue(calls[..i], Nil)
    ensures |calls[i].args| == |calls[i].comp.consumes|
  {
    hide FreshRun, WellTyped;
    CallsInOrder(comps, implements, calls, err);
    hide DependenciesFirst, CallOk, Unavailable, Producers, Distinct, StoredValue;
    CallStopsAtMissing(implements, calls[..i], calls[i]);
    if |calls[i].args| < |calls[i].comp.consumes| {
      var t := calls[i].comp.consumes[|calls[i].args|];
      assert t in calls[i].comp.consumes;
      AlwaysAvailable(comps, implements, calls, err, i, t, calls[i].outcome.error);
    }
  }

  /** A call that got all its arguments and takes an interface found no nil. */
  lemma NoNilWasStored(comps: seq<Component>, implements: Implements, calls: seq<Call>, err: Option<CompositeError>,
                       i: nat)
    requires FreshRun(comps, implements, calls, err) && i < |calls|
    requires |calls[i].args| == |calls[i].comp.consumes| && ConsumesInterface(calls[i].comp)
    ensures !StoredValue(calls[..i], Nil)
  {
    CallsInOrder(comps, implements, calls, err);
    hide FreshRun, DependenciesFirst, Distinct, Outputs, StoredValue;
    var t :| t in calls[i].comp.consumes && IsInterface(t);
    var j :| 0 <= j < |calls[i].args| && calls[i].comp.consumes[j] == t;
    assert Provided(implements, calls[..i], calls[i].comp.consumes[j], calls[i].args[j]);
  }

  // ---------------------------------------------------------------- success

  /** What may return nil is called after every other component that takes an interface. */
  ghost predicate NilsLate(comps: seq<Component>)
    requires DistinctNames(comps)
  {
    forall c, args, q | c in comps && c.produces.Some? && c.apply(args) == Success(Nil) && q in comps
      && ConsumesInterface(q) ::
      !Before(Schedule(comps), c.name, q.name)
  }

  lemma NilsComeLater(comps: seq<Component>, implements: Implements, calls: seq<Call>, err: Option<CompositeError>,
                      i: nat)
    requires FreshRun(comps, implements, calls, err) && NilsLate(comps) && i < |calls|
    requires ConsumesInterface(calls[i].comp)
    ensures !StoredValue(calls[..i], Nil)
  {
    if StoredValue(calls[..i], Nil) {
      CallsFollowSchedule(comps, implements, calls, err);
      CallsInOrder(comps, implements, calls, err);
      hide FreshRun, DependenciesFirst, CallOk, StoredValue, Schedule, ConsumesInterface;
      var k := StoredIsOutput(calls, i, Nil);
      ReturnedUnlessFailed(implements, calls[..k], calls[k]);
    }
  }

  lemma CallNeverFails(comps: seq<Component>, implements: Implements, calls: seq<Call>, err: Option<CompositeError>,
                       i: nat)
    requires FreshRun(comps, implements, calls, err) && i < |calls|
    requires WellTyped(comps, implements) && NilsLate(comps) && UniqueSingles(comps) && NeverFails(comps)
    ensures !calls[i].outcome.Failed?
  {
    hide FreshRun, WellTyped, UniqueSingles, NilsLate, ConsumesInterface;
    if ConsumesInterface(calls[i].comp) {
      NilsComeLater(comps, implements, calls, err, i);
    }
    ArgumentsAreComplete(comps, implements, calls, err, i);
    CallsInOrder(comps, implements, calls, err);
    hide DependenciesFirst, Provided, Unavailable, Distinct, ArgsProvided;
    assert calls[i].comp.apply(calls[i].args).Success?;
  }

  lemma UnambiguousSingles(comps: seq<Component>)
    requires UniqueSingles(comps)
    ensures forall c, t :: !Ambiguous(comps, c, t)
  {
    hide Producers;
  }

  /** A composite whose interface parameters each have a producer of that type, whose Apply
      methods never fail, and which calls whatever may return nil after everything else that
      takes an interface, runs without error exactly when no component reaches a cycle and
      every parameter that is not a slice has exactly one producer other than its consumer. */
  lemma SucceedsExactly(comps: seq<Component>, implements: Implements, calls: seq<Call>, err: Option<CompositeError>)
    requires FreshRun(comps, implements, calls, err)
    requires InterfacesProduced(comps) && WellTyped(comps, implements) && NeverFails(comps) && NilsLate(comps)
    ensures err.None? <==> NoCycle(comps) && UniqueSingles(comps)
  {
    if err.None? {
      SuccessIsViable(comps, implements, calls);
    }
    if NoCycle(comps) && UniqueSingles(comps) && err.Some? {
      UnambiguousSingles(comps);
      var runErr := Some(err.value.error);
      CycleReportedExactly(comps, InferredEdges(comps), calls, runErr);
      RunIsTopological(comps, InferredEdges(comps), calls, runErr);
      hide FreshRun, WellTyped, NilsLate, UniqueSingles, NeverFails, GraphRun, InferredEdges, ReachesCycle,
        DependenciesFirst;
      CallNeverFails(comps, implements, calls, err, |calls| - 1);
    }
  }

  lemma SuccessIsViable(comps: seq<Component>, implements: Implements, calls: seq<Call>)
    requires FreshRun(comps, implements, calls, None) && InterfacesProduced(comps)
    ensures NoCycle(comps) && UniqueSingles(comps)
  {
    SucceedsOnlyIf(comps, implements, calls);
    var runErr := CalledRunIsGraphRun(comps, calls, None);
    hide FreshRun, GraphRun, Producers, NoCycle;
    forall c, t | c in comps && t in c.consumes && !t.Slice? ensures |Producers(comps, c.name, t)| == 1 {
      assert !Ambiguous(comps, c, t);
    }
  }

  // ---------------------------------------------------------------- parameters that a run determines

  /** Parameters are concrete types, slices of types other than interfaces, or interfaces that
      another component produces. */
  ghost predicate ProperParameters(comps: seq<Component>) {
    forall c, t | c in comps && t in c.consumes :: ProperParameter(comps, c, t)
  }

  ghost predicate ProperParameter(comps: seq<Component>, c: Component, t: Type) {
    || t.Concrete?
    || (t.Slice? && !t.elem.Interface?)
    || (t.Interface? && |Producers(comps, c.name, t)| >= 1)
  }

  lemma ProperInterfacesProduced(comps: seq<Component>)
    requires ProperParameters(comps)
    ensures InterfacesProduced(comps)
  {
    hide Producers;
    forall c, t | c in comps && t in c.consumes && t.Interface? ensures |Producers(comps, c.name, t)| >= 1 {
      assert ProperParameter(comps, c, t);
    }
  }

  ghost predicate CanReturnImplementer(implements: Implements, q: Component, t: Type) {
    exists args :: q.apply(args).Success? && Satisfies(implements, q.apply(args).value, t)
  }

  /** A component that produces another type than the interface that c takes, but can return
      an implementer of it. */
  ghost predicate OtherImplementer(implements: Implements, q: Component, c: Component, t: Type) {
    t in c.consumes && t.Interface? && q.produces.Some? && q.produces.value != t
      && CanReturnImplementer(implements, q, t)
  }

  /** No other implementer of an interface is called before the component that takes it. */
  ghost predicate InterfacesSettled(comps: seq<Component>, implements: Implements)
    requires DistinctNames(comps)
  {
    forall c, q, t | c in comps && q in comps && OtherImplementer(implements, q, c, t) ::
      !Before(Schedule(comps), q.name, c.name)
  }

  /** What implements an interface parameter was returned by a producer of that interface. */
  lemma ImplementerIsProducer(comps: seq<Component>, implements: Implements, calls: seq<Call>,
                              err: Option<CompositeError>,
                              i: nat, t: Type, v: Value) returns (k: nat)
    requires FreshRun(comps, implements, calls, err) && InterfacesSettled(comps, implements)
    requires i < |calls| && t in calls[i].comp.consumes && t.Interface?
    requires StoredValue(calls[..i], v) && Satisfies(implements, v, t)
    ensures k < i && calls[k].comp.produces == Some(t) && calls[k].outcome == Returned(v)
  {
    CallsInOrder(comps, implements, calls, err);
    CallsFollowSchedule(comps, implements, calls, err);
    hide FreshRun, DependenciesFirst, CallOk, StoredValue, Schedule, Distinct, Satisfies;
    k := StoredIsOutput(calls, i, v);
    ReturnedUnlessFailed(implements, calls[..k], calls[k]);
    var q, c := calls[k].comp, calls[i].comp;
    assert CanReturnImplementer(implements, q, t);
    assert q.produces.value != t ==> OtherImplementer(implements, q, c, t);
  }

  /** A parameter that is not a slice receives exactly the output of the one other producer
      of its type, which has already run. */
  lemma SingleArgument(comps: seq<Component>, implements: Implements, calls: seq<Call>, err: Option<CompositeError>,
                       i: nat, j: nat) returns (k: nat)
    requires FreshRun(comps, implements, calls, err) && InterfacesSettled(comps, implements)
    requires i < |calls| && j < |calls[i].args| && j < |calls[i].comp.consumes| && !calls[i].comp.consumes[j].Slice?
    ensures var c, t := calls[i].comp, calls[i].comp.consumes[j];
            && k < i && OtherProducer(calls[k].comp, c.name, t)
            && calls[k].outcome.Returned? && calls[i].args[j] == Single(calls[k].outcome.value)
            && forall p | p in comps && OtherProducer(p, c.name, t) :: p == calls[k].comp
  {
    if calls[i].comp.consumes[j].Concrete? {
      k := ConcreteArgument(comps, implements, calls, err, i, j);
    } else {
      k := InterfaceArgument(comps, implements, calls, err, i, j);
    }
  }

  lemma InterfaceArgument(comps: seq<Component>, implements: Implements, calls: seq<Call>, err: Option<CompositeError>,
                          i: nat, j: nat) returns (k: nat)
    requires FreshRun(comps, implements, calls, err) && InterfacesSettled(comps, implements)
    requires i < |calls| && j < |calls[i].args| && j < |calls[i].comp.consumes| && calls[i].comp.consumes[j].Interface?
    ensures var c, t := calls[i].comp, calls[i].comp.consumes[j];
            && k < i && OtherProducer(calls[k].comp, c.name, t)
            && calls[k].outcome.Returned? && calls[i].args[j] == Single(calls[k].outcome.value)
            && forall p | p in comps && OtherProducer(p, c.name, t) :: p == calls[k].comp
  {
    var c, t := calls[i].comp, calls[i].comp.consumes[j];
    CallsInOrder(comps, implements, calls, err);
    var runErr := CalledRunIsGraphRun(comps, calls, err);
    hide FreshRun, GraphRun, DependenciesFirst, InterfacesSettled, StoredValue, Satisfies;
    assert Provided(implements, calls[..i], t, calls[i].args[j]);
    FirstIsStored(implements, calls[..i], t, calls[i].args[j].value);
    hide CallOk, FirstImplementer;
    k := ImplementerIsProducer(comps, implements, calls, err, i, t, calls[i].args[j].value);
    assert Names(calls)[k] != Names(calls)[i];
    assert !Ambiguous(comps, c, t);
    forall p | p in comps && OtherProducer(p, c.name, t) ensures p == calls[k].comp {
      OnlyProducer(comps, c.name, t, p, calls[k].comp);
    }
  }

  // ---------------------------------------------------------------- one run only

  /** No slice of interfaces is taken, and no interface that others may implement before. */
  ghost predicate Determined(comps: seq<Component>, implements: Implements)
    requires DistinctNames(comps)
  {
    && (forall c, t | c in comps && t in c.consumes && t.Slice? :: !t.elem.Interface?)
    && ((exists c, t :: c in comps && t in c.consumes && t.Interface?) ==>
          InterfacesSettled(comps, implements))
  }

  lemma FreshIsDistinct(comps: seq<Component>, implements: Implements, calls: seq<Call>, err: Option<CompositeError>)
    requires FreshRun(comps, implements, calls, err)
    ensures DistinctNames(comps)
  {
    hide DistinctNames, HistoryOk, CompositeRun;
  }

  /** What two runs over one list of components have called so far. */
  lemma {:induction false} SameCalls(comps: seq<Component>, implements: Implements, calls: seq<Call>,
                                     err: Option<CompositeError>,
                                     calls': seq<Call>, err': Option<CompositeError>, i: nat)
    requires FreshRun(comps, implements, calls, err) && FreshRun(comps, implements, calls', err')
    requires Determined(comps, implements)
    requires i <= |calls| && i <= |calls'|
    ensures calls[..i] == calls'[..i]
    decreases i
  {
    FreshIsDistinct(comps, implements, calls, err);
    hide FreshRun, Determined, DistinctNames;
    if i > 0 {
      SameCalls(comps, implements, calls, err, calls', err', i - 1);
      SameCall(comps, implements, calls, err, calls', err', i - 1);
      PrefixesGrow(calls, calls', i - 1);
    }
  }

  lemma PrefixesGrow(a: seq<Call>, b: seq<Call>, i: nat)
    requires i < |a| && i < |b| && a[..i] == b[..i] && a[i] == b[i]
    ensures a[..i + 1] == b[..i + 1]
  {
    assert a[..i + 1] == a[..i] + [a[i]] && b[..i + 1] == b[..i] + [b[i]];
  }

  lemma SameCall(comps: seq<Component>, implements: Implements, calls: seq<Call>, err: Option<CompositeError>,
                 calls': seq<Call>, err': Option<CompositeError>, i: nat)
    requires FreshRun(comps, implements, calls, err) && FreshRun(comps, implements, calls', err')
    requires Determined(comps, implements)
    requires i < |calls| && i < |calls'| && calls[..i] == calls'[..i]
    ensures calls[i] == calls'[i]
  {
    CallsFollowSchedule(comps, implements, calls, err);
    CallsFollowSchedule(comps, implements, calls', err');
    CallsInOrder(comps, implements, calls, err);
    CallsInOrder(comps, implements, calls', err');
    hide FreshRun, Schedule, DependenciesFirst, Distinct, Before, Determined, Provided, Unavailable, Decided;
    var before, a, b := calls[..i], calls[i], calls'[i];
    assert Names(calls)[i] == Names(calls')[i] == Schedule(comps)[i];
    SameName(comps, a.comp, b.comp);
    forall j | 0 <= j < |a.args| && j < |b.args| ensures a.args[j] == b.args[j] {
      SameArgument(comps, implements, calls, err, i, j, b.args[j]);
    }
    forall j | 0 <= j < |a.comp.consumes| ensures Decided(implements, before, a.comp.consumes[j]) {
      EveryTypeIsDecided(implements, before, a.comp.consumes[j]);
    }
    SameEnd(implements, before, a, b);
  }

  /** What is provided is not unavailable, and there is only one reason why something is. */
  ghost predicate Decided(implements: Implements, before: seq<Call>, t: Type) {
    && (forall arg, e :: !(Provided(implements, before, t, arg) && Unavailable(implements, before, t, e)))
    && forall e, f :: Unavailable(implements, before, t, e) && Unavailable(implements, before, t, f) ==> e == f
  }

  lemma EveryTypeIsDecided(implements: Implements, before: seq<Call>, t: Type)
    ensures Decided(implements, before, t)
  {
    hide Outputs, FirstImplementer, StoredValue, Satisfies;
    forall v | FirstImplementer(implements, before, t, v)
      ensures Satisfies(implements, v, t) && StoredValue(before, v)
    {
      FirstIsStored(implements, before, t, v);
    }
  }

  lemma SameEnd(implements: Implements, before: seq<Call>, a: Call, b: Call)
    requires CallOk(Self, implements, before, a) && CallOk(Self, implements, before, b) && a.comp == b.comp
    requires forall j | 0 <= j < |a.args| && j < |b.args| :: a.args[j] == b.args[j]
    requires forall j | 0 <= j < |a.comp.consumes| :: Decided(implements, before, a.comp.consumes[j])
    ensures a == b
  {
    hide Provided, Unavailable;
    assert |a.args| == |b.args|;
    assert a.args == b.args;
  }

  lemma SameArgument(comps: seq<Component>, implements: Implements, calls: seq<Call>, err: Option<CompositeError>,
                     i: nat, j: nat, arg: Arg)
    requires FreshRun(comps, implements, calls, err) && Determined(comps, implements)
    requires i < |calls| && j < |calls[i].args| && j < |calls[i].comp.consumes|
    requires Provided(implements, calls[..i], calls[i].comp.consumes[j], arg)
    ensures calls[i].args[j] == arg
  {
    var c, t := calls[i].comp, calls[i].comp.consumes[j];
    CallsInOrder(comps, implements, calls, err);
    hide FreshRun, DependenciesFirst, Distinct, StoredValue, Satisfies, InterfacesSettled, Outputs, Dedup;
    assert Provided(implements, calls[..i], t, calls[i].args[j]) && c in comps && t in c.consumes;
    if t.Interface? {
      var k := InterfaceArgument(comps, implements, calls, err, i, j);
      FirstIsStored(implements, calls[..i], t, arg.value);
      var l := ImplementerIsProducer(comps, implements, calls, err, i, t, arg.value);
      hide CallOk;
      ProducedByOne(comps, implements, calls, err, i, t, k, l);
    }
  }

  /** Two calls before the i-th, both of components that produce an interface that it takes, are one. */
  lemma ProducedByOne(comps: seq<Component>, implements: Implements, calls: seq<Call>, err: Option<CompositeError>,
                      i: nat, t: Type, k: nat, l: nat)
    requires FreshRun(comps, implements, calls, err) && i < |calls| && k < i && l < i && t in calls[i].comp.consumes
    requires calls[k].comp.produces == Some(t) && calls[l].comp.produces == Some(t)
    requires forall p | p in comps && OtherProducer(p, calls[i].comp.name, t) :: p == calls[k].comp
    ensures k == l
  {
    CallsInOrder(comps, implements, calls, err);
    hide FreshRun, CallOk, DependenciesFirst;
    assert Names(calls)[l] != Names(calls)[i];
    assert OtherProducer(calls[l].comp, calls[i].comp.name, t);
    assert Names(calls)[l] == Names(calls)[k];
  }

  /** Two runs over one list of components make the same calls and end alike, if no choice is
      left to the iteration order of a map. */
  lemma RunIsDetermined(comps: seq<Component>, implements: Implements, calls: seq<Call>, err: Option<CompositeError>,
                        calls': seq<Call>, err': Option<CompositeError>)
    requires FreshRun(comps, implements, calls, err) && FreshRun(comps, implements, calls', err')
    requires Determined(comps, implements)
    ensures calls == calls' && err == err'
  {
    if c, t :| Ambiguous(comps, c, t) {
      OneFirstAmbiguous(comps, err.value.consumer, err.value.wanted, err'.value.consumer, err'.value.wanted);
    } else {
      hide FreshRun, Determined;
      if |calls| <= |calls'| {
        SameCalls(comps, implements, calls, err, calls', err', |calls|);
        RunsEndAlike(comps, implements, calls, err, calls', err');
      } else {
        SameCalls(comps, implements, calls, err, calls', err', |calls'|);
        RunsEndAlike(comps, implements, calls', err', calls, err);
      }
    }
  }

  lemma OneFirstAmbiguous(comps: seq<Component>, consumer: string, t: Type, consumer': string, t': Type)
    requires FirstAmbiguous(comps, consumer, t) && FirstAmbiguous(comps, consumer', t')
    ensures consumer == consumer' && t == t'
  {
    hide Ambiguous;
    var i, k :| AmbiguousAt(comps, i, k) && comps[i].name == consumer && comps[i].consumes[k] == t;
    var i', k' :| AmbiguousAt(comps, i', k') && comps[i'].name == consumer' && comps[i'].consumes[k'] == t';
    assert i == i' && k == k';
  }

  /** Of two runs that agree on their common calls, neither is longer, and they end alike. */
  lemma RunsEndAlike(comps: seq<Component>, implements: Implements, calls: seq<Call>, err: Option<CompositeError>,
                     calls': seq<Call>, err': Option<CompositeError>)
    requires FreshRun(comps, implements, calls, err) && FreshRun(comps, implements, calls', err')
    requires forall c, t :: !Ambiguous(comps, c, t)
    requires |calls| <= |calls'| && calls[..|calls|] == calls'[..|calls|]
    ensures calls == calls' && err == err'
  {
    var edges := InferredEdges(comps);
    var runErr := if err.None? then None else Some(err.value.error);
    var runErr' := if err'.None? then None else Some(err'.value.error);
    assert GraphRun(comps, edges, calls, runErr) && GraphRun(comps, edges, calls', runErr');
    hide FreshRun, GraphRun, CallOrder, InferredEdges;
    CallsFollowWalk(comps, edges, calls, runErr);
    CallsFollowWalk(comps, edges, calls', runErr');
    assert calls == calls[..|calls|];
    assert Names(calls) == Names(calls')[..|calls|];
    assert calls != [] ==> calls[|calls| - 1] == calls'[|calls| - 1];
    assert |Names(calls')| <= |CallOrder(comps, edges)|;
    assert |calls| == |calls'|;
  }
}
