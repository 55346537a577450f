/** Which values a run of a fresh composite delivers to its components, when such a run
    succeeds, and how far its outcome depends on the order of registration. */
module CompositeValues {
  import opened Options
  import opened Graph
  import opened DepthFirst
  import opened CompositeModel
  import opened CompositeSearch
  import opened CompositeOrder

  ghost predicate OtherProducer(p: Component, consumer: string, t: Type) {
    p.name != consumer && p.produces == Some(t)
  }

  // ---------------------------------------------------------------- membership

  lemma {:induction false} ProducersAre(comps: seq<Component>, consumer: string, t: Type, n: string)
    ensures n in Producers(comps, consumer, t) <==> exists p ::
              p in comps && OtherProducer(p, consumer, t) && p.name == n
  {
    if comps != [] {
      var front, last := comps[..|comps| - 1], comps[|comps| - 1];
      ProducersAre(front, consumer, t, n);
      assert comps == front + [last];
    }
  }

  lemma {:induction false} DependenciesAre(comps: seq<Component>, consumer: string, consumes: seq<Type>, d: string)
    ensures d in DependenciesFor(comps, consumer, consumes) <==>
            exists t :: t in consumes && d in Producers(comps, consumer, Wanted(t))
  {
    if consumes != [] {
      var front, last := consumes[..|consumes| - 1], consumes[|consumes| - 1];
      DependenciesAre(comps, consumer, front, d);
      assert consumes == front + [last];
    }
  }

  lemma SameName(comps: seq<Component>, p: Component, q: Component)
    requires DistinctNames(comps) && p in comps && q in comps && p.name == q.name
    ensures p == q
  {
  }

  lemma EdgesOfComponent(comps: seq<Component>, c: Component)
    requires DistinctNames(comps) && c in comps
    ensures Deps(InferredEdges(comps), c.name) == DependenciesFor(comps, c.name, c.consumes)
  {
    var i :| 0 <= i < |comps| && comps[i] == c;
  }

  /** The inferred graph has an edge exactly from a consumer to each other component that
      produces a type it wants. */
  lemma InferredEdge(comps: seq<Component>, c: Component, d: string)
    requires DistinctNames(comps) && c in comps
    ensures d in Deps(InferredEdges(comps), c.name) <==>
            exists p, t :: p in comps && t in c.consumes && OtherProducer(p, c.name, Wanted(t)) && p.name == d
  {
    EdgesOfComponent(comps, c);
    DependenciesAre(comps, c.name, c.consumes, d);
    forall t | t in c.consumes
      ensures d in Producers(comps, c.name, Wanted(t)) <==>
              exists p :: p in comps && OtherProducer(p, c.name, Wanted(t)) && p.name == d
    {
      ProducersAre(comps, c.name, Wanted(t), d);
    }
  }

  // ---------------------------------------------------------------- injection

  /** The run of the graph executor inside a run that made a call. */
  lemma CalledRunIsGraphRun(comps: seq<Component>, calls: seq<Call>, err: Option<CompositeError>)
      returns (runErr: Option<RunError>)
    requires DistinctNames(comps) && CompositeRun(comps, calls, err) && (calls != [] || err.None?)
    ensures forall c, t :: !Ambiguous(comps, c, t)
    ensures GraphRun(comps, InferredEdges(comps), calls, runErr)
    ensures err == if runErr.Some? then Some(RunFailed(runErr.value)) else None
  {
    runErr := if err.None? then None else Some(err.value.error);
  }

  /** What every call of a fresh run satisfies. */
  lemma CallsInOrder(comps: seq<Component>, implements: Implements, calls: seq<Call>, err: Option<CompositeError>)
    requires FreshRun(comps, implements, calls, err)
    ensures Distinct(Names(calls)) && DependenciesFirst(comps, InferredEdges(comps), Names(calls))
    ensures forall i | 0 <= i < |calls| :: calls[i].comp in comps && CallOk(Self, implements, calls[..i], calls[i])
    ensures forall i | 0 <= i < |calls| - 1 :: !calls[i].outcome.Failed?
  {
    if calls != [] {
      var runErr := CalledRunIsGraphRun(comps, calls, err);
      RunIsTopological(comps, InferredEdges(comps), calls, runErr);
      forall i | 0 <= i < |calls| ensures CallOk(Self, implements, calls[..i], calls[i]) {
        HistoryAt(Self, implements, calls, i);
      }
    }
  }

  /** The order in which a composite calls its components as long as nothing fails. */
  ghost function Schedule(comps: seq<Component>): seq<string>
    requires DistinctNames(comps)
  {
    CallOrder(comps, InferredEdges(comps))
  }

  /** Every run calls the components in the order of the schedule, and all of them if it succeeds. */
  lemma CallsFollowSchedule(comps: seq<Component>, implements: Implements, calls: seq<Call>,
                            err: Option<CompositeError>)
    requires FreshRun(comps, implements, calls, err)
    ensures Names(calls) <= Schedule(comps)
    ensures err.None? ==> Names(calls) == Schedule(comps)
    ensures forall h, k | 0 <= h < k < |calls| :: Before(Schedule(comps), calls[h].comp.name, calls[k].comp.name)
  {
    if calls != [] || err.None? {
      var runErr := CalledRunIsGraphRun(comps, calls, err);
      CallsFollowWalk(comps, InferredEdges(comps), calls, runErr);
    }
    hide FreshRun, InferredEdges, CallOrder, Known, CompositeRun, HistoryOk;
    forall h, k | 0 <= h < k < |calls| ensures Before(Schedule(comps), calls[h].comp.name, calls[k].comp.name) {
      assert Names(calls)[..k][h] == calls[h].comp.name;
      CallsKeepOrder(comps, InferredEdges(comps), calls, calls[h].comp.name, k);
    }
  }

  /** A parameter of concrete type receives exactly the output of the one other producer
      of that type, which has already run. */
  lemma ConcreteArgument(comps: seq<Component>, implements: Implements, calls: seq<Call>, err: Option<CompositeError>,
                         i: nat, j: nat) returns (k: nat)
    requires FreshRun(comps, implements, calls, err)
    requires i < |calls| && j < |calls[i].args| && j < |calls[i].comp.consumes| && calls[i].comp.consumes[j].Concrete?
    ensures var c, t := calls[i].comp, calls[i].comp.consumes[j];
            && k < i && OtherProducer(calls[k].comp, c.name, t)
            && calls[k].outcome.Returned? && calls[i].args[j] == Single(calls[k].outcome.value)
            && forall p | p in comps && OtherProducer(p, c.name, t) :: p == calls[k].comp
  {
    var c, t := calls[i].comp, calls[i].comp.consumes[j];
    CallsInOrder(comps, implements, calls, err);
    var runErr := CalledRunIsGraphRun(comps, calls, err);
    k := ConcreteComesFromStore(implements, calls[..i], t, calls[i].args[j]);
    assert Names(calls)[k] != Names(calls)[i];
    assert !Ambiguous(comps, c, t);
    forall p | p in comps && OtherProducer(p, c.name, t) ensures p == calls[k].comp {
      OnlyProducer(comps, c.name, t, p, calls[k].comp);
    }
  }

  lemma ConcreteComesFromStore(implements: Implements, before: seq<Call>, t: Type, arg: Arg) returns (k: nat)
    requires Provided(implements, before, t, arg) && t.Concrete?
    ensures k < |before| && before[k].comp.produces == Some(t)
    ensures before[k].outcome.Returned? && arg == Single(before[k].outcome.value)
  {
    var outputs := Outputs(before, t);
    OutputsAre(before, t, outputs[|outputs| - 1]);
    k :| StoredBy(before, k, t, outputs[|outputs| - 1]);
  }

  lemma OnlyProducer(comps: seq<Component>, consumer: string, t: Type, p: Component, q: Component)
    requires DistinctNames(comps) && p in comps && q in comps
    requires OtherProducer(p, consumer, t) && OtherProducer(q, consumer, t)
    requires |Producers(comps, consumer, t)| <= 1
    ensures p == q
  {
    ProducersAre(comps, consumer, t, p.name);
    ProducersAre(comps, consumer, t, q.name);
    SameName(comps, p, q);
  }

  ghost predicate OutputOf(calls: seq<Call>, i: nat, p: Component, v: Value) {
    exists k :: 0 <= k < i <= |calls| && calls[k].comp == p && calls[k].outcome == Returned(v)
  }

  /** Another producer of a type the i-th called component wants has returned before that call. */
  lemma ProducerHasReturned(comps: seq<Component>, implements: Implements, calls: seq<Call>,
                            err: Option<CompositeError>,
                            i: nat, p: Component, t: Type) returns (k: nat)
    requires FreshRun(comps, implements, calls, err) && i < |calls|
    requires p in comps && t in calls[i].comp.consumes && OtherProducer(p, calls[i].comp.name, Wanted(t))
    ensures k < i && calls[k].comp == p && calls[k].outcome.Returned?
  {
    CallsInOrder(comps, implements, calls, err);
    hide FreshRun, CallOk, InferredEdges;
    InferredEdge(comps, calls[i].comp, p.name);
    var m :| 0 <= m < |comps| && comps[m] == p;
    assert IsName(comps, p.name);
    assert Names(calls)[i] == calls[i].comp.name;
    k :| 0 <= k < i && Names(calls)[..i][k] == p.name;
    SameName(comps, p, calls[k].comp);
    ReturnedUnlessFailed(implements, calls[..k], calls[k]);
  }

  lemma ReturnedUnlessFailed(implements: Implements, before: seq<Call>, c: Call)
    requires CallOk(Self, implements, before, c) && !c.outcome.Failed?
    ensures c.outcome.Returned? && |c.args| == |c.comp.consumes|
    ensures c.comp.apply(c.args) == Success(c.outcome.value)
  {
  }

  /** A parameter that is a slice of a type other than an interface receives, for every
      other producer of the element type, an entry with the key of its output; no two
      entries share a key, and every entry is the output of another producer. */
  lemma SliceArgument(comps: seq<Component>, implements: Implements, calls: seq<Call>, err: Option<CompositeError>,
                      i: nat, j: nat)
    requires FreshRun(comps, implements, calls, err)
    requires i < |calls| && j < |calls[i].args| && j < |calls[i].comp.consumes|
    requires calls[i].comp.consumes[j].Slice? && !calls[i].comp.consumes[j].elem.Interface?
    ensures var c, t := calls[i].comp, calls[i].comp.consumes[j].elem;
            && calls[i].args[j].Many?
            && var vs := calls[i].args[j].values;
            && DistinctKeys(vs)
            && (forall p | p in comps && OtherProducer(p, c.name, t) ::
                  exists v :: OutputOf(calls, i, p, v) && HasKey(vs, UniqueKey(v)))
            && (forall v | v in vs ::
                  exists p :: p in comps && OtherProducer(p, c.name, t) && OutputOf(calls, i, p, v))
  {
    var c, t := calls[i].comp, calls[i].comp.consumes[j].elem;
    CallsInOrder(comps, implements, calls, err);
    assert Provided(implements, calls[..i], c.consumes[j], calls[i].args[j]);
    var vs, outputs := calls[i].args[j].values, Outputs(calls[..i], t);
    DedupKeeps(outputs);
    forall p | p in comps && OtherProducer(p, c.name, t)
      ensures exists v :: OutputOf(calls, i, p, v) && HasKey(vs, UniqueKey(v))
    {
      var k := ProducerHasReturned(comps, implements, calls, err, i, p, c.consumes[j]);
      var v := calls[k].outcome.value;
      assert StoredBy(calls[..i], k, t, v);
      OutputsAre(calls[..i], t, v);
      assert OutputOf(calls, i, p, v) && HasKey(vs, UniqueKey(v));
    }
    forall v | v in vs ensures exists p :: p in comps && OtherProducer(p, c.name, t) && OutputOf(calls, i, p, v) {
      OutputsAre(calls[..i], t, v);
      var k :| StoredBy(calls[..i], k, t, v);
      assert Names(calls)[k] != Names(calls)[i];
      assert OutputOf(calls, i, calls[k].comp, v);
    }
  }

  /** A parameter that is a slice of an interface type receives, for every other producer of
      that interface and every other component whose output implements it, an entry with the
      key of its output; no two entries share a key, and every entry is such an output. */
  lemma InterfaceSliceArgument(comps: seq<Component>, implements: Implements, calls: seq<Call>,
                               err: Option<CompositeError>, i: nat, j: nat)
    requires FreshRun(comps, implements, calls, err) && WellTyped(comps, implements)
    requires i < |calls| && j < |calls[i].args| && j < |calls[i].comp.consumes|
    requires calls[i].comp.consumes[j].Slice? && calls[i].comp.consumes[j].elem.Interface?
    ensures var c, t := calls[i].comp, calls[i].comp.consumes[j].elem;
            && calls[i].args[j].Many?
            && var vs := calls[i].args[j].values;
            && DistinctKeys(vs)
            && (forall p | p in comps && OtherProducer(p, c.name, t) ::
                  exists v :: OutputOf(calls, i, p, v) && Satisfies(implements, v, t) && HasKey(vs, UniqueKey(v)))
            && (forall p: Component, v | p.produces.Some? && OutputOf(calls, i, p, v) && Satisfies(implements, v, t) ::
                  HasKey(vs, UniqueKey(v)))
            && (forall v | v in vs ::
                  Satisfies(implements, v, t) && exists p :: p in comps && p.produces.Some? && OutputOf(calls, i, p, v))
  {
    var c, t := calls[i].comp, calls[i].comp.consumes[j].elem;
    CallsInOrder(comps, implements, calls, err);
    assert Provided(implements, calls[..i], c.consumes[j], calls[i].args[j]);
    ImplementersProvided(implements, calls[..i], c.consumes[j], calls[i].args[j]);
    ImplementersAre(implements, calls[..i], t, calls[i].args[j].values);
    hide FreshRun, CallOk, Provided, DependenciesFirst, Distinct, Outputs, DistinctKeys, HasKey, WellTyped, StoredValue,
      OutputOf, Satisfies;
    var vs := calls[i].args[j].values;
    forall p: Component, v | p.produces.Some? && OutputOf(calls, i, p, v) && Satisfies(implements, v, t)
      ensures HasKey(vs, UniqueKey(v))
    {
      OutputIsStored(calls, i, p, v);
    }
    forall p | p in comps && OtherProducer(p, c.name, t)
      ensures exists v :: OutputOf(calls, i, p, v) && Satisfies(implements, v, t) && HasKey(vs, UniqueKey(v))
    {
      var v := ImplementerReturned(comps, implements, calls, err, i, p, c.consumes[j]);
      OutputIsStored(calls, i, p, v);
    }
    forall v | v in vs ensures exists p :: p in comps && p.produces.Some? && OutputOf(calls, i, p, v) {
      var k := StoredIsOutput(calls, i, v);
    }
  }

  lemma ImplementersProvided(implements: Implements, before: seq<Call>, t: Type, arg: Arg)
    requires t.Slice? && t.elem.Interface? && Provided(implements, before, t, arg)
    ensures arg.Many? && !StoredValue(before, Nil) && Implementers(implements, before, t.elem, arg.values)
  {
  }

  lemma OutputIsStored(calls: seq<Call>, i: nat, p: Component, v: Value)
    requires i <= |calls| && p.produces.Some? && OutputOf(calls, i, p, v)
    ensures StoredValue(calls[..i], v)
  {
    hide Outputs;
    var k :| 0 <= k < i && calls[k].comp == p && calls[k].outcome == Returned(v);
    assert StoredBy(calls[..i], k, p.produces.value, v);
    OutputsAre(calls[..i], p.produces.value, v);
  }

  lemma StoredIsOutput(calls: seq<Call>, i: nat, v: Value) returns (k: nat)
    requires i <= |calls| && StoredValue(calls[..i], v)
    ensures k < i && calls[k].comp.produces.Some? && calls[k].outcome == Returned(v)
    ensures OutputOf(calls, i, calls[k].comp, v)
  {
    hide Outputs;
    var t :| v in Outputs(calls[..i], t);
    OutputsAre(calls[..i], t, v);
    k :| StoredBy(calls[..i], k, t, v);
  }

  /** A producer of an interface that is consumed has returned an implementer, if no nil is stored. */
  lemma ImplementerReturned(comps: seq<Component>, implements: Implements, calls: seq<Call>,
                            err: Option<CompositeError>,
                            i: nat, p: Component, u: Type) returns (v: Value)
    requires FreshRun(comps, implements, calls, err) && WellTyped(comps, implements) && i < |calls|
    requires u in calls[i].comp.consumes && Wanted(u).Interface? && !StoredValue(calls[..i], Nil)
    requires p in comps && OtherProducer(p, calls[i].comp.name, Wanted(u))
    ensures OutputOf(calls, i, p, v) && Satisfies(implements, v, Wanted(u))
  {
    hide FreshRun, WellTyped, StoredValue;
    var k := ProducerHasReturned(comps, implements, calls, err, i, p, u);
    v := calls[k].outcome.value;
    assert OutputOf(calls, i, p, v);
    OutputIsStored(calls, i, p, v);
    ReturnedFits(comps, implements, calls, err, k);
  }

  // ---------------------------------------------------------------- types

  /** Results of such a type are errors: one that is not nil is what the call fails with. */
  predicate ErrorType(implements: Implements, t: Type) {
    t == ERROR || implements(t, ERROR)
  }

  /** A dynamic type that a first result of type t may have when the call does not fail. */
  ghost predicate Fits(implements: Implements, d: Type, t: Type) {
    !ErrorType(implements, t) && !d.Interface? && if t.Interface? then implements(d, t) else d == t
  }

  /** Go's typing of first results: only an interface may hold nil, and an error that was not
      the failure of the call is nil. */
  ghost predicate ResultFits(implements: Implements, v: Value, t: Type) {
    if v.Nil? then t.Interface? else Fits(implements, v.dyn, t)
  }

  ghost predicate WellTyped(comps: seq<Component>, implements: Implements) {
    forall c, args | c in comps && c.produces.Some? && c.apply(args).Success? ::
      ResultFits(implements, c.apply(args).value, c.produces.value)
  }

  lemma ReturnedFits(comps: seq<Component>, implements: Implements, calls: seq<Call>, err: Option<CompositeError>,
                     k: nat)
    requires FreshRun(comps, implements, calls, err) && WellTyped(comps, implements)
    requires k < |calls| && calls[k].outcome.Returned? && calls[k].comp.produces.Some?
    ensures ResultFits(implements, calls[k].outcome.value, calls[k].comp.produces.value)
  {
    CallsInOrder(comps, implements, calls, err);
    hide FreshRun, DependenciesFirst, CallOk, ResultFits;
    ReturnedUnlessFailed(implements, calls[..k], calls[k]);
    assert calls[k].comp.apply(calls[k].args).Success?;
  }

  lemma StoredFits(comps: seq<Component>, implements: Implements, calls: seq<Call>, err: Option<CompositeError>,
                   i: nat, t: Type, v: Value)
    requires FreshRun(comps, implements, calls, err) && WellTyped(comps, implements) && i <= |calls|
    requires v in Outputs(calls[..i], t)
    ensures ResultFits(implements, v, t)
  {
    OutputsAre(calls[..i], t, v);
    hide FreshRun, Outputs, WellTyped, ResultFits;
    var k :| StoredBy(calls[..i], k, t, v);
    ReturnedFits(comps, implements, calls, err, k);
  }

  // ---------------------------------------------------------------- success

  ghost predicate NeverFails(comps: seq<Component>) {
    forall c, args | c in comps :: c.apply(args).Success?
  }

  ghost predicate NoCycle(comps: seq<Component>)
    requires DistinctNames(comps)
  {
    forall c | c in comps :: !ReachesCycle(InferredEdges(comps), c.name)
  }

  lemma CallStopsAtMissing(implements: Implements, before: seq<Call>, c: Call)
    requires CallOk(Self, implements, before, c)
    ensures |c.args| <= |c.comp.consumes|
    ensures |c.args| < |c.comp.consumes| ==>
              c.outcome.Failed? && Unavailable(implements, before, c.comp.consumes[|c.args|], c.outcome.error)
  {
  }

  /** A composite that runs without error has no cycle, and one producer for each concrete parameter. */
  lemma SucceedsOnlyIf(comps: seq<Component>, implements: Implements, calls: seq<Call>)
    requires FreshRun(comps, implements, calls, None)
    ensures NoCycle(comps)
    ensures forall c, t | c in comps && t in c.consumes && t.Concrete? :: |Producers(comps, c.name, t)| == 1
  {
    var runErr := CalledRunIsGraphRun(comps, calls, None);
    CycleReportedExactly(comps, InferredEdges(comps), calls, runErr);
    hide FreshRun, GraphRun, InferredEdges, Producers;
    forall c, t | c in comps && t in c.consumes && t.Concrete? ensures |Producers(comps, c.name, t)| == 1 {
      HasProducer(comps, implements, calls, c, t);
      assert !Ambiguous(comps, c, t);
    }
  }

  /** In a successful run each called component had all its arguments. */
  lemma CallOfComponent(comps: seq<Component>, implements: Implements, calls: seq<Call>, c: Component) returns (i: nat)
    requires FreshRun(comps, implements, calls, None) && c in comps
    ensures i < |calls| && calls[i].comp == c && calls[i].outcome.Returned?
    ensures |calls[i].args| == |c.consumes| && c.apply(calls[i].args) == Success(calls[i].outcome.value)
  {
    hide FreshRun, InferredEdges;
    i := CallByName(comps, implements, calls, c);
    CallsInOrder(comps, implements, calls, None);
    hide CallOk, DependenciesFirst;
    SameName(comps, c, calls[i].comp);
    ReturnedUnlessFailed(implements, calls[..i], calls[i]);
  }

  lemma CallByName(comps: seq<Component>, implements: Implements, calls: seq<Call>, c: Component) returns (i: nat)
    requires FreshRun(comps, implements, calls, None) && c in comps
    ensures i < |calls| && calls[i].comp.name == c.name && calls[i].outcome.Returned? && calls[i].comp in comps
    ensures DistinctNames(comps)
  {
    var runErr := CalledRunIsGraphRun(comps, calls, None);
    RunIsTopological(comps, InferredEdges(comps), calls, runErr);
    CallsInOrder(comps, implements, calls, None);
    hide GraphRun, InferredEdges, CompositeRun, HistoryOk, DependenciesFirst, Distinct;
    i := NameIsCalled(comps, calls, c);
    ReturnedUnlessFailed(implements, calls[..i], calls[i]);
  }

  lemma NameIsCalled(comps: seq<Component>, calls: seq<Call>, c: Component) returns (i: nat)
    requires multiset(Names(calls)) == multiset(Registered(comps)) && c in comps
    ensures i < |calls| && calls[i].comp.name == c.name
  {
    var m :| 0 <= m < |comps| && comps[m] == c;
    assert Registered(comps)[m] == c.name && c.name in multiset(Registered(comps));
    assert c.name in multiset(Names(calls));
    i :| 0 <= i < |calls| && Names(calls)[i] == c.name;
  }

  lemma HasProducer(comps: seq<Component>, implements: Implements, calls: seq<Call>, c: Component, t: Type)
    requires FreshRun(comps, implements, calls, None)
    requires c in comps && t in c.consumes && t.Concrete?
    ensures |Producers(comps, c.name, t)| >= 1
  {
    var i := CallOfComponent(comps, implements, calls, c);
    var j :| 0 <= j < |c.consumes| && c.consumes[j] == t;
    var k := ConcreteArgument(comps, implements, calls, None, i, j);
    var runErr := CalledRunIsGraphRun(comps, calls, None);
    RunIsTopological(comps, InferredEdges(comps), calls, runErr);
    ProducersAre(comps, c.name, t, calls[k].comp.name);
  }
}
