/** How far the outcome of a composite depends on the order in which its components are
    registered. A run that succeeds computes a solution of the equations "the value of a
    component is its Apply method at the values of its producers"; every other run over
    the same components follows that solution call by call. */
module CompositeRegistration {
  import opened Options
  import opened Graph
  import opened DepthFirst
  import opened CompositeModel
  import opened CompositeSearch
  import opened CompositeOrder
  import opened CompositeValues
  import opened CompositeSuccess
  import opened CompositeRearrangement
  import opened CompositePrecedence

  type Valuation = map<string, Value>

  /** The value returned by each called component. */
  ghost function ValuesOf(calls: seq<Call>): Valuation {
    if calls == [] then map[]
    else
      var c := calls[|calls| - 1];
      var before := ValuesOf(calls[..|calls| - 1]);
      if c.outcome.Returned? then before[c.comp.name := c.outcome.value] else before
  }

  // ---------------------------------------------------------------- the equations

  ghost predicate ProducesUnder(comps: seq<Component>, values: Valuation, c: Component, t: Type, p: Component,
                                v: Value) {
    p in comps && OtherProducer(p, c.name, t) && p.name in values && values[p.name] == v
  }

  ghost predicate SliceFrom(comps: seq<Component>, values: Valuation, c: Component, t: Type, vs: seq<Value>) {
    && DistinctKeys(vs)
    && (forall p | p in comps && OtherProducer(p, c.name, t) ::
          p.name in values && HasKey(vs, UniqueKey(values[p.name])))
    && (forall v | v in vs :: exists p :: ProducesUnder(comps, values, c, t, p, v))
  }

  ghost predicate ArgFrom(comps: seq<Component>, values: Valuation, c: Component, t: Type, arg: Arg) {
    if t.Slice? then arg.Many? && SliceFrom(comps, values, c, t.elem, arg.values)
    else arg.Single? && exists p :: ProducesUnder(comps, values, c, t, p, arg.value)
  }

  ghost predicate ArgsFrom(comps: seq<Component>, values: Valuation, c: Component, args: seq<Arg>) {
    && |args| == |c.consumes|
    && forall j | 0 <= j < |args| :: ArgFrom(comps, values, c, c.consumes[j], args[j])
  }

  ghost predicate Justified(comps: seq<Component>, values: Valuation, c: Component, args: seq<Arg>) {
    c.name in values && ArgsFrom(comps, values, c, args) && c.apply(args) == Success(values[c.name])
  }

  ghost predicate Solves(comps: seq<Component>, values: Valuation) {
    forall c | c in comps :: exists args :: Justified(comps, values, c, args)
  }

  // ---------------------------------------------------------------- tolerance of reordering

  ghost predicate SameArg(a: Arg, b: Arg) {
    match (a, b)
    case (Single(v), Single(w)) => v == w
    case (Many(vs), Many(ws)) => DistinctKeys(vs) && DistinctKeys(ws) && forall v :: v in vs <==> v in ws
    case _ => false
  }

  ghost predicate SameUpToOrder(a: seq<Arg>, b: seq<Arg>) {
    |a| == |b| && forall j | 0 <= j < |a| :: SameArg(a[j], b[j])
  }

  ghost predicate TakesSlice(c: Component) {
    exists t :: t in c.consumes && t.Slice?
  }

  ghost predicate OrderInsensitive(c: Component) {
    forall a, b | SameUpToOrder(a, b) :: c.apply(a) == c.apply(b)
  }

  ghost predicate CanReturn(comps: seq<Component>, v: Value) {
    exists c, args :: c in comps && c.apply(args) == Success(v)
  }

  /** Values the components can return are equal when their keys are. */
  ghost predicate FaithfulKeys(comps: seq<Component>) {
    forall v, w | CanReturn(comps, v) && CanReturn(comps, w) && UniqueKey(v) == UniqueKey(w) :: v == w
  }

  /** Consumers of slices do not look at the order of their elements, and keys identify
      values; no condition on a composite without slice parameters. */
  ghost predicate ReorderTolerant(comps: seq<Component>) {
    forall c | c in comps && TakesSlice(c) :: OrderInsensitive(c) && FaithfulKeys(comps)
  }

  // ---------------------------------------------------------------- runs follow a solution

  lemma SlicesFromSolutionAgree(comps: seq<Component>, values: Valuation, c: Component, t: Type, vs: seq<Value>,
                                ws: seq<Value>)
    requires Solves(comps, values) && FaithfulKeys(comps)
    requires SliceFrom(comps, values, c, t, vs) && SliceFrom(comps, values, c, t, ws)
    ensures forall v | v in vs :: v in ws
  {
    forall v | v in vs ensures v in ws {
      var p :| ProducesUnder(comps, values, c, t, p, v);
      var i :| 0 <= i < |ws| && UniqueKey(ws[i]) == UniqueKey(v);
      assert ws[i] in ws;
      var q :| ProducesUnder(comps, values, c, t, q, ws[i]);
      SolutionValueCanReturn(comps, values, p);
      SolutionValueCanReturn(comps, values, q);
    }
  }

  lemma SolutionValueCanReturn(comps: seq<Component>, values: Valuation, p: Component)
    requires Solves(comps, values) && p in comps
    ensures p.name in values && CanReturn(comps, values[p.name])
  {
    var args: seq<Arg> :| Justified(comps, values, p, args);
  }

  /** Two argument lists read off the same solution agree up to the order within slices. */
  lemma ArgsFromSolutionAgree(comps: seq<Component>, values: Valuation, c: Component, a: seq<Arg>, b: seq<Arg>)
    requires DistinctNames(comps) && Solves(comps, values) && c in comps && ReorderTolerant(comps)
    requires forall t | t in c.consumes && !t.Slice? :: |Producers(comps, c.name, t)| <= 1
    requires ArgsFrom(comps, values, c, a) && ArgsFrom(comps, values, c, b)
    ensures SameUpToOrder(a, b) && (!TakesSlice(c) ==> a == b)
  {
    forall j | 0 <= j < |a| ensures SameArg(a[j], b[j]) && (!TakesSlice(c) ==> a[j] == b[j]) {
      var t := c.consumes[j];
      if t.Slice? {
        assert TakesSlice(c);
        SlicesFromSolutionAgree(comps, values, c, t.elem, a[j].values, b[j].values);
        SlicesFromSolutionAgree(comps, values, c, t.elem, b[j].values, a[j].values);
      } else {
        var p :| ProducesUnder(comps, values, c, t, p, a[j].value);
        var q :| ProducesUnder(comps, values, c, t, q, b[j].value);
        OnlyProducer(comps, c.name, t, p, q);
      }
    }
  }

  lemma SolvableHasUniqueSingles(comps: seq<Component>, values: Valuation)
    requires Solves(comps, values) && ProperParameters(comps) && forall c, t :: !Ambiguous(comps, c, t)
    ensures UniqueSingles(comps)
  {
    forall c, t | c in comps && t in c.consumes && !t.Slice? ensures |Producers(comps, c.name, t)| == 1 {
      var args: seq<Arg> :| Justified(comps, values, c, args);
      var j :| 0 <= j < |c.consumes| && c.consumes[j] == t;
      assert ArgFrom(comps, values, c, t, args[j]);
      var p :| ProducesUnder(comps, values, c, t, p, args[j].value);
      ProducersAre(comps, c.name, t, p.name);
      assert !Ambiguous(comps, c, t);
    }
  }

  ghost predicate Agrees(values: Valuation, c: Call) {
    c.comp.name in values && c.outcome == Returned(values[c.comp.name])
  }

  /** The arguments of a call are read off values when all earlier calls agree with values. */
  lemma ArgsFollow(comps: seq<Component>, implements: Implements, calls: seq<Call>, err: Option<CompositeError>,
                   values: Valuation, i: nat)
    requires FreshRun(comps, implements, calls, err) && i < |calls| && ProperParameters(comps)
    requires InterfacesSettled(comps, implements)
    requires forall k | 0 <= k < i :: Agrees(values, calls[k])
    requires |calls[i].args| == |calls[i].comp.consumes|
    ensures ArgsFrom(comps, values, calls[i].comp, calls[i].args)
  {
    hide *;
    forall j | 0 <= j < |calls[i].comp.consumes|
      ensures ArgFrom(comps, values, calls[i].comp, calls[i].comp.consumes[j], calls[i].args[j])
    {
      CalledProperParameter(comps, implements, calls, err, i, j);
      if calls[i].comp.consumes[j].Slice? {
        SliceFollows(comps, implements, calls, err, values, i, j);
      } else {
        SingleFollows(comps, implements, calls, err, values, i, j);
      }
    }
    ArgsFromEach(comps, values, calls[i].comp, calls[i].args);
  }

  lemma ArgsFromEach(comps: seq<Component>, values: Valuation, c: Component, args: seq<Arg>)
    requires |args| == |c.consumes| && forall j | 0 <= j < |args| :: ArgFrom(comps, values, c, c.consumes[j], args[j])
    ensures ArgsFrom(comps, values, c, args)
  {
    hide ArgFrom;
  }

  lemma CalledProperParameter(comps: seq<Component>, implements: Implements, calls: seq<Call>,
                              err: Option<CompositeError>, i: nat, j: nat)
    requires FreshRun(comps, implements, calls, err) && i < |calls| && j < |calls[i].comp.consumes|
    requires ProperParameters(comps)
    ensures var t := calls[i].comp.consumes[j]; !t.Slice? || !t.elem.Interface?
  {
    hide FreshRun;
    CallsInOrder(comps, implements, calls, err);
    hide CallOk, DependenciesFirst, Producers;
    assert ProperParameter(comps, calls[i].comp, calls[i].comp.consumes[j]);
  }

  lemma SingleFollows(comps: seq<Component>, implements: Implements, calls: seq<Call>, err: Option<CompositeError>,
                      values: Valuation, i: nat, j: nat)
    requires FreshRun(comps, implements, calls, err) && i < |calls| && InterfacesSettled(comps, implements)
    requires j < |calls[i].args| && j < |calls[i].comp.consumes| && !calls[i].comp.consumes[j].Slice?
    requires forall k | 0 <= k < i :: Agrees(values, calls[k])
    ensures ArgFrom(comps, values, calls[i].comp, calls[i].comp.consumes[j], calls[i].args[j])
  {
    hide FreshRun, InterfacesSettled;
    CallsInOrder(comps, implements, calls, err);
    var k := SingleArgument(comps, implements, calls, err, i, j);
    hide DependenciesFirst, CallOk, InferredEdges;
    assert Agrees(values, calls[k]);
    assert ProducesUnder(comps, values, calls[i].comp, calls[i].comp.consumes[j], calls[k].comp,
                         calls[k].outcome.value);
  }

  lemma SliceFollows(comps: seq<Component>, implements: Implements, calls: seq<Call>, err: Option<CompositeError>,
                     values: Valuation, i: nat, j: nat)
    requires FreshRun(comps, implements, calls, err) && i < |calls|
    requires j < |calls[i].args| && j < |calls[i].comp.consumes|
    requires calls[i].comp.consumes[j].Slice? && !calls[i].comp.consumes[j].elem.Interface?
    requires forall k | 0 <= k < i :: Agrees(values, calls[k])
    ensures ArgFrom(comps, values, calls[i].comp, calls[i].comp.consumes[j], calls[i].args[j])
  {
    SliceArgument(comps, implements, calls, err, i, j);
    hide FreshRun;
    var c, t, vs := calls[i].comp, calls[i].comp.consumes[j].elem, calls[i].args[j].values;
    forall p, v | OutputOf(calls, i, p, v) ensures p.name in values && values[p.name] == v {
      var k :| 0 <= k < i && calls[k].comp == p && calls[k].outcome == Returned(v);
      assert Agrees(values, calls[k]);
    }
    forall v | v in vs ensures exists p :: ProducesUnder(comps, values, c, t, p, v) {
      var p :| p in comps && OtherProducer(p, c.name, t) && OutputOf(calls, i, p, v);
      assert ProducesUnder(comps, values, c, t, p, v);
    }
  }

  /** No call up to the i-th looks for an interface while a nil is stored. */
  ghost predicate FindsNoNil(calls: seq<Call>, i: nat) {
    forall k | 0 <= k <= i && k < |calls| && ConsumesInterface(calls[k].comp) :: !StoredValue(calls[..k], Nil)
  }

  /** A call returns what a solution prescribes if all earlier calls do. */
  lemma CallFollowsSolution(comps: seq<Component>, implements: Implements, calls: seq<Call>,
                            err: Option<CompositeError>,
                            values: Valuation, i: nat)
    requires FreshRun(comps, implements, calls, err) && i < |calls| && ReorderTolerant(comps) && Solves(comps, values)
    requires ProperParameters(comps) && WellTyped(comps, implements) && InterfacesSettled(comps, implements)
    requires ConsumesInterface(calls[i].comp) ==> !StoredValue(calls[..i], Nil)
    requires forall k | 0 <= k < i :: Agrees(values, calls[k])
    ensures Agrees(values, calls[i])
  {
    CallsInOrder(comps, implements, calls, err);
    var runErr := CalledRunIsGraphRun(comps, calls, err);
    SolvableHasUniqueSingles(comps, values);
    ArgumentsAreComplete(comps, implements, calls, err, i);
    ArgsFollow(comps, implements, calls, err, values, i);
    var c := calls[i].comp;
    assert forall t | t in c.consumes && !t.Slice? :: !Ambiguous(comps, c, t);
    hide FreshRun, GraphRun, InferredEdges, DependenciesFirst, ProperParameters, WellTyped, InterfacesSettled,
      StoredValue;
    var args: seq<Arg> :| Justified(comps, values, c, args);
    ArgsFromSolutionAgree(comps, values, c, calls[i].args, args);
  }

  /** Every call of a run returns what a solution prescribes; in particular none fails. */
  lemma {:induction false} RunFollowsSolution(comps: seq<Component>, implements: Implements, calls: seq<Call>,
                                              err: Option<CompositeError>, values: Valuation, i: nat)
    requires FreshRun(comps, implements, calls, err) && i < |calls| && ReorderTolerant(comps) && Solves(comps, values)
    requires ProperParameters(comps) && WellTyped(comps, implements) && InterfacesSettled(comps, implements)
    requires FindsNoNil(calls, i)
    ensures Agrees(values, calls[i])
    decreases i
  {
    FreshIsDistinct(comps, implements, calls, err);
    hide FreshRun, DistinctNames, ReorderTolerant, Solves, ProperParameters, WellTyped, InterfacesSettled, Agrees,
      StoredValue;
    forall k | 0 <= k < i ensures Agrees(values, calls[k]) {
      RunFollowsSolution(comps, implements, calls, err, values, k);
    }
    CallFollowsSolution(comps, implements, calls, err, values, i);
  }

  // ---------------------------------------------------------------- successful runs solve the equations

  lemma {:induction false} ValueAt(calls: seq<Call>, i: nat)
    requires i < |calls| && Distinct(Names(calls)) && calls[i].outcome.Returned?
    ensures Agrees(ValuesOf(calls), calls[i])
  {
    var front, last := calls[..|calls| - 1], calls[|calls| - 1];
    assert Names(front) == Names(calls)[..|front|];
    if i < |front| {
      ValueAt(front, i);
      assert Names(calls)[i] != Names(calls)[|front|];
    }
  }

  /** The values of a successful run solve the equations of its components. */
  lemma SuccessfulRunSolves(comps: seq<Component>, implements: Implements, calls: seq<Call>)
    requires FreshRun(comps, implements, calls, None) && ProperParameters(comps) && InterfacesSettled(comps, implements)
    ensures Solves(comps, ValuesOf(calls))
    ensures forall i | 0 <= i < |calls| :: Agrees(ValuesOf(calls), calls[i])
  {
    var values := ValuesOf(calls);
    var runErr := CalledRunIsGraphRun(comps, calls, None);
    RunIsTopological(comps, InferredEdges(comps), calls, runErr);
    CallsInOrder(comps, implements, calls, None);
    hide HistoryOk, GraphRun, InferredEdges, DependenciesFirst, CompositeRun;
    forall i | 0 <= i < |calls| ensures Agrees(values, calls[i]) {
      ReturnedUnlessFailed(implements, calls[..i], calls[i]);
      ValueAt(calls, i);
    }
    forall c | c in comps ensures exists args :: Justified(comps, values, c, args) {
      var i := CallOfComponent(comps, implements, calls, c);
      ArgsFollow(comps, implements, calls, None, values, i);
      assert Justified(comps, values, c, calls[i].args);
    }
  }

  lemma SuccessFindsNoNil(comps: seq<Component>, implements: Implements, calls: seq<Call>, i: nat)
    requires FreshRun(comps, implements, calls, None) && i < |calls|
    ensures FindsNoNil(calls, i)
  {
    CallsInOrder(comps, implements, calls, None);
    var runErr := CalledRunIsGraphRun(comps, calls, None);
    RunIsTopological(comps, InferredEdges(comps), calls, runErr);
    hide FreshRun, GraphRun, CallOk, DependenciesFirst, StoredValue, ConsumesInterface, InferredEdges, Distinct;
    forall k | 0 <= k <= i && ConsumesInterface(calls[k].comp) ensures !StoredValue(calls[..k], Nil) {
      ReturnedUnlessFailed(implements, calls[..k], calls[k]);
      NoNilWasStored(comps, implements, calls, None, k);
    }
  }

  /** The equations of a composite that runs without error have no other solution. */
  lemma SolutionIsUnique(comps: seq<Component>, implements: Implements, calls: seq<Call>, values: Valuation)
    requires FreshRun(comps, implements, calls, None) && ReorderTolerant(comps) && Solves(comps, values)
    requires ProperParameters(comps) && WellTyped(comps, implements) && InterfacesSettled(comps, implements)
    ensures forall i | 0 <= i < |calls| :: Agrees(values, calls[i])
    ensures forall c | c in comps ::
              c.name in values && c.name in ValuesOf(calls) && values[c.name] == ValuesOf(calls)[c.name]
  {
    SuccessfulRunSolves(comps, implements, calls);
    FreshIsDistinct(comps, implements, calls, None);
    hide FreshRun, DistinctNames, ReorderTolerant, Solves, ProperParameters, WellTyped, InterfacesSettled, FindsNoNil;
    forall i | 0 <= i < |calls| ensures Agrees(values, calls[i]) {
      SuccessFindsNoNil(comps, implements, calls, i);
      RunFollowsSolution(comps, implements, calls, None, values, i);
    }
    forall c | c in comps
      ensures c.name in values && c.name in ValuesOf(calls) && values[c.name] == ValuesOf(calls)[c.name]
    {
      var i := CallOfComponent(comps, implements, calls, c);
      assert Agrees(ValuesOf(calls), calls[i]);
    }
  }

  // ---------------------------------------------------------------- the store

  ghost predicate Makes(comps: seq<Component>, n: string, t: Type) {
    exists c :: c in comps && c.name == n && c.produces == Some(t)
  }

  /** The values of the producers of t among the names, in their order. */
  ghost function ValuesInOrder(comps: seq<Component>, values: Valuation, names: seq<string>, t: Type): seq<Value> {
    if names == [] then []
    else
      var n := names[|names| - 1];
      ValuesInOrder(comps, values, names[..|names| - 1], t)
      + if Makes(comps, n, t) && n in values then [values[n]] else []
  }

  lemma {:induction false} OutputsInOrder(comps: seq<Component>, calls: seq<Call>, values: Valuation, t: Type)
    requires DistinctNames(comps) && forall i | 0 <= i < |calls| :: calls[i].comp in comps && Agrees(values, calls[i])
    ensures Outputs(calls, t) == ValuesInOrder(comps, values, Names(calls), t)
  {
    if calls != [] {
      var front, last := calls[..|calls| - 1], calls[|calls| - 1];
      forall i | 0 <= i < |front| ensures front[i].comp in comps && Agrees(values, front[i]) {
        assert front[i] == calls[i];
      }
      OutputsInOrder(comps, front, values, t);
      assert Names(calls)[..|front|] == Names(front);
      if Makes(comps, last.comp.name, t) {
        var c :| c in comps && c.name == last.comp.name && c.produces == Some(t);
        SameName(comps, c, last.comp);
      }
    }
  }

  /** After a successful run the two result maps hold exactly the values of the solution: under
      every type those of its producers, in the order of the schedule, and the last of them. */
  lemma StoreHoldsSolution(comps: seq<Component>, implements: Implements, calls: seq<Call>, values: Valuation,
                           results: map<Type, Value>, sliceResults: map<Type, seq<Value>>, t: Type)
    requires FreshRun(comps, implements, calls, None) && ReorderTolerant(comps) && Solves(comps, values)
    requires ProperParameters(comps) && WellTyped(comps, implements) && InterfacesSettled(comps, implements)
    requires StoreMatches(results, sliceResults, calls)
    ensures HoldsOutputs(results, sliceResults, t, ValuesInOrder(comps, values, Schedule(comps), t))
  {
    SolutionIsUnique(comps, implements, calls, values);
    CallsInOrder(comps, implements, calls, None);
    CallsFollowSchedule(comps, implements, calls, None);
    FreshIsDistinct(comps, implements, calls, None);
    hide FreshRun, CallOk, DependenciesFirst, ReorderTolerant, Solves, ProperParameters, WellTyped, InterfacesSettled,
      Schedule, Outputs, HoldsOutputs, Agrees, DistinctNames, ValuesInOrder;
    OutputsInOrder(comps, calls, values, t);
  }

  // ---------------------------------------------------------------- other orders of registration

  /** The values of a registration, under the names of another. */
  ghost function Moved(comps: seq<Component>, comps': seq<Component>, b: Bijection, values: Valuation): Valuation
    requires Matched(comps, comps', b)
  {
    map i | 0 <= i < |comps'| && comps[b.to[i]].name in values :: comps'[i].name := values[comps[b.to[i]].name]
  }

  lemma MovedAt(comps: seq<Component>, comps': seq<Component>, b: Bijection, values: Valuation, i: nat)
    requires Matched(comps, comps', b) && i < |comps'|
    ensures comps'[i].name in Moved(comps, comps', b, values) <==> comps[b.to[i]].name in values
    ensures comps[b.to[i]].name in values ==>
      Moved(comps, comps', b, values)[comps'[i].name] == values[comps[b.to[i]].name]
  {
  }

  lemma ProductMoves(comps: seq<Component>, comps': seq<Component>, b: Bijection, values: Valuation, j: nat, t: Type,
                     p: Component, v: Value)
      returns (p': Component)
    requires Matched(comps, comps', b) && j < |comps'| && ProducesUnder(comps, values, comps[b.to[j]], t, p, v)
    ensures ProducesUnder(comps', Moved(comps, comps', b, values), comps'[j], t, p', v)
  {
    var x :| 0 <= x < |comps| && comps[x] == p;
    var i := b.from[x];
    p' := comps'[i];
    MovedAt(comps, comps', b, values, i);
    FeedsIsOtherProducer(comps, x, b.to[j], t);
    FeedsCarries(comps, comps', b, i, j, t);
    FeedsIsOtherProducer(comps', i, j, t);
  }

  lemma ProducerMoves(comps: seq<Component>, comps': seq<Component>, b: Bijection, j: nat, t: Type, i: nat)
    requires Matched(comps, comps', b) && i < |comps'| && j < |comps'| && OtherProducer(comps'[i], comps'[j].name, t)
    ensures b.to[i] < |comps| && b.to[j] < |comps| && OtherProducer(comps[b.to[i]], comps[b.to[j]].name, t)
  {
    InRange(comps, comps', b, i);
    InRange(comps, comps', b, j);
    hide DistinctNames, IsBijection, Alike, OtherProducer;
    FeedsIsOtherProducer(comps', i, j, t);
    FeedsCarries(comps, comps', b, i, j, t);
    FeedsIsOtherProducer(comps, b.to[i], b.to[j], t);
  }

  lemma ProducerIsKept(comps: seq<Component>, comps': seq<Component>, b: Bijection, values: Valuation, j: nat, t: Type,
                       vs: seq<Value>, p: Component)
    requires Matched(comps, comps', b) && j < |comps'| && SliceFrom(comps, values, comps[b.to[j]], t, vs)
    requires p in comps' && OtherProducer(p, comps'[j].name, t)
    ensures var values' := Moved(comps, comps', b, values); p.name in values' && HasKey(vs, UniqueKey(values'[p.name]))
  {
    InRange(comps, comps', b, j);
    hide Matched, HasKey, DistinctKeys, Moved, OtherProducer, ProducesUnder;
    var i :| 0 <= i < |comps'| && comps'[i] == p;
    ProducerMoves(comps, comps', b, j, t, i);
    MovedAt(comps, comps', b, values, i);
    assert comps[b.to[i]] in comps;
  }

  lemma ValueIsProduced(comps: seq<Component>, comps': seq<Component>, b: Bijection, values: Valuation, j: nat, t: Type,
                        vs: seq<Value>, v: Value)
    requires Matched(comps, comps', b) && j < |comps'| && SliceFrom(comps, values, comps[b.to[j]], t, vs) && v in vs
    ensures exists p :: ProducesUnder(comps', Moved(comps, comps', b, values), comps'[j], t, p, v)
  {
    InRange(comps, comps', b, j);
    hide Matched, HasKey, DistinctKeys, Moved, OtherProducer, ProducesUnder;
    var p :| ProducesUnder(comps, values, comps[b.to[j]], t, p, v);
    var p' := ProductMoves(comps, comps', b, values, j, t, p, v);
  }

  lemma SliceMoves(comps: seq<Component>, comps': seq<Component>, b: Bijection, values: Valuation, j: nat, t: Type,
                   vs: seq<Value>)
    requires Matched(comps, comps', b) && j < |comps'| && SliceFrom(comps, values, comps[b.to[j]], t, vs)
    ensures SliceFrom(comps', Moved(comps, comps', b, values), comps'[j], t, vs)
  {
    var values' := Moved(comps, comps', b, values);
    InRange(comps, comps', b, j);
    assert DistinctKeys(vs);
    hide Matched, HasKey, DistinctKeys, Moved, OtherProducer, ProducesUnder;
    forall p | p in comps' && OtherProducer(p, comps'[j].name, t)
      ensures p.name in values' && HasKey(vs, UniqueKey(values'[p.name])) {
      ProducerIsKept(comps, comps', b, values, j, t, vs, p);
    }
    forall v | v in vs ensures exists p :: ProducesUnder(comps', values', comps'[j], t, p, v) {
      ValueIsProduced(comps, comps', b, values, j, t, vs, v);
    }
  }

  lemma ArgMoves(comps: seq<Component>, comps': seq<Component>, b: Bijection, values: Valuation, j: nat, t: Type,
                 arg: Arg)
    requires Matched(comps, comps', b) && j < |comps'| && ArgFrom(comps, values, comps[b.to[j]], t, arg)
    ensures ArgFrom(comps', Moved(comps, comps', b, values), comps'[j], t, arg)
  {
    InRange(comps, comps', b, j);
    hide Matched, SliceFrom, ProducesUnder, Moved;
    if t.Slice? {
      SliceMoves(comps, comps', b, values, j, t.elem, arg.values);
    } else {
      var p :| ProducesUnder(comps, values, comps[b.to[j]], t, p, arg.value);
      var p' := ProductMoves(comps, comps', b, values, j, t, p, arg.value);
    }
  }

  /** A solution for one order of registration is one for every other. */
  lemma SolutionMoves(comps: seq<Component>, comps': seq<Component>, b: Bijection, values: Valuation)
    requires Rearranged(comps, comps', b) && Solves(comps, values)
    ensures Solves(comps', Moved(comps, comps', b, values))
  {
    var values' := Moved(comps, comps', b, values);
    hide DistinctNames, Moved, ArgFrom;
    forall c | c in comps' ensures exists args :: Justified(comps', values', c, args) {
      var i :| 0 <= i < |comps'| && comps'[i] == c;
      InRange(comps, comps', b, i);
      MovedAt(comps, comps', b, values, i);
      assert comps[b.to[i]] in comps;
      var args: seq<Arg> :| Justified(comps, values, comps[b.to[i]], args);
      forall j | 0 <= j < |args| ensures ArgFrom(comps', values', c, c.consumes[j], args[j]) {
        ArgMoves(comps, comps', b, values, i, c.consumes[j], args[j]);
      }
      assert Justified(comps', values', c, args);
    }
  }

  lemma ToleranceMoves(comps: seq<Component>, comps': seq<Component>, b: Bijection)
    requires Rearranged(comps, comps', b) && ReorderTolerant(comps)
    ensures ReorderTolerant(comps')
  {
    hide Rearranged;
    forall v | CanReturn(comps', v) ensures CanReturn(comps, v) {
      var c, args :| c in comps' && c.apply(args) == Success(v);
      var d := OriginalOf(comps, comps', b, c);
      assert d.apply(args) == Success(v);
    }
    forall c | c in comps' && TakesSlice(c) ensures OrderInsensitive(c) && FaithfulKeys(comps') {
      var d := OriginalOf(comps, comps', b, c);
      assert TakesSlice(d) && OrderInsensitive(d);
      OrderInsensitiveIsBehaviour(d, c);
    }
  }

  lemma OrderInsensitiveIsBehaviour(d: Component, c: Component)
    requires OrderInsensitive(d) && d.apply == c.apply
    ensures OrderInsensitive(c)
  {
    hide SameUpToOrder;
  }

  /** The same values, along the rearrangement. */
  ghost predicate SameValues(comps: seq<Component>, comps': seq<Component>, b: Bijection, values: Valuation,
                             values': Valuation)
    requires Matched(comps, comps', b)
  {
    forall i | 0 <= i < |comps'| ::
      comps'[i].name in values' && comps[b.to[i]].name in values
        && values'[comps'[i].name] == values[comps[b.to[i]].name]
  }

  /** A run over rearranged components whose calls all return succeeds, if the components
      can run without error at all. */
  lemma OtherRunSucceeds(comps: seq<Component>, comps': seq<Component>, b: Bijection, implements: Implements,
                         calls: seq<Call>, calls': seq<Call>, err': Option<CompositeError>)
    requires Matched(comps, comps', b) && ProperParameters(comps)
    requires FreshRun(comps, implements, calls, None) && FreshRun(comps', implements, calls', err')
    requires forall i | 0 <= i < |calls'| :: calls'[i].outcome.Returned?
    ensures err'.None?
  {
    ProperInterfacesProduced(comps);
    SuccessIsViable(comps, implements, calls);
    hide FreshRun, InferredEdges, ReachesCycle, UniqueSingles, ProperParameters, IsBijection, Alike;
    NoCycleCarries(comps, comps', b);
    UniqueSinglesCarries(comps, comps', b);
    UnambiguousSingles(comps');
    FailsOnlyIf(comps', implements, calls', err');
  }

  /** An acyclic composite without ambiguous parameters fails only when a call fails. */
  lemma FailsOnlyIf(comps: seq<Component>, implements: Implements, calls: seq<Call>, err: Option<CompositeError>)
    requires FreshRun(comps, implements, calls, err) && NoCycle(comps) && forall c, t :: !Ambiguous(comps, c, t)
    ensures err.Some? ==> calls != [] && calls[|calls| - 1].outcome.Failed?
  {
    if err.Some? {
      var runErr := Some(err.value.error);
      hide HistoryOk, Ambiguous, InferredEdges;
      CycleReportedExactly(comps, InferredEdges(comps), calls, runErr);
      RunIsTopological(comps, InferredEdges(comps), calls, runErr);
    }
  }

  /** The calls of another order follow the values of a successful run. */
  lemma {:induction false} OtherRunFollows(comps: seq<Component>, comps': seq<Component>, b: Bijection, h: nat,
                                           implements: Implements, calls: seq<Call>, calls': seq<Call>,
                                           err': Option<CompositeError>, i: nat)
    requires FreshRun(comps, implements, calls, None) && FreshRun(comps', implements, calls', err') && i < |calls'|
    requires Interchangeable(comps, comps', b, h, implements) && ReorderTolerant(comps')
    requires Matched(comps, comps', b) && Solves(comps', Moved(comps, comps', b, ValuesOf(calls)))
    ensures Agrees(Moved(comps, comps', b, ValuesOf(calls)), calls'[i])
    decreases i
  {
    InterchangeableBack(comps, comps', b, h, implements);
    hide FreshRun, DistinctNames, Matched, ReorderTolerant, Solves, Agrees, Moved, InterfacesSettled;
    forall k | 0 <= k < i ensures Agrees(Moved(comps, comps', b, ValuesOf(calls)), calls'[k]) {
      OtherRunFollows(comps, comps', b, h, implements, calls, calls', err', k);
    }
    if ConsumesInterface(calls'[i].comp) && StoredValue(calls'[..i], Nil) {
      NoNilInOtherRun(comps, comps', b, h, implements, calls, calls', err', i);
    }
    hide Interchangeable;
    OtherIsProper(comps, comps', b, h, implements);
    CallFollowsSolution(comps', implements, calls', err', Moved(comps, comps', b, ValuesOf(calls)), i);
  }

  lemma OtherIsProper(comps: seq<Component>, comps': seq<Component>, b: Bijection, h: nat, implements: Implements)
    requires Interchangeable(comps, comps', b, h, implements)
    ensures ProperParameters(comps') && WellTyped(comps', implements)
  {
    InterchangeableBack(comps, comps', b, h, implements);
    hide ProperParameters, WellTyped, Rearranged, Matched, HeadFirst, NilsSafe, ImplementersSafe, InterfacesSettled;
  }

  /** A nil that the other order has stored before it looks for an interface was also returned
      in the successful run, and is too late to do harm. */
  lemma NoNilInOtherRun(comps: seq<Component>, comps': seq<Component>, b: Bijection, h: nat, implements: Implements,
                        calls: seq<Call>, calls': seq<Call>, err': Option<CompositeError>, i: nat)
    requires FreshRun(comps, implements, calls, None) && FreshRun(comps', implements, calls', err') && i < |calls'|
    requires Interchangeable(comps, comps', b, h, implements) && Matched(comps, comps', b)
    requires forall k | 0 <= k < i :: Agrees(Moved(comps, comps', b, ValuesOf(calls)), calls'[k])
    requires ConsumesInterface(calls'[i].comp)
    ensures !StoredValue(calls'[..i], Nil)
  {
    if StoredValue(calls'[..i], Nil) {
      InterchangeableBack(comps, comps', b, h, implements);
      CallsInOrder(comps', implements, calls', err');
      hide FreshRun, Moved, ValuesOf, DependenciesFirst, CallOk, Distinct, Interchangeable, ConsumesInterface,
        StoredValue, IsBijection;
      var k := StoredIsOutput(calls', i, Nil);
      var q :| 0 <= q < |comps'| && comps'[q] == calls'[k].comp;
      var c :| 0 <= c < |comps'| && comps'[c] == calls'[i].comp;
      assert Agrees(Moved(comps, comps', b, ValuesOf(calls)), calls'[k]);
      MovedAt(comps, comps', b, ValuesOf(calls), q);
      InRange(comps, comps', b, q);
      hide Matched, DistinctNames;
      ReturnedInRun(comps, implements, calls, comps[b.to[q]]);
      NilIsTooLate(comps, comps', b, h, implements, calls, calls', err', k, i, q, c);
    }
  }

  /** The value of a successful run is what the component returned. */
  lemma ReturnedInRun(comps: seq<Component>, implements: Implements, calls: seq<Call>, c: Component)
    requires FreshRun(comps, implements, calls, None) && c in comps
    ensures c.name in ValuesOf(calls)
    ensures exists k :: 0 <= k < |calls| && calls[k].comp == c && calls[k].outcome == Returned(ValuesOf(calls)[c.name])
  {
    CallsInOrder(comps, implements, calls, None);
    hide FreshRun, CallOk, DependenciesFirst;
    var k := CallOfComponent(comps, implements, calls, c);
    ValueAt(calls, k);
  }

  lemma NilIsTooLate(comps: seq<Component>, comps': seq<Component>, b: Bijection, h: nat, implements: Implements,
                     calls: seq<Call>, calls': seq<Call>, err': Option<CompositeError>, k: nat, i: nat, q: nat, c: nat)
    requires FreshRun(comps, implements, calls, None) && FreshRun(comps', implements, calls', err') && k < i < |calls'|
    requires Interchangeable(comps, comps', b, h, implements) && Matched(comps, comps', b)
    requires q < |comps'| && c < |comps'| && comps'[q] == calls'[k].comp && comps'[c] == calls'[i].comp
    requires comps'[q].produces.Some? && b.to[q] < |comps|
    requires exists m :: 0 <= m < |calls| && calls[m].comp == comps[b.to[q]] && calls[m].outcome == Returned(Nil)
    ensures !ConsumesInterface(comps'[c])
  {
    var m :| 0 <= m < |calls| && calls[m].comp == comps[b.to[q]] && calls[m].outcome == Returned(Nil);
    InRange(comps, comps', b, q);
    InterchangeableBack(comps, comps', b, h, implements);
    MatchedIsDistinct(comps, comps', b);
    CallsFollowSchedule(comps', implements, calls', err');
    CallsInOrder(comps', implements, calls', err');
    assert Names(calls')[k] != Names(calls')[i];
    hide FreshRun, Matched, Rearranged, DistinctNames, ProperParameters, WellTyped, ImplementersSafe, InterfacesSettled,
      Schedule, Fixed, ConsumesInterface, DependenciesFirst, CallOk, Distinct, HeadFirst, NilsSafe, Before, KeepsHead,
        ConsumersFirst;
    NilIsLate(comps, h, implements, calls, m, b.to[q]);
    ConsumersFirstCarries(comps, comps', b, h, q);
    if ConsumesInterface(comps'[c]) {
      FirstIsNotAfter(comps', h, q, c);
    }
  }

  lemma FirstIsNotAfter(comps: seq<Component>, h: nat, q: nat, c: nat)
    requires DistinctNames(comps) && HeadFirst(comps, h) && ConsumersFirst(comps, h, q)
    requires c < |comps| && c != q && q < |comps| && ConsumesInterface(comps[c])
    ensures !Before(Schedule(comps), comps[q].name, comps[c].name)
  {
    hide DistinctNames, HeadFirst, Schedule, Before, Fixed;
    FixedNotAfter(comps, h, c, q);
  }

  /** If the components run without error in one order of registration, they do in every
      other order, with the same values. */
  lemma SuccessCarriesOver(comps: seq<Component>, comps': seq<Component>, b: Bijection, h: nat, implements: Implements,
                           calls: seq<Call>, calls': seq<Call>, err': Option<CompositeError>)
    requires FreshRun(comps, implements, calls, None) && FreshRun(comps', implements, calls', err')
    requires Interchangeable(comps, comps', b, h, implements) && ReorderTolerant(comps)
    ensures Matched(comps, comps', b)
    ensures err'.None? && SameValues(comps, comps', b, ValuesOf(calls), ValuesOf(calls'))
  {
    InterchangeableBack(comps, comps', b, h, implements);
    var values, values' := ValuesOf(calls), Moved(comps, comps', b, ValuesOf(calls));
    OtherIsProper(comps, comps', b, h, implements);
    hide HeadFirst, NilsSafe, ImplementersSafe, InterfacesSettled, WellTyped, ProperParameters, FreshRun, Matched,
      Solves, Moved, ValuesOf, ReorderTolerant, Rearranged;
    SuccessfulRunSolves(comps, implements, calls);
    SolutionMoves(comps, comps', b, values);
    ToleranceMoves(comps, comps', b);
    hide Interchangeable;
    forall i | 0 <= i < |calls'| ensures Agrees(values', calls'[i]) {
      OtherRunFollows(comps, comps', b, h, implements, calls, calls', err', i);
    }
    OtherRunSucceeds(comps, comps', b, implements, calls, calls', err');
    SuccessfulRunSolves(comps', implements, calls');
    MatchedIsDistinct(comps, comps', b);
    forall i | 0 <= i < |comps'|
      ensures b.to[i] < |comps| && comps'[i].name in ValuesOf(calls') && comps[b.to[i]].name in values
      ensures ValuesOf(calls')[comps'[i].name] == values[comps[b.to[i]].name]
    {
      InRange(comps, comps', b, i);
      assert comps'[i] in comps';
      var k := CallOfComponent(comps', implements, calls', comps'[i]);
      assert Agrees(ValuesOf(calls'), calls'[k]) && Agrees(values', calls'[k]);
      MovedAt(comps, comps', b, values, i);
    }
    SameValuesAt(comps, comps', b, values, ValuesOf(calls'));
  }

  lemma SameValuesAt(comps: seq<Component>, comps': seq<Component>, b: Bijection, values: Valuation, values': Valuation)
    requires Matched(comps, comps', b)
    requires forall i | 0 <= i < |comps'| ::
               && b.to[i] < |comps| && comps'[i].name in values' && comps[b.to[i]].name in values
               && values'[comps'[i].name] == values[comps[b.to[i]].name]
    ensures SameValues(comps, comps', b, values, values')
  {
  }

  /** Registration order does not matter to components that tolerate reordered slices:
      either every order fails or every order succeeds, with the same values. */
  lemma RegistrationOrderIrrelevant(comps: seq<Component>, comps': seq<Component>, b: Bijection, h: nat,
                                    implements: Implements, calls: seq<Call>, calls': seq<Call>,
                                    err: Option<CompositeError>, err': Option<CompositeError>)
    requires FreshRun(comps, implements, calls, err) && FreshRun(comps', implements, calls', err')
    requires Interchangeable(comps, comps', b, h, implements) && ReorderTolerant(comps)
    ensures Matched(comps, comps', b)
    ensures err.None? <==> err'.None?
    ensures err.None? ==> SameValues(comps, comps', b, ValuesOf(calls), ValuesOf(calls'))
  {
    InterchangeableBack(comps, comps', b, h, implements);
    hide Rearranged, HeadFirst, NilsSafe, ImplementersSafe, InterfacesSettled, WellTyped, ProperParameters, FreshRun,
      Matched, ReorderTolerant, ValuesOf, SameValues;
    ToleranceMoves(comps, comps', b);
    if err.None? {
      SuccessCarriesOver(comps, comps', b, h, implements, calls, calls', err');
    }
    if err'.None? {
      SuccessCarriesOver(comps', comps, Inverse(b), h, implements, calls', calls, err);
    }
  }
}
