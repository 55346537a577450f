/** Components that show the order of registration: all but one, the actor, return values that
    tell them apart, and the actor shows in its result what it sees, or returns nil. */
module Staging {
  import opened Options
  import opened Graph
  import opened DepthFirst
  import opened CompositeModel
  import opened CompositeSearch
  import opened CompositeOrder
  import opened CompositeValues
  import opened CompositeSuccess
  import opened CompositeRearrangement
  import opened CompositePrecedence
  import opened CompositeRegistration
  import opened CompositeSlices
  import opened CompositeExact
  import opened CompositeRuns

  type Act = seq<Arg> -> ApplyResult

  datatype Stage = Stage(comps: seq<Component>, implements: Implements, types: seq<Type>, tags: seq<string>, actor: nat,
                         act: Act)

  ghost predicate Tagged(c: Component, v: Value) {
    forall args :: c.apply(args) == Success(v)
  }

  ghost predicate IsError(implements: Implements, c: Component) {
    c.produces.Some? && ErrorType(implements, c.produces.value)
  }

  /** What a component returns that has nothing to show: a value of its own, or a nil error. */
  function Result(implements: Implements, produces: Option<Type>, d: Type, tag: string): Value {
    if produces.Some? && ErrorType(implements, produces.value) then Nil else Val(d, tag, 0)
  }

  /** No result can show anything. */
  predicate Quiet(implements: Implements, produces: Option<Type>) {
    produces.None? || ErrorType(implements, produces.value)
  }

  ghost predicate ActFits(implements: Implements, act: Act, produces: Option<Type>) {
    forall args | act(args).Success? && produces.Some? :: ResultFits(implements, act(args).value, produces.value)
  }

  /** Every component but the actor returns its tag, in a type that its signature allows. */
  ghost predicate Staged(s: Stage) {
    && DistinctNames(s.comps) && ProperParameters(s.comps)
    && |s.types| == |s.comps| && |s.tags| == |s.comps| && Distinct(s.tags) && s.actor < |s.comps|
    && (forall i | 0 <= i < |s.comps| && i != s.actor :: Cast(s.implements, s.comps[i], s.types[i], s.tags[i]))
    && s.comps[s.actor].apply == s.act && ActFits(s.implements, s.act, s.comps[s.actor].produces)
  }

  ghost predicate Cast(implements: Implements, c: Component, d: Type, tag: string) {
    Tagged(c, Result(implements, c.produces, d, tag)) && TypeFits(implements, c, d)
  }

  /** A dynamic type that the result of the component may have, if it is not an error. */
  ghost predicate TypeFits(implements: Implements, c: Component, d: Type) {
    c.produces.Some? ==>
      if ErrorType(implements, c.produces.value) then c.produces.value.Interface?
        else Fits(implements, d, c.produces.value)
  }

  /** The components can run at all: no cycle, and one producer for every parameter that is not a slice. */
  ghost predicate Viable(comps: seq<Component>)
    requires DistinctNames(comps)
  {
    NoCycle(comps) && UniqueSingles(comps)
  }

  lemma ViableCarries(comps: seq<Component>, comps': seq<Component>, b: Bijection)
    requires Matched(comps, comps', b) && Viable(comps)
    ensures Viable(comps')
  {
    hide DistinctNames, UniqueSingles, NoCycle, IsBijection, Alike;
    NoCycleCarries(comps, comps', b);
    UniqueSinglesCarries(comps, comps', b);
  }

  lemma StagedParts(s: Stage)
    requires Staged(s)
    ensures DistinctNames(s.comps) && ProperParameters(s.comps) && |s.types| == |s.tags| == |s.comps|
    ensures s.actor < |s.comps|
    ensures forall i, k | 0 <= i < |s.tags| && 0 <= k < |s.tags| && i != k :: s.tags[i] != s.tags[k]
    ensures s.comps[s.actor].apply == s.act && ActFits(s.implements, s.act, s.comps[s.actor].produces)
  {
    hide DistinctNames, ProperParameters, Cast, ActFits;
  }

  lemma CastAt(s: Stage, i: nat)
    requires Staged(s) && i < |s.comps| && i != s.actor
    ensures i < |s.types| && i < |s.tags|
    ensures Tagged(s.comps[i], Result(s.implements, s.comps[i].produces, s.types[i], s.tags[i]))
    ensures TypeFits(s.implements, s.comps[i], s.types[i])
  {
    hide DistinctNames, ProperParameters, Tagged, ActFits, Distinct, TypeFits, Result;
    assert Cast(s.implements, s.comps[i], s.types[i], s.tags[i]);
  }

  lemma StagedIsTyped(s: Stage)
    requires Staged(s)
    ensures WellTyped(s.comps, s.implements)
  {
    StagedParts(s);
    hide DistinctNames, ProperParameters, Distinct, Fits, Staged;
    forall c, args | c in s.comps && c.produces.Some? && c.apply(args).Success?
      ensures ResultFits(s.implements, c.apply(args).value, c.produces.value)
    {
      var i :| 0 <= i < |s.comps| && s.comps[i] == c;
      if i == s.actor {
        assert s.act(args).Success?;
      } else {
        CastAt(s, i);
      }
    }
  }

  /** What every component but the actor returns, if it is not an error. */
  lemma StoredTag(s: Stage, calls: seq<Call>, err: Option<CompositeError>, m: nat, i: nat)
    requires Staged(s) && i < |s.comps| && i != s.actor && !IsError(s.implements, s.comps[i])
    requires FreshRun(s.comps, s.implements, calls, err) && m < |calls| && calls[m].comp == s.comps[i]
    requires calls[m].outcome.Returned?
    ensures i < |s.types| && i < |s.tags| && calls[m].outcome == Returned(Val(s.types[i], s.tags[i], 0))
  {
    CastAt(s, i);
    hide Staged, FreshRun, TypeFits;
    CallsInOrder(s.comps, s.implements, calls, err);
    hide DependenciesFirst, CallOk, Distinct;
    ReturnedUnlessFailed(s.implements, calls[..m], calls[m]);
  }

  /** A call of any other component succeeds, if no nil is in the way. */
  lemma CastReturns(s: Stage, calls: seq<Call>, err: Option<CompositeError>, k: nat)
    requires Staged(s) && Viable(s.comps) && NilsLate(s.comps)
    requires FreshRun(s.comps, s.implements, calls, err) && k < |calls|
    ensures |calls[k].args| == |calls[k].comp.consumes|
    ensures calls[k].comp != s.comps[s.actor] ==> calls[k].outcome.Returned?
  {
    StagedParts(s);
    StagedIsTyped(s);
    hide Staged, FreshRun, DistinctNames, ProperParameters, WellTyped, UniqueSingles, NoCycle, Distinct, CallOk,
      DependenciesFirst, ConsumesInterface, StoredValue, NilsLate;
    CallsInOrder(s.comps, s.implements, calls, err);
    if ConsumesInterface(calls[k].comp) {
      NilsComeLater(s.comps, s.implements, calls, err, k);
    }
    ArgumentsAreComplete(s.comps, s.implements, calls, err, k);
    CallEndsAs(s.implements, calls[..k], calls[k]);
    var i :| 0 <= i < |s.comps| && s.comps[i] == calls[k].comp;
    if i != s.actor {
      CastAt(s, i);
    }
  }

  /** Where errors, and the actor if it returns nil, are called after everything else that takes
      an interface, no nil is in the way. */
  lemma NilsAreLate(s: Stage)
    requires Staged(s)
    requires forall i, c | 0 <= i < |s.comps| && 0 <= c < |s.comps| && i != c && ConsumesInterface(s.comps[c])
               && (IsError(s.implements, s.comps[i]) || (i == s.actor && exists args :: s.act(args) == Success(Nil))) ::
               !Before(Schedule(s.comps), s.comps[i].name, s.comps[c].name)
    ensures DistinctNames(s.comps) && NilsLate(s.comps)
  {
    StagedParts(s);
    CallOrderIsDistinct(s.comps, InferredEdges(s.comps));
    ScheduleIsCallOrder(s.comps);
    hide Staged, DistinctNames, ProperParameters, ActFits, Distinct, ConsumesInterface, Schedule, CallOrder,
      InferredEdges, Before;
    forall c, args, q | c in s.comps && c.produces.Some? && c.apply(args) == Success(Nil) && q in s.comps
        && ConsumesInterface(q)
      ensures !Before(Schedule(s.comps), c.name, q.name)
    {
      var i :| 0 <= i < |s.comps| && s.comps[i] == c;
      var k :| 0 <= k < |s.comps| && s.comps[k] == q;
      if i == k {
        OneWayOnly(Schedule(s.comps), c.name, c.name);
      } else if i != s.actor {
        CastAt(s, i);
        assert IsError(s.implements, c);
      }
    }
  }

  // ---------------------------------------------------------------- another order of the same stage

  ghost function Restaged(s: Stage, comps': seq<Component>, b: Bijection): Stage
    requires Staged(s) && Rearranged(s.comps, comps', b)
  {
    Stage(comps', s.implements, seq(|comps'|, i requires 0 <= i < |comps'| => s.types[b.to[i]]),
          seq(|comps'|, i requires 0 <= i < |comps'| => s.tags[b.to[i]]), b.from[s.actor], s.act)
  }

  lemma RestagedIsStaged(s: Stage, comps': seq<Component>, b: Bijection)
    requires Staged(s) && Rearranged(s.comps, comps', b)
    ensures Matched(s.comps, comps', b) && Staged(Restaged(s, comps', b))
  {
    var s' := Restaged(s, comps', b);
    RearrangedMatches(s.comps, comps', b);
    ProperCarries(s.comps, comps', b);
    StagedParts(s);
    hide DistinctNames, ProperParameters, ActFits, Cast, Staged;
    assert b.to[s'.actor] == s.actor;
    assert Alike(s.comps[s.actor], comps'[s'.actor]);
    forall i | 0 <= i < |comps'| && i != s'.actor ensures Cast(s.implements, comps'[i], s'.types[i], s'.tags[i]) {
      assert b.to[i] != s.actor;
      assert Alike(s.comps[b.to[i]], comps'[i]) && s.comps[b.to[i]].apply == comps'[i].apply;
      CastMoves(s, b.to[i], comps'[i]);
    }
    forall i, k | 0 <= i < k < |s'.tags| ensures s'.tags[i] != s'.tags[k] {
      assert b.to[i] != b.to[k];
    }
    PartsAreStaged(s');
  }

  lemma CastMoves(s: Stage, i: nat, c: Component)
    requires Staged(s) && i < |s.comps| && i != s.actor && Alike(s.comps[i], c) && s.comps[i].apply == c.apply
    ensures i < |s.types| && i < |s.tags| && Cast(s.implements, c, s.types[i], s.tags[i])
  {
    CastAt(s, i);
    hide Staged, TypeFits;
  }

  lemma PartsAreStaged(s: Stage)
    requires DistinctNames(s.comps) && ProperParameters(s.comps)
    requires |s.types| == |s.comps| && |s.tags| == |s.comps| && s.actor < |s.comps|
    requires forall i, k | 0 <= i < k < |s.tags| :: s.tags[i] != s.tags[k]
    requires forall i | 0 <= i < |s.comps| && i != s.actor :: Cast(s.implements, s.comps[i], s.types[i], s.tags[i])
    requires s.comps[s.actor].apply == s.act && ActFits(s.implements, s.act, s.comps[s.actor].produces)
    ensures Staged(s)
  {
    hide DistinctNames, ProperParameters, Cast, ActFits;
  }

  // ---------------------------------------------------------------- an actor that returns nil

  function ReturnNil(): Act {
    args => Success(Nil)
  }

  /** Nothing that takes an interface can run after an actor that returned nil. */
  lemma NilBringsFailure(s: Stage, calls: seq<Call>, err: Option<CompositeError>, c: nat)
    requires Staged(s) && s.act == ReturnNil() && FreshRun(s.comps, s.implements, calls, err)
    requires s.comps[s.actor].produces.Some? && c < |s.comps| && ConsumesInterface(s.comps[c])
    requires Before(Schedule(s.comps), s.comps[s.actor].name, s.comps[c].name)
    ensures err.Some?
  {
    if err.None? {
      StagedParts(s);
      hide Staged, FreshRun, DistinctNames, ProperParameters, Schedule, Before, ConsumesInterface, ActFits;
      assert s.comps[c] in s.comps && s.comps[s.actor] in s.comps;
      var i := CallOfComponent(s.comps, s.implements, calls, s.comps[c]);
      var k := CallOfComponent(s.comps, s.implements, calls, s.comps[s.actor]);
      CalledWhenBefore(s.comps, s.implements, calls, err, k, i);
      NoNilWasStored(s.comps, s.implements, calls, err, i);
      assert OutputOf(calls, i, s.comps[s.actor], Nil);
      OutputIsStored(calls, i, s.comps[s.actor], Nil);
    }
  }

  /** If everything else that takes an interface runs before, an actor that returns nil does no harm. */
  lemma LateNilIsHarmless(s: Stage, calls: seq<Call>, err: Option<CompositeError>)
    requires Staged(s) && Viable(s.comps) && s.act == ReturnNil() && FreshRun(s.comps, s.implements, calls, err)
    requires NilsLate(s.comps)
    ensures err.None?
  {
    StagedParts(s);
    StagedIsTyped(s);
    hide Staged, FreshRun, DistinctNames, ProperParameters, WellTyped, UniqueSingles, NoCycle, NilsLate, ActFits;
    forall c, args | c in s.comps ensures c.apply(args).Success? {
      var i :| 0 <= i < |s.comps| && s.comps[i] == c;
      if i != s.actor {
        CastAt(s, i);
      }
    }
    ProperInterfacesProduced(s.comps);
    SucceedsExactly(s.comps, s.implements, calls, err);
  }

  // ---------------------------------------------------------------- what the actor reports

  /** The rendering of the actor's value after a run. */
  ghost predicate Reports(s: Stage, calls: seq<Call>, tag: string)
    requires s.actor < |s.comps|
  {
    var n, values := s.comps[s.actor].name, ValuesOf(calls);
    n in values && values[n].Val? && values[n].rendering == tag
  }

  lemma ReportsReturned(s: Stage, calls: seq<Call>, err: Option<CompositeError>, i: nat)
    requires Staged(s) && FreshRun(s.comps, s.implements, calls, err) && i < |calls|
    requires calls[i].comp == s.comps[s.actor]
    requires calls[i].outcome.Returned? && calls[i].outcome.value.Val?
    ensures s.actor < |s.comps| && Reports(s, calls, calls[i].outcome.value.rendering)
  {
    StagedParts(s);
    CallsInOrder(s.comps, s.implements, calls, err);
    hide Staged, FreshRun, CallOk, DependenciesFirst, ValuesOf, ActFits;
    ValueAt(calls, i);
  }

  // ---------------------------------------------------------------- an actor that watches a slice

  /** One of the renderings stands in the list, with the other nowhere before it. */
  predicate ComesFirst(vs: seq<Value>, a: string, b: string) {
    if vs == [] || !vs[0].Val? then false
    else if vs[0].rendering == a then true
    else if vs[0].rendering == b then false
    else ComesFirst(vs[1..], a, b)
  }

  /** Reports which of two renderings comes first in a slice: with its value if that can show it,
      and otherwise by failing if it is the second. */
  function Watch(implements: Implements, produces: Option<Type>, d: Type, j: nat, a: string, b: string): Act {
    (args: seq<Arg>) =>
      if j < |args| && args[j].Many? && ComesFirst(args[j].values, a, b) then
        Success(Result(implements, produces, d, a))
      else if Quiet(implements, produces) then Error(0)
      else Success(Val(d, b, 0))
  }

  ghost predicate ActsAs(act: Act, other: Act) {
    forall args :: act(args) == other(args)
  }

  /** The actor watches the producers x and y of a slice. */
  ghost predicate Watching(s: Stage, j: nat, x: nat, y: nat) {
    && Staged(s) && x < |s.comps| && y < |s.comps| && x != y
    && j < |s.comps[s.actor].consumes| && s.comps[s.actor].consumes[j].Slice?
    && Feeds(s.comps, x, s.actor, s.comps[s.actor].consumes[j].elem)
    && Feeds(s.comps, y, s.actor, s.comps[s.actor].consumes[j].elem)
    && ActsAs(s.act, Watch(s.implements, s.comps[s.actor].produces, s.types[s.actor], j, s.tags[x], s.tags[y]))
  }

  lemma WatchingParts(s: Stage, j: nat, x: nat, y: nat)
    requires Watching(s, j, x, y)
    ensures Staged(s) && DistinctNames(s.comps) && |s.types| == |s.tags| == |s.comps| && s.actor < |s.comps|
    ensures x < |s.comps| && y < |s.comps| && x != s.actor && y != s.actor && s.tags[x] != s.tags[y]
    ensures j < |s.comps[s.actor].consumes| && s.comps[s.actor].consumes[j].Slice?
    ensures var t := s.comps[s.actor].consumes[j].elem;
            && !t.Interface? && Feeds(s.comps, x, s.actor, t) && Feeds(s.comps, y, s.actor, t)
            && s.types[x] == t && s.types[y] == t
    ensures !IsError(s.implements, s.comps[x]) && !IsError(s.implements, s.comps[y])
    ensures ActsAs(s.act, Watch(s.implements, s.comps[s.actor].produces, s.types[s.actor], j, s.tags[x], s.tags[y]))
  {
    StagedParts(s);
    ProperAt(s.comps, s.actor, s.comps[s.actor].consumes[j]);
    hide DistinctNames, ProperParameters, Staged, ActFits;
    CastAt(s, x);
    CastAt(s, y);
  }

  lemma {:induction false} FirstByIndex(vs: seq<Value>, a: string, b: string, k: nat)
    requires k < |vs| && (forall i | 0 <= i < |vs| :: vs[i].Val?) && a != b
    requires vs[k].rendering == a || vs[k].rendering == b
    requires forall i | 0 <= i < k :: vs[i].rendering != a && vs[i].rendering != b
    ensures ComesFirst(vs, a, b) <==> vs[k].rendering == a
  {
    if k > 0 {
      FirstByIndex(vs[1..], a, b, k - 1);
    }
  }

  /** Where keys differ by rendering, the entry that precedes the other is seen first. */
  lemma PrecedesIsFirst(vs: seq<Value>, t: Type, a: string, b: string)
    requires DistinctKeys(vs) && (forall v | v in vs :: v.Val? && v.dyn == t) && a != b
    requires KeyPrecedes(vs, Val(t, a, 0), Val(t, b, 0))
    ensures ComesFirst(vs, a, b) && !ComesFirst(vs, b, a)
  {
    var k, l :| 0 <= k < l < |vs| && UniqueKey(vs[k]) == Key(t, a) && UniqueKey(vs[l]) == Key(t, b);
    forall i | 0 <= i < |vs| ensures vs[i].Val? && vs[i].dyn == t && UniqueKey(vs[i]) == Key(t, vs[i].rendering) {
      assert vs[i] in vs;
    }
    forall i | 0 <= i < k ensures vs[i].rendering != a && vs[i].rendering != b {
      assert UniqueKey(vs[i]) != UniqueKey(vs[k]) && UniqueKey(vs[i]) != UniqueKey(vs[l]);
    }
    FirstByIndex(vs, a, b, k);
    FirstByIndex(vs, b, a, k);
  }

  /** The watcher sees the order of the schedule. */
  lemma WatcherSees(s: Stage, j: nat, x: nat, y: nat, calls: seq<Call>, err: Option<CompositeError>, i: nat, first: nat,
                    second: nat)
    requires Watching(s, j, x, y) && FreshRun(s.comps, s.implements, calls, err)
    requires i < |calls| && calls[i].comp == s.comps[s.actor] && j < |calls[i].args|
    requires (first == x && second == y) || (first == y && second == x)
    requires Before(Schedule(s.comps), s.comps[first].name, s.comps[second].name)
    ensures calls[i].args[j].Many?
    ensures ComesFirst(calls[i].args[j].values, s.tags[x], s.tags[y]) <==> first == x
  {
    WatchingParts(s, j, x, y);
    hide Watching, Staged, FreshRun, Schedule, Before, DistinctNames, KeyPrecedes, DistinctKeys, Feeds;
    TagsPrecede(s, j, x, y, calls, err, i, first, second);
    SliceHasType(s, j, x, y, calls, err, i);
    PrecedesIsFirst(calls[i].args[j].values, s.comps[s.actor].consumes[j].elem, s.tags[first], s.tags[second]);
  }

  lemma TagsPrecede(s: Stage, j: nat, x: nat, y: nat, calls: seq<Call>, err: Option<CompositeError>, i: nat, first: nat,
                    second: nat)
    requires Watching(s, j, x, y) && FreshRun(s.comps, s.implements, calls, err)
    requires i < |calls| && calls[i].comp == s.comps[s.actor] && j < |calls[i].args|
    requires (first == x && second == y) || (first == y && second == x)
    requires Before(Schedule(s.comps), s.comps[first].name, s.comps[second].name)
    ensures calls[i].args[j].Many? && DistinctKeys(calls[i].args[j].values)
    ensures var t := s.comps[s.actor].consumes[j].elem;
            KeyPrecedes(calls[i].args[j].values, Val(t, s.tags[first], 0), Val(t, s.tags[second], 0))
  {
    WatchingParts(s, j, x, y);
    var t := s.comps[s.actor].consumes[j].elem;
    FeedsIsOtherProducer(s.comps, first, s.actor, t);
    FeedsIsOtherProducer(s.comps, second, s.actor, t);
    assert s.comps[first] in s.comps && s.comps[second] in s.comps;
    hide Watching, Staged, FreshRun, Schedule, Before, DistinctNames, KeyPrecedes, DistinctKeys, Feeds, StoredBy;
    var k, v, w := ScheduledFirstInSlice(s.comps, s.implements, calls, err, i, j, s.comps[first], s.comps[second]);
    OutputHasTag(s, calls, err, i, first, v);
    StoredTag(s, calls, err, k, second);
    ActorComesLater(s, calls, err, i, k);
    KeyIsNew(s, j, x, y, calls, err, k, second);
    SliceIsDistinct(s.comps, s.implements, calls, err, i, j);
  }

  lemma OutputHasTag(s: Stage, calls: seq<Call>, err: Option<CompositeError>, n: nat, i: nat, v: Value)
    requires Staged(s) && FreshRun(s.comps, s.implements, calls, err) && n <= |calls| && i < |s.comps| && i != s.actor
    requires OutputOf(calls, n, s.comps[i], v) && !IsError(s.implements, s.comps[i])
    ensures i < |s.types| && i < |s.tags| && v == Val(s.types[i], s.tags[i], 0)
  {
    hide Staged, FreshRun;
    var m :| 0 <= m < n && calls[m].comp == s.comps[i] && calls[m].outcome == Returned(v);
    StoredTag(s, calls, err, m, i);
  }

  lemma ActorComesLater(s: Stage, calls: seq<Call>, err: Option<CompositeError>, i: nat, k: nat)
    requires FreshRun(s.comps, s.implements, calls, err) && i < |calls| && k <= i && s.actor < |s.comps|
    requires calls[i].comp == s.comps[s.actor]
    ensures forall m | 0 <= m < k :: calls[m].comp != s.comps[s.actor]
  {
    hide FreshRun;
    forall m | 0 <= m < k ensures calls[m].comp != s.comps[s.actor] {
      if calls[m].comp == s.comps[s.actor] {
        CalledOnce(s.comps, s.implements, calls, err, m, i);
      }
    }
  }

  lemma KeyIsNew(s: Stage, j: nat, x: nat, y: nat, calls: seq<Call>, err: Option<CompositeError>, k: nat, second: nat)
    requires Watching(s, j, x, y) && FreshRun(s.comps, s.implements, calls, err) && k < |calls|
    requires (second == x || second == y) && calls[k].comp == s.comps[second] && calls[k].outcome.Returned?
    requires forall m | 0 <= m < k :: calls[m].comp != s.comps[s.actor]
    ensures forall m, u | 0 <= m < k && StoredBy(calls, m, s.comps[s.actor].consumes[j].elem, u) ::
              UniqueKey(u) != UniqueKey(calls[k].outcome.value)
  {
    WatchingParts(s, j, x, y);
    assert IsError(s.implements, s.comps[x]) <==> ErrorType(s.implements, s.comps[s.actor].consumes[j].elem);
    hide FreshRun, Staged, Watching, Distinct, Feeds, DistinctNames, ErrorType;
    forall m, u | 0 <= m < k && StoredBy(calls, m, s.comps[s.actor].consumes[j].elem, u)
      ensures UniqueKey(u) != UniqueKey(calls[k].outcome.value)
    {
      KeysDiffer(s, calls, err, m, k, second);
    }
  }

  /** Two calls of components other than the actor return values with different keys. */
  lemma KeysDiffer(s: Stage, calls: seq<Call>, err: Option<CompositeError>, m: nat, k: nat, second: nat)
    requires Staged(s) && FreshRun(s.comps, s.implements, calls, err) && m < k < |calls| && second < |s.comps|
    requires second != s.actor
    requires s.actor < |s.comps| && calls[m].comp != s.comps[s.actor] && calls[k].comp == s.comps[second]
    requires calls[m].outcome.Returned? && calls[k].outcome.Returned?
    requires !IsError(s.implements, calls[m].comp) && !IsError(s.implements, calls[k].comp)
    ensures UniqueKey(calls[m].outcome.value) != UniqueKey(calls[k].outcome.value)
  {
    StagedParts(s);
    CallsInOrder(s.comps, s.implements, calls, err);
    hide FreshRun, Staged, DependenciesFirst, CallOk, Distinct, ActFits, DistinctNames, ProperParameters;
    StoredTag(s, calls, err, k, second);
    var i :| 0 <= i < |s.comps| && s.comps[i] == calls[m].comp;
    StoredTag(s, calls, err, m, i);
    if i == second {
      CalledOnce(s.comps, s.implements, calls, err, m, k);
    }
  }

  lemma SliceIsDistinct(comps: seq<Component>, implements: Implements, calls: seq<Call>, err: Option<CompositeError>,
                        i: nat, j: nat)
    requires FreshRun(comps, implements, calls, err)
    requires i < |calls| && j < |calls[i].args| && j < |calls[i].comp.consumes|
    requires calls[i].comp.consumes[j].Slice? && !calls[i].comp.consumes[j].elem.Interface?
    ensures calls[i].args[j].Many? && DistinctKeys(calls[i].args[j].values)
  {
    hide FreshRun, DistinctKeys, HasKey, OutputOf, OtherProducer;
    SliceArgument(comps, implements, calls, err, i, j);
  }

  lemma SliceHasType(s: Stage, j: nat, x: nat, y: nat, calls: seq<Call>, err: Option<CompositeError>, i: nat)
    requires Watching(s, j, x, y) && FreshRun(s.comps, s.implements, calls, err)
    requires i < |calls| && calls[i].comp == s.comps[s.actor] && j < |calls[i].args| && calls[i].args[j].Many?
    ensures forall v | v in calls[i].args[j].values :: v.Val? && v.dyn == s.comps[s.actor].consumes[j].elem
  {
    WatchingParts(s, j, x, y);
    hide Watching, Staged, FreshRun, Feeds, DistinctNames;
    SliceArgument(s.comps, s.implements, calls, err, i, j);
    hide HasKey, DistinctKeys;
    var t := s.comps[s.actor].consumes[j].elem;
    forall v | v in calls[i].args[j].values ensures v.Val? && v.dyn == t {
      var p :| p in s.comps && OtherProducer(p, s.comps[s.actor].name, t) && OutputOf(calls, i, p, v);
      var n :| 0 <= n < |s.comps| && s.comps[n] == p;
      OutputHasTag(s, calls, err, i, n, v);
      CastAt(s, n);
    }
  }

  /** When x comes first in the schedule, the composite succeeds and the watcher reports x, if it can. */
  lemma FirstIsReported(s: Stage, j: nat, x: nat, y: nat, calls: seq<Call>, err: Option<CompositeError>)
    requires Watching(s, j, x, y) && Viable(s.comps) && NilsLate(s.comps) && FreshRun(s.comps, s.implements, calls, err)
    requires Before(Schedule(s.comps), s.comps[x].name, s.comps[y].name)
    ensures err.None?
    ensures !Quiet(s.implements, s.comps[s.actor].produces) ==> Reports(s, calls, s.tags[x])
  {
    WatchingParts(s, j, x, y);
    hide Watching, Staged, FreshRun, Schedule, Before, DistinctNames, UniqueSingles, NoCycle, Feeds, Reports, NilsLate;
    if err.Some? {
      UnambiguousSingles(s.comps);
      FailsOnlyIf(s.comps, s.implements, calls, err);
      WatchedCallReturns(s, j, x, y, calls, err, |calls| - 1);
    }
    assert s.comps[s.actor] in s.comps;
    var i := CallOfComponent(s.comps, s.implements, calls, s.comps[s.actor]);
    WatchedCallReturns(s, j, x, y, calls, err, i);
    if !Quiet(s.implements, s.comps[s.actor].produces) {
      ReportsReturned(s, calls, err, i);
    }
  }

  lemma WatchedCallReturns(s: Stage, j: nat, x: nat, y: nat, calls: seq<Call>, err: Option<CompositeError>, k: nat)
    requires Watching(s, j, x, y) && Viable(s.comps) && NilsLate(s.comps)
    requires FreshRun(s.comps, s.implements, calls, err) && k < |calls|
    requires Before(Schedule(s.comps), s.comps[x].name, s.comps[y].name)
    ensures calls[k].outcome.Returned?
    ensures calls[k].comp == s.comps[s.actor] ==>
              calls[k].outcome.value == Result(s.implements, s.comps[s.actor].produces, s.types[s.actor], s.tags[x])
  {
    WatchingParts(s, j, x, y);
    StagedParts(s);
    hide Watching, Staged, FreshRun, Schedule, Before, DistinctNames, UniqueSingles, NoCycle, Feeds, StoredValue,
      ActFits, ProperParameters, NilsLate, Result, Quiet;
    CastReturns(s, calls, err, k);
    if calls[k].comp == s.comps[s.actor] {
      WatcherSees(s, j, x, y, calls, err, k, x, y);
      ActorEnds(s, calls, err, k);
    }
  }

  /** The actor's call ends as it acts. */
  lemma ActorEnds(s: Stage, calls: seq<Call>, err: Option<CompositeError>, i: nat)
    requires Staged(s) && FreshRun(s.comps, s.implements, calls, err) && s.actor < |s.comps|
    requires i < |calls| && calls[i].comp == s.comps[s.actor] && |calls[i].args| == |calls[i].comp.consumes|
    ensures match s.act(calls[i].args)
            case Success(v) => calls[i].outcome == Returned(v)
            case Error(code) => calls[i].outcome == Failed(ApplyFailed(code))
  {
    StagedParts(s);
    CallsInOrder(s.comps, s.implements, calls, err);
    hide Staged, FreshRun, DependenciesFirst, CallOk, Distinct, ActFits;
    CallEndsAs(s.implements, calls[..i], calls[i]);
  }

  /** When y comes first, the composite fails or the watcher reports y. */
  lemma SecondIsReported(s: Stage, j: nat, x: nat, y: nat, calls: seq<Call>)
    requires Watching(s, j, x, y) && FreshRun(s.comps, s.implements, calls, None)
    requires Before(Schedule(s.comps), s.comps[y].name, s.comps[x].name)
    ensures !Quiet(s.implements, s.comps[s.actor].produces) && Reports(s, calls, s.tags[y])
  {
    WatchingParts(s, j, x, y);
    StagedParts(s);
    hide Watching, Staged, FreshRun, Schedule, Before, DistinctNames, Feeds, Reports, ActFits, ProperParameters, Quiet;
    assert s.comps[s.actor] in s.comps;
    var i := CallOfComponent(s.comps, s.implements, calls, s.comps[s.actor]);
    WatcherSees(s, j, x, y, calls, None, i, y, x);
    ActorEnds(s, calls, None, i);
    ReportsReturned(s, calls, None, i);
  }

  // ---------------------------------------------------------------- an actor that is given one of two implementers

  /** Reports whether a parameter is the value of the given rendering: with its own value if that
      can show it, and otherwise by failing if it is not. */
  function Choose(implements: Implements, produces: Option<Type>, d: Type, j: nat, tag: string, other: string): Act {
    (args: seq<Arg>) =>
      if j < |args| && args[j].Single? && args[j].value.Val? && args[j].value.rendering == tag then
        Success(Result(implements, produces, d, tag))
      else if Quiet(implements, produces) then Error(0)
      else Success(Val(d, other, 0))
  }

  /** The actor takes an interface that p alone produces and that whatever produces the type of
      q implements as well. */
  ghost predicate Choosing(s: Stage, j: nat, p: nat, q: nat) {
    && Staged(s) && p < |s.comps| && q < |s.comps| && p != s.actor && q != s.actor
    && j < |s.comps[s.actor].consumes| && s.comps[s.actor].consumes[j].Interface?
    && s.comps[p].produces == Some(s.comps[s.actor].consumes[j])
    && OnlyHere(s, p, s.comps[s.actor].consumes[j])
    && s.comps[q].produces.Some? && s.comps[q].produces.value != s.comps[s.actor].consumes[j]
    && AllImplement(s, s.comps[q].produces.value, s.comps[s.actor].consumes[j])
    && !IsError(s.implements, s.comps[p]) && !IsError(s.implements, s.comps[q])
    && ActsAs(s.act, Choose(s.implements, s.comps[s.actor].produces, s.types[s.actor], j, s.tags[p], s.tags[s.actor]))
  }

  /** No other component but the actor produces the type. */
  ghost predicate OnlyHere(s: Stage, p: nat, t: Type) {
    forall i | 0 <= i < |s.comps| && i != s.actor && s.comps[i].produces == Some(t) :: i == p
  }

  /** What the components other than the actor return of a type implements the interface. */
  ghost predicate AllImplement(s: Stage, t: Type, iface: Type) {
    |s.types| == |s.comps|
    && forall i | 0 <= i < |s.comps| && i != s.actor && s.comps[i].produces == Some(t) ::
         s.implements(s.types[i], iface)
  }

  lemma ChoosingParts(s: Stage, j: nat, p: nat, q: nat)
    requires Choosing(s, j, p, q)
    ensures Staged(s) && DistinctNames(s.comps) && |s.types| == |s.tags| == |s.comps| && s.actor < |s.comps|
    ensures p < |s.comps| && q < |s.comps| && p != s.actor && q != s.actor && s.tags[p] != s.tags[s.actor]
    ensures j < |s.comps[s.actor].consumes| && s.comps[s.actor].consumes[j].Interface? && s.comps[q].produces.Some?
    ensures s.comps[q].produces.value != s.comps[s.actor].consumes[j]
    ensures var t := s.comps[s.actor].consumes[j];
            && s.comps[p].produces == Some(t) && OnlyHere(s, p, t)
            && AllImplement(s, t, t) && AllImplement(s, s.comps[q].produces.value, t)
    ensures !IsError(s.implements, s.comps[p]) && !IsError(s.implements, s.comps[q])
    ensures ActsAs(s.act,
                   Choose(s.implements, s.comps[s.actor].produces, s.types[s.actor], j, s.tags[p], s.tags[s.actor]))
  {
    StagedParts(s);
    hide DistinctNames, ProperParameters, Staged, ActFits;
    CastAt(s, p);
  }

  /** A run calls the actor, with all arguments, whatever the actor then does. */
  lemma ActorIsCalled(s: Stage, calls: seq<Call>, err: Option<CompositeError>) returns (i: nat)
    requires Staged(s) && Viable(s.comps) && NilsLate(s.comps) && FreshRun(s.comps, s.implements, calls, err)
    ensures s.actor < |s.comps| && i < |calls| && calls[i].comp == s.comps[s.actor]
    ensures |calls[i].args| == |calls[i].comp.consumes|
    ensures err.Some? ==> i == |calls| - 1 && calls[i].outcome.Failed?
  {
    StagedParts(s);
    hide Staged, FreshRun, DistinctNames, ProperParameters, UniqueSingles, NoCycle, StoredValue, ActFits, NilsLate;
    assert s.comps[s.actor] in s.comps;
    if err.None? {
      i := CallOfComponent(s.comps, s.implements, calls, s.comps[s.actor]);
    } else {
      UnambiguousSingles(s.comps);
      FailsOnlyIf(s.comps, s.implements, calls, err);
      i := |calls| - 1;
      CastReturns(s, calls, err, i);
    }
  }

  lemma {:induction false} HistoryPrefix(executor: Executor, implements: Implements, calls: seq<Call>, i: nat)
    requires HistoryOk(executor, implements, calls) && i <= |calls|
    ensures HistoryOk(executor, implements, calls[..i])
    decreases |calls|
  {
    if i < |calls| {
      assert calls[..|calls| - 1][..i] == calls[..i];
      HistoryPrefix(executor, implements, calls[..|calls| - 1], i);
    } else {
      assert calls[..i] == calls;
    }
  }

  /** The calls before the i-th, and the place of the i-th in the schedule. */
  lemma PrefixSoFar(comps: seq<Component>, implements: Implements, calls: seq<Call>, err: Option<CompositeError>,
                    i: nat) returns (n: nat)
    requires FreshRun(comps, implements, calls, err) && i < |calls| && Unambiguous(comps)
    ensures DistinctNames(comps) && SoFar(comps, implements, n, calls[..i])
    ensures var order := Search(InferredEdges(comps), Registered(comps)).order;
            n < |order| && order[n] == calls[i].comp.name
  {
    HistoryPrefix(Self, implements, calls, i);
    CallsFollowSchedule(comps, implements, calls, err);
    CallsInOrder(comps, implements, calls, err);
    ScheduleIsCallOrder(comps);
    hide FreshRun, Schedule, CallOrder, HistoryOk, Search, InferredEdges, DependenciesFirst, CallOk, Distinct, Known,
      Ambiguous, Before, Follows, DistinctNames;
    n := CalledAt(comps, InferredEdges(comps), calls, i);
    PrefixFollows(comps, Search(InferredEdges(comps), Registered(comps)).order[..n], calls, i);
  }

  lemma PrefixFollows(comps: seq<Component>, order: seq<string>, calls: seq<Call>, i: nat)
    requires i < |calls| && Known(comps, order) == Names(calls)[..i]
    requires forall k | 0 <= k < i :: calls[k].comp in comps && !calls[k].outcome.Failed?
    ensures Follows(comps, order, calls[..i])
  {
    hide Known;
    var before := calls[..i];
    assert Names(before) == Names(calls)[..i];
    forall c | c in before ensures c.comp in comps && !c.outcome.Failed? {
      var k :| 0 <= k < i && before[k] == c;
      assert calls[k] == c;
    }
  }

  /** The i-th call of a run with other arguments, if they can be provided, begins another run. */
  lemma OtherChoice(comps: seq<Component>, implements: Implements, calls: seq<Call>, err: Option<CompositeError>,
                    i: nat, args: seq<Arg>)
      returns (calls': seq<Call>, err': Option<CompositeError>)
    requires FreshRun(comps, implements, calls, err) && i < |calls| && Unambiguous(comps)
    requires |args| == |calls[i].comp.consumes| && ArgsProvided(implements, calls[..i], calls[i].comp.consumes, args)
    ensures FreshRun(comps, implements, calls', err')
    ensures i < |calls'| && calls'[i].comp == calls[i].comp && calls'[i].args == args
  {
    var before := calls[..i];
    var n := PrefixSoFar(comps, implements, calls, err, i);
    CallsInOrder(comps, implements, calls, err);
    hide FreshRun, SoFar, Search, InferredEdges, DependenciesFirst, ArgsProvided, Distinct, DistinctNames, Ambiguous;
    var call := CallExists(implements, before, calls[i].comp, args);
    CallStopsAtMissing(implements, before, call);
    hide CallOk;
    if call.outcome.Failed? {
      calls' := before + [call];
      err' := LastFailed(comps, implements, n, before, call);
    } else {
      NameIsRegistered(comps, call.comp);
      OneCallNext(comps, call.comp.name, call);
      SoFarGrows(comps, implements, n, before, [call]);
      calls', err' := ContinueRun(comps, implements, n + 1, before + [call]);
      assert (before + [call])[i] == calls'[i];
    }
  }

  lemma NameIsRegistered(comps: seq<Component>, c: Component)
    requires c in comps
    ensures IsName(comps, c.name)
  {
    var i :| 0 <= i < |comps| && comps[i] == c;
  }

  /** The last value of a type that implements an interface may be given for it. */
  lemma LastIsProvided(s: Stage, calls: seq<Call>, err: Option<CompositeError>, i: nat, t: Type, u: Type, k: nat)
      returns (x: nat)
    requires Staged(s) && NilsLate(s.comps) && FreshRun(s.comps, s.implements, calls, err) && i < |calls|
    requires s.actor < |s.comps| && calls[i].comp == s.comps[s.actor] && t in calls[i].comp.consumes && t.Interface?
    requires AllImplement(s, u, t) && !ErrorType(s.implements, u)
    requires k < i && calls[k].comp.produces == Some(u) && calls[k].outcome.Returned?
    ensures x < |s.comps| && x != s.actor && s.comps[x].produces == Some(u) && x < |s.types| && x < |s.tags|
    ensures Provided(s.implements, calls[..i], t, Single(Val(s.types[x], s.tags[x], 0)))
  {
    hide Staged, FreshRun, NilsLate, Outputs, StoredValue, FirstImplementer, ErrorType;
    assert IsInterface(t);
    NilsComeLater(s.comps, s.implements, calls, err, i);
    x := LastOutput(s, calls, err, i, u, k);
    LastMayBeFirst(s.implements, calls[..i], t, u);
  }

  /** The last value of a type before the actor is called. */
  lemma LastOutput(s: Stage, calls: seq<Call>, err: Option<CompositeError>, i: nat, u: Type, k: nat) returns (x: nat)
    requires Staged(s) && FreshRun(s.comps, s.implements, calls, err) && i < |calls|
    requires s.actor < |s.comps| && calls[i].comp == s.comps[s.actor] && !ErrorType(s.implements, u)
    requires k < i && calls[k].comp.produces == Some(u) && calls[k].outcome.Returned?
    ensures x < |s.comps| && x != s.actor && s.comps[x].produces == Some(u) && x < |s.types| && x < |s.tags|
    ensures Outputs(calls[..i], u) != []
    ensures Outputs(calls[..i], u)[|Outputs(calls[..i], u)| - 1] == Val(s.types[x], s.tags[x], 0)
  {
    hide Outputs, Staged, FreshRun, DistinctNames;
    var before := calls[..i];
    assert StoredBy(before, k, u, calls[k].outcome.value);
    OutputsAre(before, u, calls[k].outcome.value);
    var last := Outputs(before, u)[|Outputs(before, u)| - 1];
    OutputsAre(before, u, last);
    var m :| StoredBy(before, m, u, last);
    x := StorerAt(s, calls, err, i, m);
  }

  lemma StorerAt(s: Stage, calls: seq<Call>, err: Option<CompositeError>, i: nat, m: nat) returns (x: nat)
    requires Staged(s) && FreshRun(s.comps, s.implements, calls, err) && m < i < |calls|
    requires s.actor < |s.comps| && calls[i].comp == s.comps[s.actor] && !IsError(s.implements, calls[m].comp)
    requires calls[m].outcome.Returned?
    ensures x < |s.comps| && x != s.actor && s.comps[x] == calls[m].comp && x < |s.types| && x < |s.tags|
    ensures calls[m].outcome == Returned(Val(s.types[x], s.tags[x], 0))
  {
    CallsInOrder(s.comps, s.implements, calls, err);
    hide Staged, FreshRun, CallOk, DependenciesFirst, Distinct, IsError;
    ActorComesLater(s, calls, err, i, i);
    x :| 0 <= x < |s.comps| && s.comps[x] == calls[m].comp;
    StoredTag(s, calls, err, m, x);
  }

  /** The actor may be given the value of p, and that of another implementer if q is called before. */
  lemma EitherIsProvided(s: Stage, j: nat, p: nat, q: nat, calls: seq<Call>, err: Option<CompositeError>, i: nat)
      returns (x: nat)
    requires Choosing(s, j, p, q) && NilsLate(s.comps) && FreshRun(s.comps, s.implements, calls, err)
    requires i < |calls| && calls[i].comp == s.comps[s.actor]
    requires Before(Schedule(s.comps), s.comps[q].name, s.comps[s.actor].name)
    ensures p < |s.types| && p < |s.tags| && x < |s.types| && x < |s.tags| && j < |calls[i].comp.consumes|
    ensures s.tags[x] != s.tags[p]
    ensures Provided(s.implements, calls[..i], calls[i].comp.consumes[j], Single(Val(s.types[p], s.tags[p], 0)))
    ensures Provided(s.implements, calls[..i], calls[i].comp.consumes[j], Single(Val(s.types[x], s.tags[x], 0)))
  {
    ChoosingParts(s, j, p, q);
    StagedParts(s);
    hide Choosing, Staged, FreshRun, DistinctNames, Schedule, Before, Provided, NilsLate, ErrorType, AllImplement,
      ActsAs, ActFits, ProperParameters;
    var t := s.comps[s.actor].consumes[j];
    FeedsIsOtherProducer(s.comps, p, s.actor, t);
    assert s.comps[p] in s.comps && t in calls[i].comp.consumes;
    var k := ProducerHasReturned(s.comps, s.implements, calls, err, i, s.comps[p], t);
    var y := LastIsProvided(s, calls, err, i, t, t, k);
    assert y == p;
    var l := CalledEarlierInRun(s.comps, s.implements, calls, err, i, q);
    x := LastIsProvided(s, calls, err, i, t, s.comps[q].produces.value, l);
  }

  /** What the schedule has before a called component has returned. */
  lemma CalledEarlierInRun(comps: seq<Component>, implements: Implements, calls: seq<Call>, err: Option<CompositeError>,
                           i: nat, q: nat)
      returns (l: nat)
    requires FreshRun(comps, implements, calls, err) && i < |calls| && q < |comps|
    requires Before(Schedule(comps), comps[q].name, calls[i].comp.name)
    ensures l < i && calls[l].comp == comps[q] && calls[l].outcome.Returned?
  {
    CallsFollowSchedule(comps, implements, calls, err);
    CallsInOrder(comps, implements, calls, err);
    ScheduleIsCallOrder(comps);
    hide FreshRun, DependenciesFirst, CallOk, Distinct, CallOrder, InferredEdges, Before;
    CallsKeepOrder(comps, InferredEdges(comps), calls, comps[q].name, i);
    l :| 0 <= l < i && Names(calls)[..i][l] == comps[q].name;
    SameName(comps, calls[l].comp, comps[q]);
    ReturnedUnlessFailed(implements, calls[..l], calls[l]);
  }

  /** Two runs over the same list: in one the actor is given the value of p, in the other that of
      another implementer. */
  lemma BothChoices(s: Stage, j: nat, p: nat, q: nat)
      returns (calls: seq<Call>, err: Option<CompositeError>, calls': seq<Call>, err': Option<CompositeError>)
    requires Choosing(s, j, p, q) && Viable(s.comps) && NilsLate(s.comps)
    requires Before(Schedule(s.comps), s.comps[q].name, s.comps[s.actor].name)
    ensures FreshRun(s.comps, s.implements, calls, err) && FreshRun(s.comps, s.implements, calls', err')
    ensures s.actor < |s.comps| && p < |s.tags| && s.actor < |s.tags| && s.tags[p] != s.tags[s.actor]
    ensures err.None? && (!Quiet(s.implements, s.comps[s.actor].produces) ==> Reports(s, calls, s.tags[p]))
    ensures err'.None? ==> !Quiet(s.implements, s.comps[s.actor].produces) && Reports(s, calls', s.tags[s.actor])
  {
    ChoosingParts(s, j, p, q);
    StagedParts(s);
    UnambiguousSingles(s.comps);
    hide Choosing, Staged, FreshRun, DistinctNames, Schedule, Before, Reports, UniqueSingles, NoCycle, ActFits,
      ProperParameters, Ambiguous, NilsLate, Quiet, IsError, Choose, OnlyHere, AllImplement, ActsAs;
    var calls0, err0 := RunExists(s.comps, s.implements);
    var i := ActorIsCalled(s, calls0, err0);
    var x := EitherIsProvided(s, j, p, q, calls0, err0, i);
    calls, err := GivenValue(s, j, calls0, err0, i, Val(s.types[p], s.tags[p], 0));
    calls', err' := GivenValue(s, j, calls0, err0, i, Val(s.types[x], s.tags[x], 0));
    ChoiceIsReported(s, j, p, q, calls, err, i);
    OtherIsReported(s, j, p, q, calls', err', i, Val(s.types[x], s.tags[x], 0));
  }

  lemma GivenValue(s: Stage, j: nat, calls: seq<Call>, err: Option<CompositeError>, i: nat, v: Value)
      returns (calls': seq<Call>, err': Option<CompositeError>)
    requires FreshRun(s.comps, s.implements, calls, err) && Unambiguous(s.comps) && i < |calls|
    requires j < |calls[i].comp.consumes| && |calls[i].args| == |calls[i].comp.consumes|
    requires Provided(s.implements, calls[..i], calls[i].comp.consumes[j], Single(v))
    ensures FreshRun(s.comps, s.implements, calls', err')
    ensures i < |calls'| && calls'[i].comp == calls[i].comp && j < |calls'[i].args| && calls'[i].args[j] == Single(v)
    ensures |calls'[i].args| == |calls'[i].comp.consumes|
  {
    CallsInOrder(s.comps, s.implements, calls, err);
    hide FreshRun, DependenciesFirst, Distinct, Provided, Ambiguous, Unavailable;
    var args := calls[i].args[j := Single(v)];
    assert ArgsProvided(s.implements, calls[..i], calls[i].comp.consumes, args);
    hide CallOk;
    calls', err' := OtherChoice(s.comps, s.implements, calls, err, i, args);
  }

  lemma ChoiceIsReported(s: Stage, j: nat, p: nat, q: nat, calls: seq<Call>, err: Option<CompositeError>, i: nat)
    requires Choosing(s, j, p, q) && Viable(s.comps) && NilsLate(s.comps)
    requires FreshRun(s.comps, s.implements, calls, err)
    requires i < |calls| && s.actor < |s.comps| && calls[i].comp == s.comps[s.actor]
    requires |calls[i].args| == |calls[i].comp.consumes|
    requires p < |s.types| && p < |s.tags| && j < |calls[i].args|
    requires calls[i].args[j] == Single(Val(s.types[p], s.tags[p], 0))
    ensures err.None? && (!Quiet(s.implements, s.comps[s.actor].produces) ==> Reports(s, calls, s.tags[p]))
  {
    ChoosingParts(s, j, p, q);
    hide Choosing, Staged, FreshRun, DistinctNames, Reports, UniqueSingles, NoCycle, NilsLate, OnlyHere, AllImplement;
    ActorEnds(s, calls, err, i);
    if !Quiet(s.implements, s.comps[s.actor].produces) {
      ReportsReturned(s, calls, err, i);
    }
    if err.Some? {
      var k := ActorIsCalled(s, calls, err);
      CalledOnce(s.comps, s.implements, calls, err, i, k);
    }
  }

  lemma OtherIsReported(s: Stage, j: nat, p: nat, q: nat, calls: seq<Call>, err: Option<CompositeError>, i: nat,
                        v: Value)
    requires Choosing(s, j, p, q) && FreshRun(s.comps, s.implements, calls, err)
    requires i < |calls| && s.actor < |s.comps| && calls[i].comp == s.comps[s.actor]
    requires |calls[i].args| == |calls[i].comp.consumes|
    requires p < |s.tags| && j < |calls[i].args| && calls[i].args[j] == Single(v) && v.Val? && v.rendering != s.tags[p]
    ensures s.actor < |s.tags|
    ensures err.None? ==> !Quiet(s.implements, s.comps[s.actor].produces) && Reports(s, calls, s.tags[s.actor])
  {
    ChoosingParts(s, j, p, q);
    hide Choosing, Staged, FreshRun, DistinctNames, Reports, OnlyHere, AllImplement;
    ActorEnds(s, calls, err, i);
    if err.None? {
      assert s.comps[s.actor] in s.comps;
      var k := CallOfComponent(s.comps, s.implements, calls, s.comps[s.actor]);
      CalledOnce(s.comps, s.implements, calls, err, i, k);
      ReportsReturned(s, calls, err, i);
    }
  }
}
