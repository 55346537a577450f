/** Every composite has a run: whatever the store holds, each parameter can be provided or
    there is a reason why not, so the calls of the schedule can be made one after the other. */
module CompositeRuns {
  import opened Options
  import opened Graph
  import opened DepthFirst
  import opened CompositeModel
  import opened CompositeSearch
  import opened CompositeScheduler
  import opened CompositeOrder
  import opened CompositeValues

  // ---------------------------------------------------------------- one parameter

  /** Whatever was called before, a parameter can be provided or there is a reason why not. */
  lemma ProvidedOrNot(implements: Implements, before: seq<Call>, t: Type) returns (arg: Option<Arg>, e: ExecError)
    ensures arg.Some? ==> Provided(implements, before, t, arg.value)
    ensures arg.None? ==> Unavailable(implements, before, t, e)
  {
    hide Outputs, Dedup, Implementers, FirstImplementer;
    arg, e := None, MissingDependency(t);
    match t
    case Concrete(_) =>
      var outputs := Outputs(before, t);
      if outputs != [] {
        arg := Some(Single(outputs[|outputs| - 1]));
      }
    case Interface(_) =>
      if StoredValue(before, Nil) {
        e := NilDereference(t);
      } else if v :| StoredValue(before, v) && Satisfies(implements, v, t) {
        var w := FirstImplementerExists(implements, before, t, v);
        arg := Some(Single(w));
      }
    case Slice(_, elem) =>
      e := NilDereference(elem);
      if elem.Interface? {
        if !StoredValue(before, Nil) {
          var vs := ImplementersExist(implements, before, elem);
          arg := Some(Many(vs));
        }
      } else if Nil !in Outputs(before, elem) {
        arg := Some(Many(Dedup(Outputs(before, elem))));
      }
  }

  // ---------------------------------------------------------------- one call

  lemma {:induction false} CallExists(implements: Implements, before: seq<Call>, c: Component, args: seq<Arg>)
      returns (call: Call)
    requires ArgsProvided(implements, before, c.consumes, args)
    ensures CallOk(Self, implements, before, call) && call.comp == c && !call.outcome.Acknowledged? && args <= call.args
    decreases |c.consumes| - |args|
  {
    hide Provided, Unavailable;
    if |args| == |c.consumes| {
      var r := c.apply(args);
      call := Call(c, args, if r.Success? then Returned(r.value) else Failed(ApplyFailed(r.code)));
    } else {
      var arg, e := ProvidedOrNot(implements, before, c.consumes[|args|]);
      if arg.Some? {
        call := CallExists(implements, before, c, args + [arg.value]);
      } else {
        call := Call(c, args, Failed(e));
      }
    }
  }

  // ---------------------------------------------------------------- whole runs

  /** The calls made for the first n names of the schedule, none of which failed. */
  ghost predicate SoFar(comps: seq<Component>, implements: Implements, n: nat, calls: seq<Call>)
    requires DistinctNames(comps)
  {
    var order := Search(InferredEdges(comps), Registered(comps)).order;
    n <= |order| && Follows(comps, order[..n], calls) && HistoryOk(Self, implements, calls)
  }

  ghost predicate Unambiguous(comps: seq<Component>) {
    forall c, t :: !Ambiguous(comps, c, t)
  }

  /** One more name of the schedule has been dealt with. */
  lemma SoFarGrows(comps: seq<Component>, implements: Implements, n: nat, calls: seq<Call>, more: seq<Call>)
    requires DistinctNames(comps) && SoFar(comps, implements, n, calls)
    requires n < |Search(InferredEdges(comps), Registered(comps)).order|
    requires CallsNext(comps, Search(InferredEdges(comps), Registered(comps)).order[n], more)
    requires |more| <= 1 && (more != [] ==> CallOk(Self, implements, calls, more[0]))
    ensures SoFar(comps, implements, n + 1, calls + more)
  {
    hide Search, InferredEdges, Follows, CallOk, IsName;
    var order := Search(InferredEdges(comps), Registered(comps)).order;
    FollowsGrows(comps, order[..n], calls, order[n], more);
    assert order[..n + 1] == order[..n] + [order[n]];
    if more == [] {
      assert calls + more == calls;
    } else {
      assert more == [more[0]];
      HistoryGrows(Self, implements, calls, more[0]);
    }
  }

  /** Calls that end the schedule are a run. */
  lemma AllMade(comps: seq<Component>, implements: Implements, calls: seq<Call>) returns (err: Option<CompositeError>)
    requires DistinctNames(comps) && Unambiguous(comps)
    requires SoFar(comps, implements, |Search(InferredEdges(comps), Registered(comps)).order|, calls)
    ensures FreshRun(comps, implements, calls, err)
  {
    hide Search, InferredEdges, Follows, HistoryOk, Ambiguous;
    var w := Search(InferredEdges(comps), Registered(comps));
    assert w.order[..|w.order|] == w.order;
    var runErr := if w.cycle.None? then None else Some(Circular(w.cycle.value));
    assert RunsAlong(comps, w, w.order, calls, runErr);
    err := if runErr.None? then None else Some(RunFailed(runErr.value));
  }

  /** So are calls of which the last failed. */
  lemma LastFailed(comps: seq<Component>, implements: Implements, n: nat, calls: seq<Call>, c: Call)
      returns (err: Option<CompositeError>)
    requires DistinctNames(comps) && Unambiguous(comps) && SoFar(comps, implements, n, calls)
    requires n < |Search(InferredEdges(comps), Registered(comps)).order|
    requires c.comp in comps && c.comp.name == Search(InferredEdges(comps), Registered(comps)).order[n]
    requires CallOk(Self, implements, calls, c) && c.outcome.Failed?
    ensures FreshRun(comps, implements, calls + [c], err) && err.Some?
  {
    hide Search, InferredEdges, Follows, HistoryOk, CallOk, Ambiguous, Stops;
    var w := Search(InferredEdges(comps), Registered(comps));
    var e := ExecutionFailed(c.comp.name, c.outcome.error);
    assert w.order[..n + 1] == w.order[..n] + [c.comp.name];
    StopsAtCall(comps, w, w.order[..n], calls, c, c.outcome.error);
    HistoryGrows(Self, implements, calls, c);
    assert RunsAlong(comps, w, w.order[..n], calls + [c], Some(e));
    err := Some(RunFailed(e));
  }

  /** Calls made so far can be continued to a run. */
  lemma {:induction false} ContinueRun(comps: seq<Component>, implements: Implements, n: nat, calls: seq<Call>)
      returns (calls': seq<Call>, err: Option<CompositeError>)
    requires DistinctNames(comps) && Unambiguous(comps) && SoFar(comps, implements, n, calls)
    ensures FreshRun(comps, implements, calls', err) && calls <= calls'
    decreases |Search(InferredEdges(comps), Registered(comps)).order| - n
  {
    hide Search, InferredEdges, SoFar, Unambiguous, DistinctNames, CallOk, FreshRun, IsName;
    SoFarInRange(comps, implements, n, calls);
    var order := Search(InferredEdges(comps), Registered(comps)).order;
    if n == |order| {
      calls' := calls;
      err := AllMade(comps, implements, calls);
    } else if !IsName(comps, order[n]) {
      SoFarGrows(comps, implements, n, calls, []);
      assert calls + [] == calls;
      calls', err := ContinueRun(comps, implements, n + 1, calls);
    } else {
      var c := ComponentOf(comps, order[n]);
      var call := CallExists(implements, calls, c, []);
      if call.outcome.Failed? {
        calls' := calls + [call];
        err := LastFailed(comps, implements, n, calls, call);
      } else {
        OneCallNext(comps, order[n], call);
        SoFarGrows(comps, implements, n, calls, [call]);
        calls', err := ContinueRun(comps, implements, n + 1, calls + [call]);
      }
    }
  }

  lemma SoFarInRange(comps: seq<Component>, implements: Implements, n: nat, calls: seq<Call>)
    requires DistinctNames(comps) && SoFar(comps, implements, n, calls)
    ensures n <= |Search(InferredEdges(comps), Registered(comps)).order|
  {
  }

  lemma ComponentOf(comps: seq<Component>, n: string) returns (c: Component)
    requires IsName(comps, n)
    ensures c in comps && c.name == n
  {
    var i :| 0 <= i < |comps| && comps[i].name == n;
    c := comps[i];
  }

  lemma OneCallNext(comps: seq<Component>, n: string, call: Call)
    requires IsName(comps, n) && call.comp in comps && call.comp.name == n && !call.outcome.Failed?
    ensures CallsNext(comps, n, [call])
  {
    hide IsName;
  }

  lemma NothingSoFar(comps: seq<Component>, implements: Implements)
    requires DistinctNames(comps)
    ensures SoFar(comps, implements, 0, [])
  {
    hide Search;
  }

  lemma {:induction false} FirstAmbiguousExists(comps: seq<Component>, i: nat) returns (consumer: string, t: Type)
    requires i <= |comps| && (forall j, u | 0 <= j < i :: !Ambiguous(comps, comps[j], u))
    requires exists j, u :: 0 <= j < |comps| && Ambiguous(comps, comps[j], u)
    ensures FirstAmbiguous(comps, consumer, t)
    decreases |comps| - i
  {
    if u :| Ambiguous(comps, comps[i], u) {
      var k :| 0 <= k < |comps[i].consumes| && comps[i].consumes[k] == u;
      k := FirstParameter(comps, i, k);
      consumer, t := comps[i].name, comps[i].consumes[k];
    } else {
      consumer, t := FirstAmbiguousExists(comps, i + 1);
    }
  }

  lemma {:induction false} FirstParameter(comps: seq<Component>, i: nat, k: nat) returns (l: nat)
    requires i < |comps| && k < |comps[i].consumes| && Ambiguous(comps, comps[i], comps[i].consumes[k])
    requires forall j, u | 0 <= j < i :: !Ambiguous(comps, comps[j], u)
    ensures AmbiguousAt(comps, i, l)
    decreases k
  {
    hide Ambiguous;
    if m: nat :| m < k && Ambiguous(comps, comps[i], comps[i].consumes[m]) {
      l := FirstParameter(comps, i, m);
    } else {
      l := k;
    }
  }

  /** Every composite has a run. */
  lemma RunExists(comps: seq<Component>, implements: Implements) returns (calls: seq<Call>, err: Option<CompositeError>)
    requires DistinctNames(comps)
    ensures FreshRun(comps, implements, calls, err)
  {
    if c, t :| Ambiguous(comps, c, t) {
      var i :| 0 <= i < |comps| && comps[i] == c;
      var consumer, wanted := FirstAmbiguousExists(comps, 0);
      calls, err := [], Some(MultipleProducers(consumer, wanted));
    } else {
      NothingSoFar(comps, implements);
      calls, err := ContinueRun(comps, implements, 0, []);
    }
  }
}
