/** The composite scheduler: graph inference, depth-first execution with the `executed`
    and `visiting` marks, and the executor that injects stored results and records new ones. */
module CompositeScheduler {
  import opened Options
  import opened Graph
  import opened DepthFirst
  import opened CompositeModel
  import opened CompositeSearch

  /** Names the traversal can meet: registered names, graph keys and graph targets. */
  ghost function Universe(components: seq<Component>, edges: Edges): set<string> {
    (set c | c in components :: c.name) + edges.Keys + (set n, d | n in edges && d in edges[n] :: d)
  }

  class Composite {
    const components: seq<Component>
    const implements: Implements
    const executor: Executor
    var results: map<Type, Value>
    var sliceResults: map<Type, seq<Value>>
    var called: seq<string>     // what a substituted executor has seen
    ghost var trace: seq<Call>  // every call of the executor so far

    ghost predicate Valid() reads this {
      && DistinctNames(components)
      && HistoryOk(executor, implements, trace)
      && StoreMatches(results, sliceResults, trace)
      && (executor.Substitute? ==> called == Names(trace))
    }

    constructor (components: seq<Component>, implements: Implements, executor: Executor)
      requires DistinctNames(components)
      ensures Valid() && trace == []
      ensures this.components == components && this.implements == implements && this.executor == executor
    {
      this.components, this.implements, this.executor := components, implements, executor;
      results, sliceResults := map[], map[];
      called, trace := [], [];
    }

    method Apply() returns (err: Option<CompositeError>)
      requires Valid()
      modifies this
      ensures Valid() && old(trace) <= trace
      ensures CompositeRun(components, trace[|old(trace)|..], err)
      ensures executor.Self? && old(trace) == [] ==> FreshRun(components, implements, trace, err)
    {
      assert old(trace) == [] ==> forall longer: seq<Call> :: longer[|old(trace)|..] == longer;
      var edges, graphErr := DependencyGraph();
      if graphErr.Some? {
        return graphErr;
      }
      var runErr := ExecuteGraph(edges);
      err := if runErr.Some? then Some(RunFailed(runErr.value)) else None;
    }

    /** Fails exactly when a single-valued parameter has several producers; otherwise it
        returns the inferred graph. */
    method DependencyGraph() returns (edges: map<string, seq<string>>, err: Option<CompositeError>)
      requires Valid()
      ensures err.None? ==> edges == InferredEdges(components) && !exists c, t :: Ambiguous(components, c, t)
      ensures err.Some? ==>
                && err.value.MultipleProducers?
                && FirstAmbiguous(components, err.value.consumer, err.value.wanted)
    {
      hide HistoryOk, StoreMatches, DependenciesFor, InferredEdges, Producers;
      edges := map[];
      for i := 0 to |components|
        invariant forall n | n in edges :: IsName(components, n)
      {
        edges := edges[components[i].name := []];
      }
      for i := 0 to |components|
        invariant forall n | n in edges :: IsName(components, n)
        invariant forall j | 0 <= j < i :: EdgesOf(components, edges, components[j])
        invariant forall j, t | 0 <= j < i :: !Ambiguous(components, components[j], t)
      {
        var consumer := components[i];
        var deps, conflict, at := DependenciesOf(consumer);
        edges := edges[consumer.name := deps];
        if conflict.Some? {
          assert AmbiguousAt(components, i, at);
          return edges, Some(MultipleProducers(consumer.name, conflict.value));
        }
      }
      InferredEdgesAre(components, edges);
      err := None;
    }

    /** The loop over the parameters of one consumer: the names it depends on, or the first
        single-valued parameter with several producers. */
    method DependenciesOf(consumer: Component) returns (deps: seq<string>, conflict: Option<Type>, ghost at: nat)
      requires consumer in components
      ensures conflict.None? ==>
                && deps == DependenciesFor(components, consumer.name, consumer.consumes)
                && forall t :: !Ambiguous(components, consumer, t)
      ensures conflict.Some? ==>
                && at < |consumer.consumes| && conflict.value == consumer.consumes[at]
                && Ambiguous(components, consumer, conflict.value)
                && forall l | 0 <= l < at :: !Ambiguous(components, consumer, consumer.consumes[l])
    {
      hide DependenciesFor, Producers;
      deps, at := [], 0;
      NoDependencies(components, consumer.name);
      for k := 0 to |consumer.consumes|
        invariant deps == DependenciesFor(components, consumer.name, consumer.consumes[..k])
        invariant forall l | 0 <= l < k :: !Ambiguous(components, consumer, consumer.consumes[l])
      {
        var needed := consumer.consumes[k];
        MoreDependencies(components, consumer, k);
        var matching := ProducersOf(consumer, Wanted(needed));
        deps := deps + matching;
        if !needed.Slice? && |matching| > 1 {
          return deps, Some(needed), k;
        }
      }
      assert consumer.consumes[..|consumer.consumes|] == consumer.consumes;
      conflict := None;
    }

    /** The loop over possible producers, common to slice and single-valued parameters. */
    method ProducersOf(consumer: Component, t: Type) returns (matching: seq<string>)
      ensures matching == Producers(components, consumer.name, t)
    {
      matching := [];
      for m := 0 to |components|
        invariant matching == Producers(components[..m], consumer.name, t)
      {
        var producer := components[m];
        assert components[..m + 1][..m] == components[..m];
        if producer.name != consumer.name && producer.produces == Some(t) {
          matching := matching + [producer.name];
        }
      }
      assert components[..|components|] == components;
    }

    /** Runs every component after the components it depends on, until the first failure.
        Works for any edges, also ones that name unknown components. */
    method ExecuteGraph(edges: map<string, seq<string>>) returns (err: Option<RunError>)
      requires Valid()
      modifies this
      ensures Valid() && old(trace) <= trace
      ensures GraphRun(components, edges, trace[|old(trace)|..], err)
    {
      hide *;
      AllRoots(components, edges);
      var run := new Traversal(this, edges);
      for i := 0 to |components|
        invariant run.composite == this && run.edges == edges && run.base == |old(trace)|
        invariant fresh(run) && run.Consistent() && run.visiting == {} && Valid() && old(trace) <= trace
        invariant WalkAll(edges, {}, [], Registered(components)[..i]) == Walk(run.order, None)
        invariant forall j | 0 <= j < |components| :: components[j].name in run.universe
      {
        run.ExecutedAreOrdered();
        NextRoot(components, edges, i, run.order);
        if components[i].name !in run.executed {
          err := run.VisitRoot(i);
          if err.Some? {
            return;
          }
        }
      }
      run.Finished();
      err := None;
    }

    /** Calls the executor. The call is logged; an error is its logged outcome. */
    method Execute(comp: Component) returns (err: Option<ExecError>, ghost c: Call)
      requires Valid()
      modifies this
      ensures Valid() && trace == old(trace) + [c] && Logged(c, comp, err)
    {
      hide HistoryOk, StoreMatches;
      match executor
      case Self => err, c := ExecuteComponent(comp);
      case Substitute(respond) =>
        var answer := respond(called, comp.name);
        called := called + [comp.name];
        err := if answer.Some? then Some(Refused(answer.value)) else None;
        c := Call(comp, [], if answer.Some? then Failed(err.value) else Acknowledged);
        UnstoredCall(executor, implements, results, sliceResults, trace, c);
        trace := trace + [c];
    }

    method ExecuteComponent(comp: Component) returns (err: Option<ExecError>, ghost c: Call)
      requires Valid() && executor.Self?
      modifies this
      ensures Valid() && trace == old(trace) + [c] && Logged(c, comp, err)
    {
      var args;
      hide HistoryOk, StoreMatches, Provided, Unavailable;
      args, err := Arguments(comp);
      if err.Some? {
        c := Call(comp, args, Failed(err.value));
        UnstoredCall(executor, implements, results, sliceResults, trace, c);
      } else {
        match comp.apply(args)
        case Error(code) =>
          err := Some(ApplyFailed(code));
          c := Call(comp, args, Failed(err.value));
          UnstoredCall(executor, implements, results, sliceResults, trace, c);
        case Success(value) =>
          c := Call(comp, args, Returned(value));
          if comp.produces.Some? {
            StoredCall(executor, implements, results, sliceResults, trace, c);
            Store(comp.produces.value, value);
          } else {
            UnstoredCall(executor, implements, results, sliceResults, trace, c);
          }
      }
      trace := trace + [c];
    }

    method Store(t: Type, value: Value)
      modifies this`results, this`sliceResults
      ensures results == old(results)[t := value]
      ensures sliceResults == Appended(old(sliceResults), t, value)
    {
      results := results[t := value];
      if t !in sliceResults {
        sliceResults := sliceResults[t := []];
      }
      sliceResults := sliceResults[t := sliceResults[t] + [value]];
    }

    /** Collects the arguments of comp, up to the first one that cannot be provided. */
    method Arguments(comp: Component) returns (args: seq<Arg>, err: Option<ExecError>)
      requires Valid()
      ensures ArgsProvided(implements, trace, comp.consumes, args)
      ensures err.None? ==> |args| == |comp.consumes|
      ensures err.Some? ==>
                |args| < |comp.consumes| && Unavailable(implements, trace, comp.consumes[|args|], err.value)
    {
      hide HistoryOk, StoreMatches, Provided, Unavailable;
      args := [];
      for i := 0 to |comp.consumes|
        invariant |args| == i
        invariant ArgsProvided(implements, trace, comp.consumes, args)
      {
        var arg;
        arg, err := ValueForType(comp.consumes[i]);
        if err.Some? {
          return;
        }
        args := args + [arg];
      }
      err := None;
    }

    method ValueForType(t: Type) returns (arg: Arg, err: Option<ExecError>)
      requires Valid()
      ensures err.None? ==> Provided(implements, trace, t, arg)
      ensures err.Some? ==> Unavailable(implements, trace, t, err.value)
    {
      hide HistoryOk, Outputs, Dedup, Implementers, StoredValue;
      arg, err := Many([]), None;
      match t
      case Interface(_) =>
        var impls;
        impls, err := FindImplementations(t);
        if err.None? {
          ImplementersAre(implements, trace, t, impls);
          if impls == [] {
            err := Some(MissingDependency(t));
          } else {
            arg := Single(impls[0]);
          }
        }
      case Slice(_, elem) =>
        var impls;
        impls, err := FindImplementations(elem);
        if err.None? {
          if Nil in impls {
            err := Some(NilDereference(elem));
          } else {
            arg := Many(impls);
          }
        }
      case Concrete(_) =>
        if t !in results {
          err := Some(MissingDependency(t));
        } else {
          arg := Single(results[t]);
        }
    }

    method FindImplementations(target: Type) returns (impls: seq<Value>, err: Option<ExecError>)
      requires Valid()
      ensures err.Some? ==> target.Interface? && StoredValue(trace, Nil) && err.value == NilDereference(target)
      ensures err.None? && target.Interface? ==>
                !StoredValue(trace, Nil) && Implementers(implements, trace, target, impls)
      ensures err.None? && target.Interface? ==> Nil !in impls
      ensures err.None? && !target.Interface? ==> impls == Dedup(Outputs(trace, target))
      ensures err.None? && !target.Interface? ==> (Nil in impls <==> Nil in Outputs(trace, target))
    {
      if target.Interface? {
        impls, err := FindInterfaceImplementations(target);
        if err.None? {
          ImplementersAre(implements, trace, target, impls);
        }
      } else if target in sliceResults {
        impls := KeepFirstOfEachKey(sliceResults[target]);
        err := None;
      } else {
        impls, err := [], None;
      }
      DedupKeepsNil(Outputs(trace, target));
    }

    method KeepFirstOfEachKey(instances: seq<Value>) returns (kept: seq<Value>)
      ensures kept == Dedup(instances)
    {
      kept := [];
      var seen: set<Key> := {};
      for i := 0 to |instances|
        invariant kept == Dedup(instances[..i])
        invariant forall k :: k in seen <==> HasKey(kept, k)
      {
        assert instances[..i + 1][..i] == instances[..i];
        var key := UniqueKey(instances[i]);
        if key !in seen {
          HasKeyExtends(kept, instances[i]);
          kept, seen := kept + [instances[i]], seen + {key};
        }
      }
      assert instances[..|instances|] == instances;
    }

    /** Searches both maps in the arbitrary order of Go's map iteration. */
    method FindInterfaceImplementations(target: Type) returns (impls: seq<Value>, err: Option<ExecError>)
      requires Valid()
      ensures err.Some? ==> StoredValue(trace, Nil) && err.value == NilDereference(target)
      ensures err.None? ==> !StoredValue(trace, Nil) && Implementers(implements, trace, target, impls)
    {
      hide HistoryOk, Outputs, LastsOf, AllOf, Collected;
      impls := [];
      var seen: set<Key> := {};
      ghost var types, types' := [], [];
      NothingCollected(implements, trace, target);
      var keys := results.Keys;
      while keys != {}
        invariant keys <= results.Keys && Met(results.Keys, keys, types)
        invariant Collected(implements, target, LastsOf(trace, types), impls, seen)
      {
        var t :| t in keys;
        keys := keys - {t};
        assert HoldsOutputs(results, sliceResults, t, Outputs(trace, t));
        OneMoreType(trace, types, t);
        impls, seen, err := Consider(target, [results[t]], impls, seen, LastsOf(trace, types));
        if err.Some? {
          assert results[t] in Outputs(trace, t);
          return;
        }
        types := types + [t];
      }
      NoTypeYet(trace);
      assert LastsOf(trace, types) + AllOf(trace, types') == LastsOf(trace, types);
      keys := sliceResults.Keys;
      while keys != {}
        invariant keys <= sliceResults.Keys && Met(sliceResults.Keys, keys, types')
        invariant Collected(implements, target, LastsOf(trace, types) + AllOf(trace, types'), impls, seen)
      {
        var t :| t in keys;
        keys := keys - {t};
        assert HoldsOutputs(results, sliceResults, t, Outputs(trace, t));
        OneMoreType(trace, types', t);
        impls, seen, err := Consider(target, sliceResults[t], impls, seen,
                                     LastsOf(trace, types) + AllOf(trace, types'));
        if err.Some? {
          return;
        }
        assert LastsOf(trace, types) + (AllOf(trace, types') + sliceResults[t])
            == LastsOf(trace, types) + AllOf(trace, types') + sliceResults[t];
        types' := types' + [t];
      }
      err := None;
      AllMet(implements, trace, results, sliceResults, target, types, types', impls, seen);
    }

    /** The body shared by the two search loops, over one run of stored values. */
    method Consider(target: Type, values: seq<Value>, impls: seq<Value>, seen: set<Key>, ghost before: seq<Value>)
      returns (impls': seq<Value>, seen': set<Key>, err: Option<ExecError>)
      requires Collected(implements, target, before, impls, seen)
      ensures err.None? ==> Collected(implements, target, before + values, impls', seen')
      ensures err.Some? ==> Nil in values && err.value == NilDereference(target)
    {
      hide Collected;
      impls', seen' := impls, seen;
      assert before + values[..0] == before;
      for i := 0 to |values|
        invariant Collected(implements, target, before + values[..i], impls', seen')
      {
        var value := values[i];
        if value.Nil? {
          return impls', seen', Some(NilDereference(target));
        }
        assert before + values[..i + 1] == before + values[..i] + [value];
        OneMoreCollected(implements, target, before + values[..i], impls', seen', value);
        if implements(value.dyn, target) {
          var key := UniqueKey(value);
          if key !in seen' {
            impls', seen' := impls' + [value], seen' + {key};
          }
        }
      }
      assert before + values[..|values|] == before + values;
      err := None;
    }
  }

  function Appended(m: map<Type, seq<Value>>, t: Type, v: Value): map<Type, seq<Value>> {
    m[t := (if t in m then m[t] else []) + [v]]
  }

  ghost predicate Logged(c: Call, comp: Component, err: Option<ExecError>) {
    c.comp == comp && if err.Some? then c.outcome == Failed(err.value) else !c.outcome.Failed?
  }

  /** The state of the interface search: the first implementer of each key among the values
      searched so far, none of them nil, and the set of keys. */
  ghost predicate Collected(implements: Implements, target: Type, searched: seq<Value>, impls: seq<Value>,
                            seen: set<Key>) {
    && Nil !in searched && impls == Dedup(Implementing(implements, target, searched))
    && forall k :: k in seen <==> HasKey(impls, k)
  }

  /** The types met so far by the iteration over a map. */
  ghost predicate Met(all: set<Type>, left: set<Type>, types: seq<Type>) {
    Distinct(types) && forall t :: t in types <==> t in all && t !in left
  }

  lemma NothingCollected(implements: Implements, calls: seq<Call>, target: Type)
    ensures LastsOf(calls, []) == [] && Collected(implements, target, [], [], {})
  {
  }

  lemma NoTypeYet(calls: seq<Call>)
    ensures AllOf(calls, []) == []
  {
  }

  lemma OneMoreType(calls: seq<Call>, types: seq<Type>, t: Type)
    ensures AllOf(calls, types + [t]) == AllOf(calls, types) + Outputs(calls, t)
    ensures var outputs := Outputs(calls, t);
            outputs != [] ==> LastsOf(calls, types + [t]) == LastsOf(calls, types) + [outputs[|outputs| - 1]]
  {
    hide Outputs;
    assert (types + [t])[..|types|] == types;
  }

  lemma OneMoreCollected(implements: Implements, target: Type, searched: seq<Value>, impls: seq<Value>, seen: set<Key>,
                         v: Value)
    requires Collected(implements, target, searched, impls, seen) && v.Val?
    ensures var isNew := implements(v.dyn, target) && UniqueKey(v) !in seen;
            Collected(implements, target, searched + [v], if isNew then impls + [v] else impls,
                      if isNew then seen + {UniqueKey(v)} else seen)
  {
    hide Implementing, Dedup, HasKey;
    var was := Implementing(implements, target, searched);
    OneMoreImplementing(implements, target, searched, v);
    if implements(v.dyn, target) {
      OneMoreDistinct(was, v);
      HasKeyExtends(impls, v);
    } else {
      assert was + [] == was;
    }
  }

  /** When both maps have been searched, what was collected are the implementers. */
  lemma AllMet(implements: Implements, calls: seq<Call>, results: map<Type, Value>, sliceResults: map<Type, seq<Value>>,
               target: Type, types: seq<Type>, types': seq<Type>, impls: seq<Value>, seen: set<Key>)
    requires StoreMatches(results, sliceResults, calls)
    requires Met(results.Keys, {}, types) && Met(sliceResults.Keys, {}, types')
    requires Collected(implements, target, LastsOf(calls, types) + AllOf(calls, types'), impls, seen)
    ensures !StoredValue(calls, Nil) && Implementers(implements, calls, target, impls)
  {
    hide Outputs, LastsOf, AllOf, Dedup, Implementing;
    forall t ensures (t in types <==> Outputs(calls, t) != []) && (t in types' <==> Outputs(calls, t) != []) {
      assert HoldsOutputs(results, sliceResults, t, Outputs(calls, t));
    }
    assert MapOrder(calls, types) && MapOrder(calls, types');
    AllOfHas(calls, types', Nil);
  }

  /** The state captured by the recursive closure of the graph executor. A Go map from
      names to booleans is the set of names mapped to true. */
  class Traversal {
    const composite: Composite
    const edges: Edges
    const componentMap: map<string, Component>
    var executed: set<string>
    var visiting: set<string>
    ghost const base: nat              // length of the trace when the traversal began
    ghost const universe: set<string>  // every name the traversal can meet
    ghost var order: seq<string>       // executed names in the order they finished

    constructor (composite: Composite, edges: Edges)
      requires composite.Valid()
      ensures this.composite == composite && this.edges == edges && base == |composite.trace|
      ensures Consistent() && visiting == {} && order == []
      ensures forall j | 0 <= j < |composite.components| :: composite.components[j].name in universe
    {
      this.composite, this.edges := composite, edges;
      var byName := map[];
      for i := 0 to |composite.components|
        invariant MapsNames(composite.components[..i], byName)
      {
        MapsNamesGrows(composite.components[..i], byName, composite.components[i]);
        assert composite.components[..i + 1] == composite.components[..i] + [composite.components[i]];
        byName := byName[composite.components[i].name := composite.components[i]];
      }
      assert composite.components[..|composite.components|] == composite.components;
      componentMap := byName;
      executed, visiting, base, order := {}, {}, |composite.trace|, [];
      universe := Universe(composite.components, edges);
    }

    ghost function Calls(): seq<Call> reads this, composite
      requires base <= |composite.trace|
    {
      composite.trace[base..]
    }

    ghost predicate Consistent() reads this, composite {
      && composite.Valid()
      && MapsNames(composite.components, componentMap)
      && (forall n, d | d in Deps(edges, n) :: d in universe)
      && base <= |composite.trace|
      && Follows(composite.components, order, Calls())
      && executed == Elements(order)
      && executed !! visiting
    }

    lemma ExecutedAreOrdered()
      requires Consistent()
      ensures forall n :: n in executed <==> n in order
    {
    }

    lemma Finished()
      requires Consistent() && Search(edges, Registered(composite.components)) == Walk(order, None)
      ensures GraphRun(composite.components, edges, composite.trace[base..], None)
    {
      assert RunsAlong(composite.components, Search(edges, Registered(composite.components)), order, Calls(), None);
    }

    /** One iteration of the outer loop: visits a component that has not been executed yet. */
    method VisitRoot(i: nat) returns (err: Option<RunError>)
      requires Consistent() && visiting == {}
      requires i < |composite.components| && composite.components[i].name in universe
      requires WalkAll(edges, {}, [], Registered(composite.components)[..i]) == Walk(order, None)
      modifies this, composite
      ensures old(composite.trace) <= composite.trace && composite.Valid()
      ensures err.None? ==> Consistent() && visiting == {}
      ensures err.None? ==> WalkAll(edges, {}, [], Registered(composite.components)[..i + 1]) == Walk(order, None)
      ensures err.Some? ==> GraphRun(composite.components, edges, composite.trace[base..], err)
    {
      hide Follows, Stops, GraphRun, HistoryOk, StoreMatches, IsName, MapsNames, Search, WalkFrom, WalkAll, Searching,
        AllLead;
      NextRoot(composite.components, edges, i, order);
      SearchStarts(edges, composite.components[i].name);
      err := Visit(composite.components[i].name);
      if err.Some? {
        StopsLater(composite.components, WalkAll(edges, {}, [], Registered(composite.components)[..i + 1]),
                   Search(edges, Registered(composite.components)), order, Calls(), err.value);
        StopIsRun(composite.components, edges, order, Calls(), err.value);
      }
    }

    /** Executes the name after everything it depends on, in the order of a depth-first walk. */
    method Visit(name: string) returns (err: Option<RunError>)
      requires Consistent() && name in universe
      requires Searching(edges, visiting, order) && AllLead(edges, visiting, [name])
      modifies this, composite
      ensures old(composite.trace) <= composite.trace && composite.Valid()
      ensures err.None? ==> Consistent() && visiting == old(visiting)
      ensures err.None? ==> WalkFrom(edges, old(visiting), old(order), name) == Walk(order, None)
      ensures err.Some? ==>
                Stops(composite.components, WalkFrom(edges, old(visiting), old(order), name), order, Calls(), err.value)
      decreases universe - executed - visiting
    {
      hide Follows, Stops, HistoryOk, StoreMatches, IsName, MapsNames, WalkFrom, WalkAll, Searching, AllLead;
      ExecutedAreOrdered();
      ghost var walk := WalkFrom(edges, visiting, order, name);
      WalkFromUnfolds(edges, visiting, order, name);
      if name in executed {
        return None;
      }
      if name in visiting {
        StopsAtCycle(composite.components, order, Calls(), name);
        return Some(Circular(name));
      }
      visiting := visiting + {name};
      var deps := Deps(edges, name);
      SearchDeepens(edges, visiting - {name}, order, name);
      NothingWalked(edges, visiting, order, deps);
      for i := 0 to |deps|
        invariant Consistent() && visiting == old(visiting) + {name} && old(executed) <= executed
        invariant old(composite.trace) <= composite.trace
        invariant old(order) <= order && WalkAll(edges, visiting, old(order), deps[..i]) == Walk(order, None)
      {
        NextName(edges, visiting, old(order), deps, i, order);
        ghost var was := order;
        err := Visit(deps[i]);
        if err.Some? {
          StopsLater(composite.components, WalkAll(edges, old(visiting) + {name}, old(order), deps[..i + 1]),
                     walk, order, Calls(), err.value);
          return;
        }
        assert was <= order;
        ExecutedAreOrdered();
      }
      assert deps[..|deps|] == deps;
      visiting := visiting - {name};
      err := Finish(name, walk);
    }

    /** Executes the component of that name, if there is one, and marks the name executed. */
    method Finish(name: string, ghost walk: Walk) returns (err: Option<RunError>)
      requires Consistent() && name !in order && name !in visiting
      requires walk == Walk(order + [name], None)
      modifies this`executed, this`order, composite
      ensures old(composite.trace) <= composite.trace && composite.Valid()
      ensures err.None? ==> Consistent() && walk == Walk(order, None)
      ensures err.Some? ==> Stops(composite.components, walk, order, Calls(), err.value)
    {
      hide Follows, Stops, HistoryOk, StoreMatches, IsName, WalkFrom, WalkAll;
      ghost var calls, more := Calls(), [];
      if name in componentMap {
        var e;
        ghost var c;
        e, c := composite.Execute(componentMap[name]);
        more := [c];
        assert Calls() == calls + more;
        if e.Some? {
          StopsAtCall(composite.components, walk, order, calls, c, e.value);
          return Some(ExecutionFailed(name, e.value));
        }
      }
      assert Calls() == calls + more;
      assert CallsNext(composite.components, name, more);
      FollowsGrows(composite.components, order, calls, name, more);
      executed := executed + {name};
      order := order + [name];
      err := None;
    }
  }

  ghost predicate MapsNames(comps: seq<Component>, byName: map<string, Component>) {
    && (forall n :: n in byName <==> IsName(comps, n))
    && forall n | n in byName :: byName[n].name == n && byName[n] in comps
  }

  // ---------------------------------------------------------------- bookkeeping lemmas

  ghost predicate EdgesOf(comps: seq<Component>, edges: Edges, c: Component) {
    c.name in edges && edges[c.name] == DependenciesFor(comps, c.name, c.consumes)
  }

  lemma NoDependencies(comps: seq<Component>, consumer: string)
    ensures DependenciesFor(comps, consumer, []) == []
  {
  }

  lemma MoreDependencies(comps: seq<Component>, c: Component, k: nat)
    requires k < |c.consumes|
    ensures DependenciesFor(comps, c.name, c.consumes[..k + 1])
         == DependenciesFor(comps, c.name, c.consumes[..k]) + Producers(comps, c.name, Wanted(c.consumes[k]))
  {
    assert c.consumes[..k + 1][..k] == c.consumes[..k];
  }

  lemma InferredEdgesAre(comps: seq<Component>, edges: Edges)
    requires DistinctNames(comps)
    requires forall n | n in edges :: IsName(comps, n)
    requires forall j | 0 <= j < |comps| :: EdgesOf(comps, edges, comps[j])
    ensures edges == InferredEdges(comps)
  {
  }

  lemma MapsNamesGrows(comps: seq<Component>, byName: map<string, Component>, c: Component)
    requires MapsNames(comps, byName)
    ensures MapsNames(comps + [c], byName[c.name := c])
  {
    var longer := comps + [c];
    forall n ensures IsName(longer, n) <==> IsName(comps, n) || n == c.name {
      assert longer[|comps|] == c;
      if IsName(comps, n) {
        var i :| 0 <= i < |comps| && comps[i].name == n;
        assert longer[i].name == n;
      }
    }
  }

  // ---------------------------------------------------------------- the walk behind a traversal

  lemma SearchStarts(edges: Edges, n: string)
    ensures AllLead(edges, {}, [n])
  {
  }

  lemma SearchDeepens(edges: Edges, visiting: set<string>, done: seq<string>, n: string)
    requires Searching(edges, visiting, done) && AllLead(edges, visiting, [n]) && n !in done
    ensures Searching(edges, visiting + {n}, done) && AllLead(edges, visiting + {n}, Deps(edges, n))
  {
    hide LeadsTo, Topological;
    assert n in [n];
    VisitingLeads(edges, visiting, n);
  }

  lemma NothingWalked(edges: Edges, visiting: set<string>, done: seq<string>, names: seq<string>)
    ensures WalkAll(edges, visiting, done, names[..0]) == Walk(done, None)
  {
  }

  /** One more name of a list that a walk finishes one after the other. */
  lemma NextName(edges: Edges, visiting: set<string>, done: seq<string>, names: seq<string>, i: nat, order: seq<string>)
    requires Searching(edges, visiting, done) && AllLead(edges, visiting, names) && i < |names|
    requires WalkAll(edges, visiting, done, names[..i]) == Walk(order, None)
    ensures done <= order && Searching(edges, visiting, order) && AllLead(edges, visiting, [names[i]])
    ensures WalkAll(edges, visiting, done, names[..i + 1]) == WalkFrom(edges, visiting, order, names[i])
    ensures var next, all := WalkAll(edges, visiting, done, names[..i + 1]), WalkAll(edges, visiting, done, names);
            order <= next.order <= all.order && (next.cycle.Some? ==> all == next)
  {
    var front := names[..i];
    assert names[..i + 1][..i] == front && names[i] in names;
    assert forall m | m in front :: m in names;
    assert AllLead(edges, visiting, front);
    WalkContinues(edges, visiting, done, names, i + 1);
    WalkAllIsWalked(edges, visiting, done, front);
    WalkFromIsWalked(edges, visiting, order, names[i]);
    hide LeadsTo, Searching;
  }

  /** The same for the registered names. */
  lemma NextRoot(comps: seq<Component>, edges: Edges, i: nat, order: seq<string>)
    requires i < |comps| && WalkAll(edges, {}, [], Registered(comps)[..i]) == Walk(order, None)
    ensures Searching(edges, {}, order)
    ensures WalkAll(edges, {}, [], Registered(comps)[..i + 1]) == WalkFrom(edges, {}, order, comps[i].name)
    ensures comps[i].name in order ==> WalkFrom(edges, {}, order, comps[i].name) == Walk(order, None)
    ensures var next, all := WalkAll(edges, {}, [], Registered(comps)[..i + 1]), Search(edges, Registered(comps));
            next.order <= all.order && (next.cycle.Some? ==> all == next)
  {
    NothingSearched(edges);
    hide WalkAll, Searching;
    NextName(edges, {}, [], Registered(comps), i, order);
  }

  lemma AllRoots(comps: seq<Component>, edges: Edges)
    ensures WalkAll(edges, {}, [], Registered(comps)[..0]) == Walk([], None)
    ensures WalkAll(edges, {}, [], Registered(comps)[..|comps|]) == Search(edges, Registered(comps))
  {
    assert Registered(comps)[..|comps|] == Registered(comps);
  }

  lemma WalkFromUnfolds(edges: Edges, visiting: set<string>, done: seq<string>, n: string)
    ensures n in done ==> WalkFrom(edges, visiting, done, n) == Walk(done, None)
    ensures n !in done && n in visiting ==> WalkFrom(edges, visiting, done, n) == Walk(done, Some(n))
    ensures n !in done && n !in visiting ==>
              var below := WalkAll(edges, visiting + {n}, done, Deps(edges, n));
              WalkFrom(edges, visiting, done, n) == if below.cycle.Some? then below else Walk(below.order + [n], None)
  {
  }

  lemma HistoryGrows(executor: Executor, implements: Implements, calls: seq<Call>, c: Call)
    requires HistoryOk(executor, implements, calls) && CallOk(executor, implements, calls, c)
    ensures HistoryOk(executor, implements, calls + [c])
  {
    assert (calls + [c])[..|calls|] == calls;
  }

  lemma OutputsGrow(calls: seq<Call>, c: Call, t: Type)
    ensures Outputs(calls + [c], t)
         == Outputs(calls, t) + if Stores(c) && c.comp.produces.value == t then [c.outcome.value] else []
  {
    assert (calls + [c])[..|calls|] == calls;
  }

  lemma UnstoredCall(executor: Executor, implements: Implements,
                     results: map<Type, Value>, sliceResults: map<Type, seq<Value>>, calls: seq<Call>, c: Call)
    requires StoreMatches(results, sliceResults, calls) && !Stores(c)
    requires HistoryOk(executor, implements, calls) && CallOk(executor, implements, calls, c)
    ensures StoreMatches(results, sliceResults, calls + [c]) && HistoryOk(executor, implements, calls + [c])
  {
    HistoryGrows(executor, implements, calls, c);
    forall t ensures HoldsOutputs(results, sliceResults, t, Outputs(calls + [c], t)) {
      assert HoldsOutputs(results, sliceResults, t, Outputs(calls, t));
      OutputsGrow(calls, c, t);
    }
  }

  lemma HoldsOneMore(results: map<Type, Value>, sliceResults: map<Type, seq<Value>>, u: Type, outputs: seq<Value>,
                     t: Type, v: Value)
    requires HoldsOutputs(results, sliceResults, u, outputs)
    ensures HoldsOutputs(results[t := v], Appended(sliceResults, t, v), u, outputs + if u == t then [v] else [])
  {
    assert outputs + [] == outputs;
  }

  lemma StoredCall(executor: Executor, implements: Implements,
                   results: map<Type, Value>, sliceResults: map<Type, seq<Value>>, calls: seq<Call>, c: Call)
    requires StoreMatches(results, sliceResults, calls) && Stores(c)
    requires HistoryOk(executor, implements, calls) && CallOk(executor, implements, calls, c)
    ensures var t, v := c.comp.produces.value, c.outcome.value;
            StoreMatches(results[t := v], Appended(sliceResults, t, v), calls + [c])
    ensures HistoryOk(executor, implements, calls + [c])
  {
    HistoryGrows(executor, implements, calls, c);
    var t, v := c.comp.produces.value, c.outcome.value;
    forall u ensures HoldsOutputs(results[t := v], Appended(sliceResults, t, v), u, Outputs(calls + [c], u)) {
      assert HoldsOutputs(results, sliceResults, u, Outputs(calls, u));
      OutputsGrow(calls, c, u);
      HoldsOneMore(results, sliceResults, u, Outputs(calls, u), t, v);
    }
  }

  lemma StopsAtCall(comps: seq<Component>, w: Walk, order: seq<string>, calls: seq<Call>, c: Call, cause: ExecError)
    requires Follows(comps, order, calls) && order + [c.comp.name] <= w.order
    requires c.comp in comps && c.outcome == Failed(cause)
    ensures Stops(comps, w, order, calls + [c], ExecutionFailed(c.comp.name, cause))
  {
    assert (calls + [c])[..|calls|] == calls;
  }

  lemma StopsAtCycle(comps: seq<Component>, order: seq<string>, calls: seq<Call>, n: string)
    requires Follows(comps, order, calls)
    ensures Stops(comps, Walk(order, Some(n)), order, calls, Circular(n))
  {
  }

  /** A run that stops along a walk stops along every longer one. */
  lemma StopsLater(comps: seq<Component>, w: Walk, longer: Walk, order: seq<string>, calls: seq<Call>, err: RunError)
    requires Stops(comps, w, order, calls, err) && w.order <= longer.order && (w.cycle.Some? ==> longer == w)
    ensures Stops(comps, longer, order, calls, err)
  {
    hide Follows;
  }

  lemma StopIsRun(comps: seq<Component>, edges: Edges, order: seq<string>, calls: seq<Call>, err: RunError)
    requires Stops(comps, Search(edges, Registered(comps)), order, calls, err)
    ensures GraphRun(comps, edges, calls, Some(err))
  {
    hide Stops, Search;
    assert RunsAlong(comps, Search(edges, Registered(comps)), order, calls, Some(err));
  }

  lemma KnownGrows(comps: seq<Component>, order: seq<string>, n: string)
    ensures Known(comps, order + [n]) == Known(comps, order) + if IsName(comps, n) then [n] else []
  {
    hide IsName;
    assert (order + [n])[..|order|] == order;
  }

  lemma NamesGrow(calls: seq<Call>, more: seq<Call>)
    ensures Names(calls + more) == Names(calls) + Names(more)
  {
  }

  lemma SuccessGrows(comps: seq<Component>, calls: seq<Call>, more: seq<Call>)
    requires CallsSucceed(comps, calls) && CallsSucceed(comps, more)
    ensures CallsSucceed(comps, calls + more)
  {
  }

  /** The call of a name that is the next of the order, or none if it is not registered. */
  ghost predicate CallsNext(comps: seq<Component>, n: string, more: seq<Call>) {
    CallsSucceed(comps, more) && Names(more) == if IsName(comps, n) then [n] else []
  }

  lemma FollowsGrows(comps: seq<Component>, order: seq<string>, calls: seq<Call>, n: string, more: seq<Call>)
    requires Follows(comps, order, calls) && CallsNext(comps, n, more)
    ensures Follows(comps, order + [n], calls + more)
  {
    hide IsName, CallsSucceed, Known, Names;
    KnownGrows(comps, order, n);
    NamesGrow(calls, more);
    SuccessGrows(comps, calls, more);
  }

  lemma DedupKeepsNil(vs: seq<Value>)
    ensures Nil in Dedup(vs) <==> Nil in vs
  {
    if vs != [] {
      var kept := Dedup(vs[..|vs| - 1]);
      DedupKeepsNil(vs[..|vs| - 1]);
    }
  }
}
