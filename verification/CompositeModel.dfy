/** The data of the composite scheduler and the meaning of its runs: which edges a set
    of components induces, what one execution of a component may do given the calls made
    before it, and what a whole run of the scheduler looks like from the outside. */
module CompositeModel {
  import opened Options
  import opened Graph
  import opened DepthFirst

  /** A reflected type. Two slice types are the same only when their ids agree too, so a
      named slice type differs from the plain slice of the same element. */
  datatype Type = Concrete(id: nat) | Slice(id: nat, elem: Type) | Interface(id: nat)

  /** A value held in an `any`: nil, or a dynamic type with what formatting prints for it
      (the address for a pointer) and its remaining identity. */
  datatype Value = Nil | Val(dyn: Type, rendering: string, payload: nat)

  datatype Key = NilKey | Key(dyn: Type, rendering: string)

  function UniqueKey(v: Value): Key {
    if v.Nil? then NilKey else Key(v.dyn, v.rendering)
  }

  datatype Arg = Single(value: Value) | Many(values: seq<Value>)

  /** The interface of errors. */
  const ERROR := Interface(2)

  /** First result of an Apply method (Nil when it has none), or the error that one of its
      results was. */
  datatype ApplyResult = Success(value: Value) | Error(code: nat)

  datatype Component = Component(
    name: string, consumes: seq<Type>, produces: Option<Type>, apply: seq<Arg> -> ApplyResult)

  datatype ExecError =
    | MissingDependency(t: Type)
    | NilDereference(t: Type)   // the run panics on a stored nil
    | ApplyFailed(code: nat)
    | Refused(code: nat)        // an error of a substituted executor

  datatype Outcome = Returned(value: Value) | Failed(error: ExecError) | Acknowledged

  /** One call of the executor. */
  datatype Call = Call(comp: Component, args: seq<Arg>, outcome: Outcome)

  /** The composite itself, or a substitute whose answer may depend on all earlier calls. */
  datatype Executor = Self | Substitute(respond: (seq<string>, string) -> Option<nat>)

  datatype RunError = Circular(name: string) | ExecutionFailed(name: string, cause: ExecError)

  datatype CompositeError = MultipleProducers(consumer: string, wanted: Type) | RunFailed(error: RunError)

  ghost predicate DistinctNames(comps: seq<Component>) {
    forall i, j | 0 <= i < j < |comps| :: comps[i].name != comps[j].name
  }

  ghost predicate IsName(comps: seq<Component>, n: string) {
    exists i :: 0 <= i < |comps| && comps[i].name == n
  }

  // ---------------------------------------------------------------- inferred edges

  /** The type a producer must have to feed a parameter: the element type of a slice. */
  function Wanted(t: Type): Type {
    if t.Slice? then t.elem else t
  }

  /** Names of the components other than `consumer` that produce exactly t, in registration order. */
  function Producers(comps: seq<Component>, consumer: string, t: Type): seq<string> {
    if comps == [] then []
    else
      var p := comps[|comps| - 1];
      Producers(comps[..|comps| - 1], consumer, t)
      + if p.name != consumer && p.produces == Some(t) then [p.name] else []
  }

  function DependenciesFor(comps: seq<Component>, consumer: string, consumes: seq<Type>): seq<string> {
    if consumes == [] then []
    else
      DependenciesFor(comps, consumer, consumes[..|consumes| - 1])
      + Producers(comps, consumer, Wanted(consumes[|consumes| - 1]))
  }

  /** The graph the scheduler runs on. */
  ghost function InferredEdges(comps: seq<Component>): Edges
    requires DistinctNames(comps)
  {
    map i | 0 <= i < |comps| :: comps[i].name := DependenciesFor(comps, comps[i].name, comps[i].consumes)
  }

  ghost predicate Ambiguous(comps: seq<Component>, c: Component, t: Type) {
    c in comps && t in c.consumes && !t.Slice? && |Producers(comps, c.name, t)| > 1
  }

  // ---------------------------------------------------------------- the store, as a function of the calls

  ghost predicate Stores(c: Call) {
    c.outcome.Returned? && c.comp.produces.Some?
  }

  /** Everything stored under t so far, oldest first. */
  ghost function Outputs(calls: seq<Call>, t: Type): seq<Value> {
    if calls == [] then []
    else
      var c := calls[|calls| - 1];
      Outputs(calls[..|calls| - 1], t)
      + if Stores(c) && c.comp.produces.value == t then [c.outcome.value] else []
  }

  /** The two result maps of the composite hold exactly the last output and all outputs of each type. */
  ghost predicate StoreMatches(results: map<Type, Value>, sliceResults: map<Type, seq<Value>>, calls: seq<Call>) {
    forall t :: HoldsOutputs(results, sliceResults, t, Outputs(calls, t))
  }

  ghost predicate HoldsOutputs(results: map<Type, Value>, sliceResults: map<Type, seq<Value>>, t: Type,
                               outputs: seq<Value>) {
    if outputs == [] then t !in results && t !in sliceResults
    else
      && t in results && results[t] == outputs[|outputs| - 1]
      && t in sliceResults && sliceResults[t] == outputs
  }

  ghost predicate StoredValue(calls: seq<Call>, v: Value) {
    exists t :: v in Outputs(calls, t)
  }

  ghost predicate HasKey(vs: seq<Value>, k: Key) {
    exists i :: 0 <= i < |vs| && UniqueKey(vs[i]) == k
  }

  /** The first value of each key. */
  ghost function Dedup(vs: seq<Value>): seq<Value> {
    if vs == [] then []
    else
      var kept := Dedup(vs[..|vs| - 1]);
      var v := vs[|vs| - 1];
      if HasKey(kept, UniqueKey(v)) then kept else kept + [v]
  }

  ghost predicate DistinctKeys(vs: seq<Value>) {
    forall i, j | 0 <= i < j < |vs| :: UniqueKey(vs[i]) != UniqueKey(vs[j])
  }

  type Implements = (Type, Type) -> bool

  ghost predicate Satisfies(implements: Implements, v: Value, iface: Type) {
    v.Val? && implements(v.dyn, iface)
  }

  ghost function Implementing(implements: Implements, iface: Type, vs: seq<Value>): seq<Value> {
    if vs == [] then []
    else
      var v := vs[|vs| - 1];
      Implementing(implements, iface, vs[..|vs| - 1]) + if Satisfies(implements, v, iface) then [v] else []
  }

  /** An order in which the types of stored values may be met in a map. */
  ghost predicate MapOrder(calls: seq<Call>, types: seq<Type>) {
    Distinct(types) && forall t :: t in types <==> Outputs(calls, t) != []
  }

  /** The last value stored under each type. */
  ghost function LastsOf(calls: seq<Call>, types: seq<Type>): seq<Value> {
    if types == [] then []
    else
      var outputs := Outputs(calls, types[|types| - 1]);
      LastsOf(calls, types[..|types| - 1]) + if outputs == [] then [] else [outputs[|outputs| - 1]]
  }

  /** All values stored under each type. */
  ghost function AllOf(calls: seq<Call>, types: seq<Type>): seq<Value> {
    if types == [] then [] else AllOf(calls, types[..|types| - 1]) + Outputs(calls, types[|types| - 1])
  }

  /** What a search for implementers of iface finds: in the last and then in all stored values,
      each in the order of some map iteration, the first implementer of every key. */
  ghost predicate Implementers(implements: Implements, calls: seq<Call>, iface: Type, vs: seq<Value>) {
    exists types, types' :: MapOrder(calls, types) && MapOrder(calls, types')
      && vs == Dedup(Implementing(implements, iface, LastsOf(calls, types) + AllOf(calls, types')))
  }

  /** The first implementer that a search finds. */
  ghost predicate FirstImplementer(implements: Implements, calls: seq<Call>, iface: Type, v: Value) {
    exists vs :: Implementers(implements, calls, iface, vs) && vs != [] && vs[0] == v
  }

  /** What a parameter of type t may receive after the given calls. The order of Go's map
      iteration is left open. */
  ghost predicate Provided(implements: Implements, before: seq<Call>, t: Type, arg: Arg) {
    match t
    case Concrete(_) =>
      && var outputs := Outputs(before, t);
      && outputs != []
      && arg == Single(outputs[|outputs| - 1])
    case Interface(_) =>
      && arg.Single?
      && !StoredValue(before, Nil)
      && FirstImplementer(implements, before, t, arg.value)
    case Slice(_, elem) =>
      && arg.Many?
      && if elem.Interface? then !StoredValue(before, Nil) && Implementers(implements, before, elem, arg.values)
         else Nil !in Outputs(before, elem) && arg.values == Dedup(Outputs(before, elem))
  }

  /** Why a parameter of type t cannot be provided. */
  ghost predicate Unavailable(implements: Implements, before: seq<Call>, t: Type, e: ExecError) {
    match t
    case Concrete(_) =>
      e == MissingDependency(t) && Outputs(before, t) == []
    case Interface(_) =>
      || (e == NilDereference(t) && StoredValue(before, Nil))
      || (e == MissingDependency(t) && forall v | StoredValue(before, v) :: v.Val? && !Satisfies(implements, v, t))
    case Slice(_, elem) =>
      && e == NilDereference(elem)
      && if elem.Interface? then StoredValue(before, Nil) else Nil in Outputs(before, elem)
  }

  ghost predicate ArgsProvided(implements: Implements, before: seq<Call>, consumes: seq<Type>, args: seq<Arg>) {
    && |args| <= |consumes|
    && forall i | 0 <= i < |args| :: Provided(implements, before, consumes[i], args[i])
  }

  /** What one call of the executor may do after the given calls. */
  ghost predicate CallOk(executor: Executor, implements: Implements, before: seq<Call>, c: Call) {
    match executor
    case Substitute(respond) =>
      var answer := respond(Names(before), c.comp.name);
      c.outcome == if answer.Some? then Failed(Refused(answer.value)) else Acknowledged
    case Self =>
      && ArgsProvided(implements, before, c.comp.consumes, c.args)
      && if |c.args| < |c.comp.consumes| then
           c.outcome.Failed? && Unavailable(implements, before, c.comp.consumes[|c.args|], c.outcome.error)
         else match c.comp.apply(c.args)
           case Success(v) => c.outcome == Returned(v)
           case Error(code) => c.outcome == Failed(ApplyFailed(code))
  }

  ghost predicate HistoryOk(executor: Executor, implements: Implements, calls: seq<Call>) {
    calls != [] ==>
      && HistoryOk(executor, implements, calls[..|calls| - 1])
      && CallOk(executor, implements, calls[..|calls| - 1], calls[|calls| - 1])
  }

  ghost function Names(calls: seq<Call>): seq<string> {
    seq(|calls|, i requires 0 <= i < |calls| => calls[i].comp.name)
  }

  // ---------------------------------------------------------------- scheduled runs

  /** The names of an order that stand for registered components. */
  ghost function Known(comps: seq<Component>, order: seq<string>): seq<string> {
    if order == [] then []
    else
      var n := order[|order| - 1];
      Known(comps, order[..|order| - 1]) + if IsName(comps, n) then [n] else []
  }

  ghost predicate CallsSucceed(comps: seq<Component>, calls: seq<Call>) {
    forall c | c in calls :: c.comp in comps && !c.outcome.Failed?
  }

  /** The registered names of `order` were executed, in that order, all successfully. */
  ghost predicate Follows(comps: seq<Component>, order: seq<string>, calls: seq<Call>) {
    CallsSucceed(comps, calls) && Names(calls) == Known(comps, order)
  }

  /** How a run along a walk leaves off when it fails. */
  ghost predicate Stops(comps: seq<Component>, w: Walk, order: seq<string>, calls: seq<Call>, err: RunError) {
    match err
    case Circular(n) =>
      w == Walk(order, Some(n)) && Follows(comps, order, calls)
    case ExecutionFailed(n, cause) =>
      && calls != []
      && order + [n] <= w.order && Follows(comps, order, calls[..|calls| - 1])
      && var last := calls[|calls| - 1];
      && last.comp in comps && last.comp.name == n && last.outcome == Failed(cause)
  }

  ghost predicate RunsAlong(comps: seq<Component>, w: Walk, order: seq<string>, calls: seq<Call>,
                            err: Option<RunError>) {
    match err
    case None => w == Walk(order, None) && Follows(comps, order, calls)
    case Some(e) => Stops(comps, w, order, calls, e)
  }

  /** Names of the components, in registration order. */
  function Registered(comps: seq<Component>): (names: seq<string>)
    ensures |names| == |comps|
  {
    seq(|comps|, i requires 0 <= i < |comps| => comps[i].name)
  }

  /** A run of the graph executor: it calls the components in the order in which the depth-first
      search from the registered names finishes them, up to the first failure. */
  ghost predicate GraphRun(comps: seq<Component>, edges: Edges, calls: seq<Call>, err: Option<RunError>) {
    exists order :: RunsAlong(comps, Search(edges, Registered(comps)), order, calls, err)
  }

  /** The first parameter that several others produce, in registration order. */
  ghost predicate FirstAmbiguous(comps: seq<Component>, consumer: string, t: Type) {
    exists i, k :: AmbiguousAt(comps, i, k) && comps[i].name == consumer && comps[i].consumes[k] == t
  }

  ghost predicate AmbiguousAt(comps: seq<Component>, i: int, k: int) {
    && 0 <= i < |comps| && 0 <= k < |comps[i].consumes| && Ambiguous(comps, comps[i], comps[i].consumes[k])
    && (forall j, t | 0 <= j < i :: !Ambiguous(comps, comps[j], t))
    && forall l | 0 <= l < k :: !Ambiguous(comps, comps[i], comps[i].consumes[l])
  }

  /** A run of the whole composite. */
  ghost predicate CompositeRun(comps: seq<Component>, calls: seq<Call>, err: Option<CompositeError>)
    requires DistinctNames(comps)
  {
    if exists c, t :: Ambiguous(comps, c, t) then
      && calls == []
      && err.Some? && err.value.MultipleProducers?
      && FirstAmbiguous(comps, err.value.consumer, err.value.wanted)
    else
      && (err.Some? ==> err.value.RunFailed?)
      && GraphRun(comps, InferredEdges(comps), calls, if err.None? then None else Some(err.value.error))
  }

  /** A run of a composite that executes its components itself and had no results before. */
  ghost predicate FreshRun(comps: seq<Component>, implements: Implements, calls: seq<Call>,
                           err: Option<CompositeError>) {
    && DistinctNames(comps)
    && CompositeRun(comps, calls, err)
    && HistoryOk(Self, implements, calls)
  }
}
