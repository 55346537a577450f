/** Registration of constructors and the application of the resulting composite. Names
    are made unique by the position of the constructor, which is what the scheduler's maps
    keyed by name rely on. */
module CompositeRegistry {
  import opened Options
  import opened Text
  import opened CompositeModel
  import opened CompositeScheduler
  import opened CompositeValues
  import opened CompositeSuccess

  /** A resolved constructor, or the reason it cannot be registered: nil, not callable, with
      required arguments, or without an Apply method. */
  datatype Constructor =
    | Constructor(title: string, consumes: seq<Type>, produces: Option<Type>, apply: seq<Arg> -> ApplyResult)
    | Unusable(reason: string)

  datatype SetError = Unregistered(reasons: seq<string>) | Starting(cause: CompositeError)

  function IndexedName(index: nat, title: string): string {
    Decimal(index) + "::" + title
  }

  function AutoComponent(index: nat, c: Constructor): Component requires c.Constructor? {
    Component(IndexedName(index, c.title), c.consumes, c.produces, c.apply)
  }

  /** Whatever the titles, even ones that contain "::", names of different positions differ. */
  lemma IndexedNamesDiffer(i: nat, j: nat, s: string, t: string)
    requires IndexedName(i, s) == IndexedName(j, t)
    ensures i == j && s == t
  {
    DecimalDigits(i);
    DecimalDigits(j);
    var a, b, name := Decimal(i), Decimal(j), IndexedName(i, s);
    assert name[|a|] == ':' && name[|b|] == ':';
    assert forall k | 0 <= k < |a| :: name[k] == a[k] && a[k] in a;
    assert forall k | 0 <= k < |b| :: name[k] == b[k] && b[k] in b;
    assert |a| == |b| && a == name[..|a|] == b;
    DecimalInjective(i, j);
    assert s == name[|a| + 2..] == t;
  }

  predicate AllUsable(ctors: seq<Constructor>) {
    forall i | 0 <= i < |ctors| :: ctors[i].Constructor?
  }

  /** The components that usable constructors are registered as. */
  function Components(ctors: seq<Constructor>): (comps: seq<Component>)
    requires AllUsable(ctors)
    ensures |comps| == |ctors| && forall i | 0 <= i < |ctors| :: comps[i] == AutoComponent(i, ctors[i])
  {
    seq(|ctors|, i requires 0 <= i < |ctors| => AutoComponent(i, ctors[i]))
  }

  lemma ComponentsHaveDistinctNames(ctors: seq<Constructor>)
    requires AllUsable(ctors)
    ensures DistinctNames(Components(ctors))
  {
    hide IndexedName;
    var comps := Components(ctors);
    forall i, j | 0 <= i < j < |comps| ensures comps[i].name != comps[j].name {
      if comps[i].name == comps[j].name {
        IndexedNamesDiffer(i, j, ctors[i].title, ctors[j].title);
      }
    }
  }

  /** The reasons of the constructors at those positions, which are all that are unusable, in order. */
  ghost predicate ListsReasons(ctors: seq<Constructor>, positions: seq<nat>, reasons: seq<string>) {
    && |reasons| == |positions| && (forall k, l | 0 <= k < l < |positions| :: positions[k] < positions[l])
    && (forall k | 0 <= k < |positions| ::
          positions[k] < |ctors| && ctors[positions[k]] == Unusable(reasons[k]))
    && forall i | 0 <= i < |ctors| && ctors[i].Unusable? :: i in positions
  }

  /** Registers every constructor, or reports all that cannot be registered. */
  method RegisterComponents(ctors: seq<Constructor>)
    returns (components: seq<Component>, errs: seq<string>, ghost refused: seq<nat>)
    ensures ListsReasons(ctors, refused, errs)
    ensures errs == [] <==> forall c | c in ctors :: c.Constructor?
    ensures errs == [] ==>
              && |components| == |ctors|
              && forall i | 0 <= i < |ctors| :: components[i] == AutoComponent(i, ctors[i])
    ensures DistinctNames(components)
  {
    hide IndexedName, AutoComponent, RegisteredFrom, ListsReasons;
    NoReasons(ctors);
    components, errs, refused := [], [], [];
    ghost var positions: seq<nat> := [];
    NoneRegistered(ctors);
    for i := 0 to |ctors|
      invariant errs == [] <==> forall k | 0 <= k < i :: ctors[k].Constructor?
      invariant RegisteredFrom(ctors, components, positions, i) && (errs == [] ==> |components| == i)
      invariant ListsReasons(ctors[..i], refused, errs)
    {
      NextConstructor(ctors, refused, errs, i);
      if ctors[i].Constructor? {
        OneMoreRegistered(ctors, components, positions, i);
        components, positions := components + [AutoComponent(i, ctors[i])], positions + [i];
      } else {
        OneMoreRefused(ctors, components, positions, i);
        errs, refused := errs + [ctors[i].reason], refused + [i];
      }
    }
    assert ctors[..|ctors|] == ctors;
    RegisteredNamesDiffer(ctors, components, positions);
    if errs == [] {
      AllRegistered(ctors, components, positions);
    }
  }

  /** The components come from increasing positions before i. */
  ghost predicate RegisteredFrom(ctors: seq<Constructor>, components: seq<Component>, positions: seq<nat>, i: nat) {
    && |positions| == |components|
    && (forall k | 0 <= k < |positions| :: k <= positions[k] < i)
    && (forall k, l | 0 <= k < l < |positions| :: positions[k] < positions[l])
    && forall k | 0 <= k < |positions| :: FromConstructor(ctors, components[k], positions[k])
  }

  ghost predicate FromConstructor(ctors: seq<Constructor>, c: Component, i: nat) {
    i < |ctors| && ctors[i].Constructor? && c == AutoComponent(i, ctors[i])
  }

  lemma NoReasons(ctors: seq<Constructor>)
    ensures ListsReasons(ctors[..0], [], [])
  {
  }

  lemma NextConstructor(ctors: seq<Constructor>, positions: seq<nat>, reasons: seq<string>, i: nat)
    requires i < |ctors| && ListsReasons(ctors[..i], positions, reasons)
    ensures match ctors[i]
            case Unusable(reason) => ListsReasons(ctors[..i + 1], positions + [i], reasons + [reason])
            case _ => ListsReasons(ctors[..i + 1], positions, reasons)
  {
    var front, next := ctors[..i], ctors[..i + 1];
    assert next == front + [ctors[i]];
    forall k | 0 <= k < |positions| ensures positions[k] < i && next[positions[k]] == Unusable(reasons[k]) {
      assert front[positions[k]] == Unusable(reasons[k]);
    }
    forall k | 0 <= k < |next| && next[k].Unusable? ensures k in positions || k == i {
      assert k < i ==> front[k] == next[k];
    }
  }

  /** The constructors of the framework are no reason to refuse. */
  lemma ReasonsOfOthers(front: seq<Constructor>, ctors: seq<Constructor>, positions: seq<nat>, reasons: seq<string>)
    returns (own: seq<nat>)
    requires ListsReasons(front + ctors, positions, reasons) && AllUsable(front)
    ensures ListsReasons(ctors, own, reasons)
  {
    var n := |front|;
    PositionsBehind(front, ctors, positions, reasons);
    own := seq(|positions|, k requires 0 <= k < |positions| => positions[k] - n);
    hide AllUsable;
    forall i | 0 <= i < |ctors| && ctors[i].Unusable? ensures i in own {
      var k := PositionOf(front, ctors, positions, reasons, i);
      assert own[k] == i;
    }
  }

  lemma PositionsBehind(front: seq<Constructor>, ctors: seq<Constructor>, positions: seq<nat>, reasons: seq<string>)
    requires ListsReasons(front + ctors, positions, reasons) && AllUsable(front)
    ensures |reasons| == |positions|
    ensures forall k | 0 <= k < |positions| ::
              && |front| <= positions[k] < |front| + |ctors|
              && ctors[positions[k] - |front|] == Unusable(reasons[k])
  {
    var all := front + ctors;
    forall k | 0 <= k < |positions|
      ensures |front| <= positions[k] < |all| && ctors[positions[k] - |front|] == Unusable(reasons[k])
    {
      assert all[positions[k]] == Unusable(reasons[k]);
    }
  }

  lemma PositionOf(front: seq<Constructor>, ctors: seq<Constructor>, positions: seq<nat>, reasons: seq<string>, i: nat)
    returns (k: nat)
    requires ListsReasons(front + ctors, positions, reasons) && i < |ctors| && ctors[i].Unusable?
    ensures k < |positions| && positions[k] == |front| + i
  {
    assert (front + ctors)[|front| + i] == ctors[i];
    k :| k < |positions| && positions[k] == |front| + i;
  }

  lemma NoneRegistered(ctors: seq<Constructor>)
    ensures RegisteredFrom(ctors, [], [], 0)
  {
  }

  lemma OneMoreRegistered(ctors: seq<Constructor>, components: seq<Component>, positions: seq<nat>, i: nat)
    requires RegisteredFrom(ctors, components, positions, i) && i < |ctors| && ctors[i].Constructor?
    ensures RegisteredFrom(ctors, components + [AutoComponent(i, ctors[i])], positions + [i], i + 1)
  {
    hide FromConstructor;
    PositionsFit(ctors, components, positions, i);
    assert FromConstructor(ctors, AutoComponent(i, ctors[i]), i) by { ItsConstructor(ctors, i); }
  }

  lemma ItsConstructor(ctors: seq<Constructor>, i: nat)
    requires i < |ctors| && ctors[i].Constructor?
    ensures FromConstructor(ctors, AutoComponent(i, ctors[i]), i)
  {
  }

  lemma PositionsFit(ctors: seq<Constructor>, components: seq<Component>, positions: seq<nat>, i: nat)
    requires RegisteredFrom(ctors, components, positions, i)
    ensures |positions| <= i
  {
    hide FromConstructor;
    if positions != [] {
      assert |positions| - 1 <= positions[|positions| - 1] < i;
    }
  }

  lemma OneMoreRefused(ctors: seq<Constructor>, components: seq<Component>, positions: seq<nat>, i: nat)
    requires RegisteredFrom(ctors, components, positions, i)
    ensures RegisteredFrom(ctors, components, positions, i + 1)
  {
    hide FromConstructor;
  }

  lemma {:induction false} PositionsAreAll(positions: seq<nat>, n: nat, k: nat)
    requires |positions| == n && k < n
    requires forall k | 0 <= k < |positions| :: k <= positions[k] < n
    requires forall k, l | 0 <= k < l < |positions| :: positions[k] < positions[l]
    ensures positions[k] == k
    decreases n - k
  {
    if k < n - 1 {
      PositionsAreAll(positions, n, k + 1);
    }
  }

  lemma AllRegistered(ctors: seq<Constructor>, components: seq<Component>, positions: seq<nat>)
    requires RegisteredFrom(ctors, components, positions, |ctors|) && |components| == |ctors|
    ensures forall i | 0 <= i < |ctors| :: FromConstructor(ctors, components[i], i)
  {
    hide FromConstructor;
    forall i | 0 <= i < |ctors| ensures FromConstructor(ctors, components[i], i) {
      PositionsAreAll(positions, |ctors|, i);
    }
  }

  /** Components registered from different positions have different names. */
  lemma RegisteredNamesDiffer(ctors: seq<Constructor>, components: seq<Component>, positions: seq<nat>)
    requires RegisteredFrom(ctors, components, positions, |ctors|)
    ensures DistinctNames(components)
  {
    hide IndexedName;
    forall k, l | 0 <= k < l < |components| ensures components[k].name != components[l].name {
      if components[k].name == components[l].name {
        assert FromConstructor(ctors, components[k], positions[k])
          && FromConstructor(ctors, components[l], positions[l]);
        IndexedNamesDiffer(positions[k], positions[l], ctors[positions[k]].title, ctors[positions[l]].title);
      }
    }
  }

  // ---------------------------------------------------------------- the whole composite

  /** The types of the context and of the chart factory, two interfaces. */
  const CONTEXT := Interface(0)
  const CHART_FACTORY := Interface(1)

  /** The two constructors that the framework registers before all others: one provides the
      context, the other takes it and provides the chart factory. */
  function Builtins(context: Value, factory: Value): (r: seq<Constructor>)
    ensures |r| == 2 && AllUsable(r)
  {
    [ Constructor("sdk.composite.builtin.chartContext", [], Some(CONTEXT), args => Success(context)),
      Constructor("sdk.composite.builtin.ChartFactory", [CONTEXT], Some(CHART_FACTORY), args => Success(factory)) ]
  }

  /** Builds a fresh composite of the built-in and the given constructors and applies it. If a
      constructor is unusable it reports the reasons of all that are. Otherwise the calls are those of
      a run, and it reports the error that ended the run, if one did. Where interface parameters
      have a producer of their type and Apply methods never fail, there is an error exactly when
      the components need each other in a cycle, or a parameter that is not a slice lacks a unique
      other producer. */
  method ApplyComposite(ctors: seq<Constructor>, context: Value, factory: Value, implements: Implements)
    returns (err: Option<SetError>, components: seq<Component>, ghost calls: seq<Call>,
             ghost runErr: Option<CompositeError>, ghost refused: seq<nat>)
    ensures err.Some? && err.value.Unregistered? <==> exists c :: c in ctors && c.Unusable?
    ensures !AllUsable(ctors) ==>
              err.Some? && err.value.Unregistered? && ListsReasons(ctors, refused, err.value.reasons) && calls == []
    ensures DistinctNames(components)
    ensures AllUsable(ctors) ==>
              && AllUsable(Builtins(context, factory) + ctors)
              && components == Components(Builtins(context, factory) + ctors)
              && FreshRun(components, implements, calls, runErr)
              && err == (match runErr case None => None case Some(e) => Some(Starting(e)))
              && (&& InterfacesProduced(components) && WellTyped(components, implements)
                  && NeverFails(components) && NilsLate(components) ==>
                    (err.None? <==> NoCycle(components) && UniqueSingles(components)))
  {
    calls, runErr := [], None;
    var errs;
    var all := Builtins(context, factory) + ctors;
    components, errs, refused := RegisterComponents(all);
    BuiltinsAreUsable(context, factory, ctors);
    if errs != [] {
      refused := ReasonsOfOthers(Builtins(context, factory), ctors, refused, errs);
      return Some(Unregistered(errs)), components, calls, runErr, refused;
    }
    assert components == Components(all);
    hide DistinctNames, InterfacesProduced, WellTyped, NilsLate, NeverFails, NoCycle, UniqueSingles, AutoComponent,
      Components, Builtins, AllUsable;
    var composite := new Composite(components, implements, Self);
    var failure := composite.Apply();
    calls, runErr := composite.trace, failure;
    if InterfacesProduced(components) && WellTyped(components, implements) && NeverFails(components)
      && NilsLate(components) {
      SucceedsExactly(components, implements, composite.trace, runErr);
    }
    err := if failure.Some? then Some(Starting(failure.value)) else None;
  }

  lemma BuiltinsAreUsable(context: Value, factory: Value, ctors: seq<Constructor>)
    ensures var all := Builtins(context, factory) + ctors;
            && (AllUsable(all) <==> AllUsable(ctors))
            && (AllUsable(all) <==> forall c | c in all :: c.Constructor?)
            && (AllUsable(all) <==> !exists c :: c in ctors && c.Unusable?)
  {
    hide Builtins;
    var all := Builtins(context, factory) + ctors;
    if AllUsable(all) {
      forall i | 0 <= i < |ctors| ensures ctors[i].Constructor? {
        assert all[2 + i] == ctors[i];
      }
    }
    assert (forall c | c in all :: c.Constructor?) ==> forall i | 0 <= i < |all| :: all[i] in all;
  }
}
