/** Signatures that leave something to the order of registration: Apply methods for them that
    show it, and with that the exact condition under which the order never matters. */
module OrderMatters {
  import opened Options
  import opened Text
  import opened Graph
  import opened DepthFirst
  import opened CompositeModel
  import opened CompositeSearch
  import opened CompositeOrder
  import opened CompositeValues
  import opened CompositeSuccess
  import opened CompositeRearrangement
  import opened CompositePrecedence
  import opened CompositeRegistration
  import opened CompositeExact
  import opened CompositeRuns
  import opened CompositeRegistry
  import opened Reordering
  import opened Staging
  import opened RegistrationOrder

  // ---------------------------------------------------------------- Apply methods for given signatures

  /** A dynamic type that a result may have. */
  ghost function TypeFor(implements: Implements, produces: Option<Type>): Type {
    if produces.Some? && exists d :: Fits(implements, d, produces.value) then
      var d :| Fits(implements, d, produces.value);
      d
    else Concrete(0)
  }

  ghost function TypesFor(implements: Implements, comps: seq<Component>): (types: seq<Type>)
    ensures |types| == |comps|
  {
    seq(|comps|, i requires 0 <= i < |comps| => TypeFor(implements, comps[i].produces))
  }

  ghost predicate TypesFit(implements: Implements, comps: seq<Component>, types: seq<Type>) {
    |types| == |comps| && forall i | 0 <= i < |comps| :: TypeFits(implements, comps[i], types[i])
  }

  lemma DefaultTypesFit(implements: Implements, comps: seq<Component>)
    requires Inhabited(comps, implements)
    requires forall c | c in comps && IsError(implements, c) :: c.produces.value.Interface?
    ensures TypesFit(implements, comps, TypesFor(implements, comps))
  {
    hide Fits, ErrorType;
    forall i | 0 <= i < |comps| ensures TypeFits(implements, comps[i], TypesFor(implements, comps)[i]) {
      assert comps[i] in comps;
    }
  }

  /** Returns a value of its own, or a nil error. */
  function ReturnResult(implements: Implements, produces: Option<Type>, d: Type, i: nat): Act {
    args => Success(Result(implements, produces, d, Decimal(i)))
  }

  function ContextOf(implements: Implements, types: seq<Type>): Value
    requires |types| >= FRAMEWORK
  {
    Result(implements, Some(CONTEXT), types[0], Decimal(0))
  }

  function FactoryOf(implements: Implements, types: seq<Type>): Value
    requires |types| >= FRAMEWORK
  {
    Result(implements, Some(CHART_FACTORY), types[1], Decimal(1))
  }

  /** What is to be staged: constructors, the types of their results, the actor and what it does. */
  datatype Play = Play(ctors: seq<Constructor>, implements: Implements, types: seq<Type>, actor: nat, act: Act)

  predicate Scriptable(p: Play) {
    AllUsable(p.ctors) && |p.types| == FRAMEWORK + |p.ctors| && FRAMEWORK <= p.actor < |p.types|
  }

  /** The same signatures; the actor acts, every other component returns its result. */
  function Script(p: Play): (r: seq<Constructor>)
    requires Scriptable(p)
    ensures |r| == |p.ctors|
  {
    seq(|p.ctors|, i requires 0 <= i < |p.ctors| => Scripted(p, i))
  }

  function Scripted(p: Play, i: nat): Constructor
    requires Scriptable(p) && i < |p.ctors|
  {
    var c, k := p.ctors[i], FRAMEWORK + i;
    Constructor(c.title, c.consumes, c.produces,
                if k == p.actor then p.act else ReturnResult(p.implements, c.produces, p.types[k], k))
  }

  function Positions(n: nat): (tags: seq<string>)
    ensures |tags| == n && forall i | 0 <= i < n :: tags[i] == Decimal(i)
  {
    seq(n, i requires 0 <= i < n => Decimal(i))
  }

  lemma PositionsDistinct(n: nat)
    ensures Distinct(Positions(n))
  {
    hide Decimal;
    forall i, k | 0 <= i < k < n ensures Positions(n)[i] != Positions(n)[k] {
      if Decimal(i) == Decimal(k) {
        DecimalInjective(i, k);
      }
    }
  }

  ghost predicate Playable(p: Play) {
    && Scriptable(p)
    && var comps := Components(AllScripted(p));
    && ProperParameters(comps) && TypesFit(p.implements, comps, p.types)
    && ActFits(p.implements, p.act, comps[p.actor].produces)
  }

  function AllScripted(p: Play): (r: seq<Constructor>)
    requires Scriptable(p)
    ensures |r| == FRAMEWORK + |p.ctors| && AllUsable(r)
  {
    WholeIsUsable(ContextOf(p.implements, p.types), FactoryOf(p.implements, p.types), Script(p));
    Whole(ContextOf(p.implements, p.types), FactoryOf(p.implements, p.types), Script(p))
  }

  ghost function StageOf(p: Play): Stage
    requires Playable(p)
  {
    Stage(Components(AllScripted(p)), p.implements, p.types, Positions(|p.types|), p.actor, p.act)
  }

  lemma ScriptedAt(p: Play, i: nat)
    requires Scriptable(p) && i < |p.types|
    ensures var c := Components(AllScripted(p))[i];
            if i == p.actor then c.apply == p.act
            else Tagged(c, Result(p.implements, c.produces, p.types[i], Decimal(i)))
  {
    hide Decimal, IndexedName, Result;
    var context, factory := ContextOf(p.implements, p.types), FactoryOf(p.implements, p.types);
    var all := Whole(context, factory, Script(p));
    assert Components(AllScripted(p))[i] == AutoComponent(i, all[i]);
    if i < FRAMEWORK {
      BuiltinReturns(context, factory, i);
    } else {
      assert all[i] == Script(p)[i - FRAMEWORK];
      assert i != p.actor ==> all[i].apply == ReturnResult(p.implements, all[i].produces, p.types[i], i);
    }
  }

  lemma BuiltinReturns(context: Value, factory: Value, i: nat)
    requires i < FRAMEWORK
    ensures Builtins(context, factory)[i].produces == if i == 0 then Some(CONTEXT) else Some(CHART_FACTORY)
    ensures forall args :: Builtins(context, factory)[i].apply(args) == Success(if i == 0 then context else factory)
  {
  }

  lemma PlayIsStaged(p: Play)
    requires Playable(p)
    ensures Staged(StageOf(p))
  {
    var s := StageOf(p);
    ComponentsHaveDistinctNames(AllScripted(p));
    PositionsDistinct(|p.types|);
    hide AllScripted, Components, DistinctNames, ProperParameters, ActFits, Distinct, Tagged, TypeFits, Decimal, Result;
    forall i | 0 <= i < |s.comps| && i != s.actor ensures Cast(s.implements, s.comps[i], s.types[i], s.tags[i]) {
      ScriptedAt(p, i);
      assert TypeFits(p.implements, s.comps[i], p.types[i]);
    }
    ScriptedAt(p, p.actor);
  }

  lemma ScriptHasSignatures(p: Play)
    requires Scriptable(p)
    ensures SameSignatures(p.ctors, Script(p))
  {
  }

  // ---------------------------------------------------------------- orders of a play

  ghost function ContestOf(p: Play, first: Bijection, second: Bijection): Contest
    requires Scriptable(p)
  {
    Contest(ContextOf(p.implements, p.types), FactoryOf(p.implements, p.types), Script(p), first, second)
  }

  lemma PlayIsContest(p: Play, first: Bijection, second: Bijection)
    requires Playable(p) && IsBijection(first, |p.types|) && KeepsHead(first, FRAMEWORK)
    requires IsBijection(second, |p.types|) && KeepsHead(second, FRAMEWORK)
    ensures SameSignatures(p.ctors, ContestOf(p, first, second).ctors)
    ensures IsContest(ContestOf(p, first, second), p.implements)
    ensures Base(ContestOf(p, first, second)) == StageOf(p).comps
  {
    PlayIsStaged(p);
    ScriptHasSignatures(p);
    hide IsBijection, KeepsHead, SameSignatures, WellTyped, Staged, Playable;
    StagedIsTyped(StageOf(p));
  }

  /** The play in another order. */
  lemma InOrder(p: Play, first: Bijection, second: Bijection, b: Bijection) returns (comps: seq<Component>)
    requires Playable(p) && (b == first || b == second) && IsBijection(first, |p.types|) && KeepsHead(first, FRAMEWORK)
    requires IsBijection(second, |p.types|) && KeepsHead(second, FRAMEWORK)
    ensures IsEntry(ContestOf(p, first, second), b, comps)
    ensures Staged(StageOf(p)) && Rearranged(StageOf(p).comps, comps, b) && Matched(StageOf(p).comps, comps, b)
    ensures Staged(Restaged(StageOf(p), comps, b))
  {
    var k := ContestOf(p, first, second);
    PlayIsContest(p, first, second);
    PlayIsStaged(p);
    hide Playable, KeepsHead, WellTyped, Staged, Rearranged, Matched;
    comps := EntryOf(k, p.implements, b);
    EntryIsRearranged(k, p.implements, b, comps);
    RestagedIsStaged(StageOf(p), comps, b);
  }

  lemma EntryOf(k: Contest, implements: Implements, b: Bijection) returns (comps: seq<Component>)
    requires IsContest(k, implements) && IsOrder(k, b)
    ensures IsEntry(k, b, comps)
  {
    PermutedIsReordered(k.context, k.factory, k.ctors, b);
    var all := Whole(k.context, k.factory, Permuted(k.context, k.factory, k.ctors, b));
    hide Whole, Permuted, WellTyped;
    ReorderedComponents(Whole(k.context, k.factory, k.ctors), all, b);
    comps := Components(all);
  }

  // ---------------------------------------------------------------- what a schedule has first

  /** Everything is scheduled where there is no cycle. */
  lemma AllScheduled(comps: seq<Component>, i: nat)
    requires DistinctNames(comps) && NoCycle(comps) && i < |comps|
    ensures comps[i].name in Schedule(comps)
  {
    var edges, roots := InferredEdges(comps), Registered(comps);
    SearchIsWalked(edges, roots);
    hide InferredEdges, Search, DistinctNames, ReachesCycle, Topological, IsName;
    assert roots[i] == comps[i].name && roots[i] in roots;
    forall m | m in roots ensures !ReachesCycle(edges, m) {
      var k :| 0 <= k < |roots| && roots[k] == m;
      assert comps[k] in comps;
    }
    assert IsName(comps, comps[i].name) by { NameAt(comps, i); }
    KnownHas(comps, Search(edges, roots).order, comps[i].name);
  }

  /** In the order that brings some components to the front, they are called before what none of them needs. */
  lemma FrontIsBefore(comps: seq<Component>, comps': seq<Component>, b: Bijection, front: set<nat>, x: nat, y: nat)
    requires Matched(comps, comps', b) && Viable(comps) && x < |comps| && y < |comps|
    requires FrontComesFirst(b.to, front)
    requires x in front && forall m: nat | m in front :: !Needs(comps, m, y)
    ensures x < |b.from| && y < |b.from| && b.from[x] < |comps'| && b.from[y] < |comps'| && DistinctNames(comps')
    ensures Before(Schedule(comps'), comps'[b.from[x]].name, comps'[b.from[y]].name)
  {
    MatchedIsDistinct(comps, comps', b);
    assert b.to[b.from[x]] == x && b.to[b.from[y]] == y;
    ViableCarries(comps, comps', b);
    hide Matched, DistinctNames, NoCycle, UniqueSingles, Schedule, Needs, Before;
    AllScheduled(comps', b.from[y]);
    FrontRunsFirst(comps, comps', b, front, b.from[x], b.from[y]);
  }

  ghost function Head(h: nat): (front: set<nat>)
    ensures forall i: nat :: i in front <==> i < h
  {
    if h == 0 then {} else Head(h - 1) + {h - 1}
  }

  /** The head and one more component. */
  ghost function HeadAnd(h: nat, x: nat): set<nat> {
    Head(h) + {x}
  }

  ghost predicate BringsToFront(b: Bijection, n: nat, front: set<nat>, h: nat) {
    IsBijection(b, n) && KeepsHead(b, h) && FrontComesFirst(b.to, front)
  }

  /** One component brought to the front is called before whatever it does not need. */
  lemma OneIsBefore(comps: seq<Component>, comps': seq<Component>, b: Bijection, h: nat, x: nat, y: nat)
    requires Matched(comps, comps', b) && DistinctNames(comps) && Viable(comps) && HeadFirst(comps, h)
    requires h <= x < |comps| && h <= y < |comps| && !Needs(comps, x, y) && BringsToFront(b, |comps|, HeadAnd(h, x), h)
    ensures x < |b.from| && y < |b.from| && b.from[x] < |comps'| && b.from[y] < |comps'| && DistinctNames(comps')
    ensures Before(Schedule(comps'), comps'[b.from[x]].name, comps'[b.from[y]].name)
  {
    MatchedHasLength(comps, comps', b);
    hide Matched, DistinctNames, Viable, IsBijection, KeepsHead, Schedule, Before, Needs;
    FrontIsBefore(comps, comps', b, HeadAnd(h, x), x, y);
  }

  lemma MatchedHasLength(comps: seq<Component>, comps': seq<Component>, b: Bijection)
    requires Matched(comps, comps', b)
    ensures |comps'| == |comps|
  {
    hide DistinctNames, IsBijection, Alike;
  }

  // ---------------------------------------------------------------- signatures and their plays

  /** Constructors of which the promise is asked. */
  ghost predicate Asked(context: Value, factory: Value, ctors: seq<Constructor>, implements: Implements) {
    && AllUsable(Whole(context, factory, ctors))
    && var comps := Components(Whole(context, factory, ctors));
    && DistinctNames(comps) && ProperParameters(comps) && Inhabited(comps, implements)
  }

  ghost function Parts(context: Value, factory: Value, ctors: seq<Constructor>): seq<Component>
    requires AllUsable(Whole(context, factory, ctors))
  {
    Components(Whole(context, factory, ctors))
  }

  /** The same signatures at the same positions. */
  ghost predicate SameShape(comps: seq<Component>, comps': seq<Component>) {
    Matched(comps, comps', Identity(|comps|))
  }

  lemma ShapeAt(comps: seq<Component>, comps': seq<Component>, i: nat)
    requires SameShape(comps, comps') && i < |comps|
    ensures |comps'| == |comps| && Alike(comps[i], comps'[i])
  {
    hide DistinctNames;
    assert Identity(|comps|).to[i] == i;
  }

  lemma ShapeFixes(comps: seq<Component>, comps': seq<Component>, h: nat, i: nat, k: nat)
    requires SameShape(comps, comps') && i < |comps| && k < |comps| && h <= |comps|
    ensures DistinctNames(comps) && DistinctNames(comps')
    ensures Fixed(comps', h, i, k) <==> Fixed(comps, h, i, k)
    ensures forall t :: Feeds(comps', i, k, t) <==> Feeds(comps, i, k, t)
  {
    var id := Identity(|comps|);
    ShapeAt(comps, comps', i);
    ShapeAt(comps, comps', k);
    IdentityKeepsHead(|comps|, h);
    MatchedIsDistinct(comps, comps', id);
    assert id.to[i] == i && id.to[k] == k;
    hide DistinctNames, Matched, Fixed, KeepsHead, Identity;
    FixedCarries(comps, comps', id, h, i, k);
  }

  lemma PlayOf(context: Value, factory: Value, ctors: seq<Constructor>, implements: Implements, types: seq<Type>,
               actor: nat, act: Act)
      returns (p: Play)
    requires Asked(context, factory, ctors, implements) && Viable(Parts(context, factory, ctors))
    requires TypesFit(implements, Parts(context, factory, ctors), types)
    requires FRAMEWORK <= actor < |Parts(context, factory, ctors)|
    requires ActFits(implements, act, Parts(context, factory, ctors)[actor].produces)
    ensures Playable(p) && p == Play(ctors, implements, types, actor, act)
    ensures SameShape(Parts(context, factory, ctors), StageOf(p).comps)
    ensures DistinctNames(StageOf(p).comps) && Viable(StageOf(p).comps)
    ensures HeadFirst(StageOf(p).comps, FRAMEWORK)
  {
    WholeIsUsable(context, factory, ctors);
    p := Play(ctors, implements, types, actor, act);
    PlayHasShape(context, factory, p);
    hide *;
    var comps, comps' := Parts(context, factory, ctors), Components(AllScripted(p));
    PartsAreProper(context, factory, ctors, implements);
    TypesFitInShape(implements, comps, comps', types);
    ShapeParts(comps, comps', actor);
    ScriptedIsFirst(p);
    ItIsPlayable(p);
  }

  lemma PartsAreProper(context: Value, factory: Value, ctors: seq<Constructor>, implements: Implements)
    requires Asked(context, factory, ctors, implements)
    ensures ProperParameters(Parts(context, factory, ctors))
  {
    hide ProperParameters, Inhabited, DistinctNames, Components, Whole;
  }

  lemma TypesFitInShape(implements: Implements, comps: seq<Component>, comps': seq<Component>, types: seq<Type>)
    requires SameShape(comps, comps') && TypesFit(implements, comps, types)
    ensures TypesFit(implements, comps', types)
  {
    ShapeLength(comps, comps');
    hide SameShape, ErrorType, Fits;
    forall i | 0 <= i < |comps'| ensures TypeFits(implements, comps'[i], types[i]) {
      ShapeAt(comps, comps', i);
      assert TypeFits(implements, comps[i], types[i]);
    }
  }

  lemma ShapeLength(comps: seq<Component>, comps': seq<Component>)
    requires SameShape(comps, comps')
    ensures |comps'| == |comps|
  {
    hide DistinctNames, Identity, Alike;
  }

  lemma ItIsPlayable(p: Play)
    requires Scriptable(p) && ProperParameters(Components(AllScripted(p)))
    requires TypesFit(p.implements, Components(AllScripted(p)), p.types)
    requires ActFits(p.implements, p.act, Components(AllScripted(p))[p.actor].produces)
    ensures Playable(p) && StageOf(p).comps == Components(AllScripted(p))
  {
    hide Components, AllScripted, TypesFit, ActFits, ProperParameters;
  }

  lemma ScriptedIsFirst(p: Play)
    requires Scriptable(p) && DistinctNames(Components(AllScripted(p))) && Viable(Components(AllScripted(p)))
    ensures HeadFirst(Components(AllScripted(p)), FRAMEWORK)
  {
    hide Components, Whole, Script, Viable, HeadFirst, DistinctNames, ContextOf, FactoryOf;
    FrameworkIsFirst2(ContextOf(p.implements, p.types), FactoryOf(p.implements, p.types), Script(p));
  }

  lemma PlayHasShape(context: Value, factory: Value, p: Play)
    requires Scriptable(p) && AllUsable(Whole(context, factory, p.ctors))
    ensures SameShape(Parts(context, factory, p.ctors), Components(AllScripted(p)))
    ensures DistinctNames(Parts(context, factory, p.ctors)) && DistinctNames(Components(AllScripted(p)))
    ensures ProperParameters(Parts(context, factory, p.ctors)) ==> ProperParameters(Components(AllScripted(p)))
    ensures Viable(Parts(context, factory, p.ctors)) <==> Viable(Components(AllScripted(p)))
  {
    var all, all' := Whole(context, factory, p.ctors), AllScripted(p);
    ScriptHasSignatures(p);
    WholeSignatures(context, factory, p.ctors, ContextOf(p.implements, p.types), FactoryOf(p.implements, p.types),
                    Script(p));
    assert SameSignatures(all, all');
    hide Whole, AllScripted, Script, SameSignatures, Components, Viable, CanSucceed, ProperParameters, DistinctNames,
      OrderedBySignature, Matched, Identity;
    SignaturesDecide(all, all', 0, p.implements);
  }

  /** Two components of which neither is always called before the other stand behind the head. */
  lemma NeitherFixed(comps: seq<Component>, h: nat, x: nat, y: nat)
    requires DistinctNames(comps) && HeadFirst(comps, h) && x < |comps| && y < |comps| && x != y
    requires !Fixed(comps, h, x, y) && !Fixed(comps, h, y, x)
    ensures h <= x && h <= y && !Needs(comps, x, y) && !Needs(comps, y, x)
  {
    hide DistinctNames, Needs;
  }

  lemma FrameworkTakes(context: Value, factory: Value, ctors: seq<Constructor>)
    requires AllUsable(Whole(context, factory, ctors))
    ensures var comps := Parts(context, factory, ctors);
            comps[0].consumes == [] && comps[1].consumes == [CONTEXT] && comps[0].produces == Some(CONTEXT)
  {
    hide IndexedName;
  }

  lemma AskedIsFirst(context: Value, factory: Value, ctors: seq<Constructor>, implements: Implements)
    requires Asked(context, factory, ctors, implements) && Viable(Parts(context, factory, ctors))
    ensures HeadFirst(Parts(context, factory, ctors), FRAMEWORK)
  {
    hide Whole, Components, Viable, HeadFirst, ProperParameters, Inhabited, DistinctNames;
    FrameworkIsFirst2(context, factory, ctors);
  }

  // ---------------------------------------------------------------- errors that are always late enough

  /** Everything else that takes an interface is always called before what may return a nil error. */
  ghost predicate ErrorsFirst(comps: seq<Component>, h: nat, implements: Implements)
    requires DistinctNames(comps)
  {
    forall e | 0 <= e < |comps| && IsError(implements, comps[e]) :: ConsumersFirst(comps, h, e)
  }

  lemma ErrorsComeFirst(comps: seq<Component>, h: nat, implements: Implements)
    requires DistinctNames(comps) && ErrorsFeasible(comps, h, implements) && NilsOrdered(comps, h)
    ensures ErrorsFirst(comps, h, implements)
  {
    hide DistinctNames, Fixed, ConsumersFirst, ConsumesInterface, ErrorType;
    forall e | 0 <= e < |comps| && IsError(implements, comps[e]) ensures ConsumersFirst(comps, h, e) {
      assert comps[e] in comps && ProducesInterface(comps[e]);
      if ConsumerLater(comps, h, e) {
        var c :| 0 <= c < |comps| && ConsumesInterface(comps[c]) && Fixed(comps, h, e, c);
        FixedInRange(comps, h, e, c);
        FixedDiffers(comps, h, e, c);
      }
    }
  }

  lemma FixedDiffers(comps: seq<Component>, h: nat, i: int, k: int)
    requires DistinctNames(comps) && Fixed(comps, h, i, k)
    ensures i != k
  {
    hide DistinctNames, Needs;
  }

  lemma ErrorsFirstCarries(comps: seq<Component>, comps': seq<Component>, b: Bijection, h: nat, implements: Implements)
    requires Matched(comps, comps', b) && KeepsHead(b, h) && ErrorsFirst(comps, h, implements)
    ensures ErrorsFirst(comps', h, implements)
  {
    hide DistinctNames, ConsumersFirst, KeepsHead, ErrorType;
    forall e | 0 <= e < |comps'| && IsError(implements, comps'[e]) ensures ConsumersFirst(comps', h, e) {
      InRange(comps, comps', b, e);
      assert IsError(implements, comps[b.to[e]]);
      ConsumersFirstCarries(comps, comps', b, h, e);
    }
  }

  lemma ErrorsFirstInShape(comps: seq<Component>, comps': seq<Component>, h: nat, implements: Implements)
    requires SameShape(comps, comps') && DistinctNames(comps) && h <= |comps| && ErrorsFirst(comps, h, implements)
    ensures DistinctNames(comps') && ErrorsFirst(comps', h, implements)
  {
    IdentityKeepsHead(|comps|, h);
    MatchedIsDistinct(comps, comps', Identity(|comps|));
    hide DistinctNames, ErrorsFirst, KeepsHead, Matched, Identity;
    ErrorsFirstCarries(comps, comps', Identity(|comps|), h, implements);
  }

  /** An actor that returns nil only where it returns an error. */
  ghost predicate NilIsError(s: Stage) {
    s.actor < |s.comps| && ((exists args :: s.act(args) == Success(Nil)) ==> IsError(s.implements, s.comps[s.actor]))
  }

  /** In every order no nil is in the way. */
  lemma CalmInOrder(s: Stage, comps: seq<Component>, b: Bijection, h: nat)
    requires Staged(s) && Rearranged(s.comps, comps, b) && KeepsHead(b, h) && NilIsError(s)
    requires DistinctNames(s.comps) && HeadFirst(s.comps, h) && ErrorsFirst(s.comps, h, s.implements)
    ensures DistinctNames(comps) && NilsLate(comps)
  {
    RestagedIsStaged(s, comps, b);
    MatchedIsDistinct(s.comps, comps, b);
    var s' := Restaged(s, comps, b);
    BackInRange(s.comps, comps, b, s.actor);
    InRange(s.comps, comps, b, b.from[s.actor]);
    hide Staged, Rearranged, DistinctNames, HeadFirst, KeepsHead, ErrorsFirst, Matched, Schedule, Before,
      ConsumesInterface;
    HeadCarries(s.comps, comps, b, h);
    ErrorsFirstCarries(s.comps, comps, b, h, s.implements);
    forall i, c | 0 <= i < |comps| && 0 <= c < |comps| && i != c && ConsumesInterface(comps[c])
        && (IsError(s.implements, comps[i]) || (i == s'.actor && exists args :: s'.act(args) == Success(Nil)))
      ensures !Before(Schedule(comps), comps[i].name, comps[c].name)
    {
      ErrorIsLate(comps, h, s.implements, i, c);
    }
    NilsAreLate(s');
  }

  lemma ErrorIsLate(comps: seq<Component>, h: nat, implements: Implements, e: nat, c: nat)
    requires DistinctNames(comps) && HeadFirst(comps, h) && ErrorsFirst(comps, h, implements)
    requires e < |comps| && c < |comps| && e != c && IsError(implements, comps[e]) && ConsumesInterface(comps[c])
    ensures !Before(Schedule(comps), comps[e].name, comps[c].name)
  {
    hide DistinctNames, HeadFirst, Fixed, Schedule, Before, ConsumesInterface, IsError;
    assert ConsumersFirst(comps, h, e);
    FixedNotAfter(comps, h, c, e);
  }

  // ---------------------------------------------------------------- unordered producers of a slice

  lemma UnorderedFeeders(comps: seq<Component>, h: nat) returns (w: nat, j: nat, x: nat, y: nat)
    requires DistinctNames(comps) && !SlicesOrdered(comps, h)
    ensures w < |comps| && j < |comps[w].consumes| && comps[w].consumes[j].Slice? && x < |comps| && y < |comps|
    ensures x != y
    ensures Feeds(comps, x, w, comps[w].consumes[j].elem) && Feeds(comps, y, w, comps[w].consumes[j].elem)
    ensures !Fixed(comps, h, x, y) && !Fixed(comps, h, y, x)
  {
    hide DistinctNames, Fixed;
    var p, t :| 0 <= p < |comps| && t in comps[p].consumes && t.Slice? && !FeedersOrdered(comps, h, p, t);
    w := p;
    j :| 0 <= j < |comps[p].consumes| && comps[p].consumes[j] == t;
    var i, k :| Feeds(comps, i, p, Wanted(t)) && Feeds(comps, k, p, Wanted(t)) && i != k && !Fixed(comps, h, i, k)
      && !Fixed(comps, h, k, i);
    x, y := i, k;
  }

  lemma WatchFits(implements: Implements, c: Component, d: Type, j: nat, a: string, b: string)
    requires TypeFits(implements, c, d)
    ensures ActFits(implements, Watch(implements, c.produces, d, j, a, b), c.produces)
  {
    hide ComesFirst;
  }

  lemma WatchingMoves(s: Stage, j: nat, x: nat, y: nat, comps: seq<Component>, b: Bijection)
    requires Watching(s, j, x, y) && Rearranged(s.comps, comps, b)
    ensures Staged(s) && x < |b.from| && y < |b.from| && Watching(Restaged(s, comps, b), j, b.from[x], b.from[y])
    ensures b.from[x] < |comps| && b.from[y] < |comps|
    ensures var s' := Restaged(s, comps, b);
            |s'.tags| == |comps| && x < |s.tags| && y < |s.tags| && s'.tags[b.from[x]] == s.tags[x]
              && s'.tags[b.from[y]] == s.tags[y]
  {
    RestagedIsStaged(s, comps, b);
    WatchingParts(s, j, x, y);
    var s' := Restaged(s, comps, b);
    hide Staged, DistinctNames;
    assert b.to[b.from[x]] == x && b.to[b.from[y]] == y && b.to[b.from[s.actor]] == s.actor;
    InRange(s.comps, comps, b, b.from[s.actor]);
    FeedsCarries(s.comps, comps, b, b.from[x], b.from[s.actor], s.comps[s.actor].consumes[j].elem);
    FeedsCarries(s.comps, comps, b, b.from[y], b.from[s.actor], s.comps[s.actor].consumes[j].elem);
  }

  lemma WatchingIsCalm(s: Stage, j: nat, x: nat, y: nat)
    requires Watching(s, j, x, y)
    ensures NilIsError(s)
  {
    WatchingParts(s, j, x, y);
    hide Watching, Staged, ComesFirst;
  }

  /** Different reports are different values of the actor. */
  lemma ReportsDiffer(s: Stage, comps: seq<Component>, b: Bijection, calls: seq<Call>, tag: string,
                      comps': seq<Component>, b': Bijection, calls': seq<Call>, tag': string)
    requires Staged(s) && s.actor < |s.comps| && Rearranged(s.comps, comps, b) && Rearranged(s.comps, comps', b')
    requires |b.from| == |comps| && |b'.from| == |comps'|
    requires s.actor < |b.from| && b.from[s.actor] < |comps| && Reports(Restaged(s, comps, b), calls, tag)
    requires s.actor < |b'.from| && b'.from[s.actor] < |comps'| && Reports(Restaged(s, comps', b'), calls', tag')
    requires tag != tag'
    ensures ValuesDiffer(comps, b, calls, comps', b', calls')
  {
    hide Staged, Rearranged, ValuesOf;
    assert FinalValue(comps, b, calls, s.actor) != FinalValue(comps', b', calls', s.actor);
  }

  lemma BackInRange(comps: seq<Component>, comps': seq<Component>, b: Bijection, i: nat)
    requires Matched(comps, comps', b) && i < |comps|
    ensures |b.from| == |comps'| == |comps| && b.from[i] < |comps'| && b.to[b.from[i]] == i
  {
    hide DistinctNames, Alike;
  }

  /** The watcher tells the order that has x in front from the one that has y in front. */
  lemma WatchersDiffer(s: Stage, j: nat, x: nat, y: nat, comps: seq<Component>, b: Bijection, comps': seq<Component>,
                       b': Bijection)
    requires Watching(s, j, x, y) && Rearranged(s.comps, comps, b) && Rearranged(s.comps, comps', b')
    requires DistinctNames(s.comps) && Viable(s.comps) && HeadFirst(s.comps, FRAMEWORK)
    requires ErrorsFirst(s.comps, FRAMEWORK, s.implements)
    requires FRAMEWORK <= x < |s.comps| && FRAMEWORK <= y < |s.comps| && !Needs(s.comps, x, y) && !Needs(s.comps, y, x)
    requires BringsToFront(b, |s.comps|, HeadAnd(FRAMEWORK, x), FRAMEWORK)
    requires BringsToFront(b', |s.comps|, HeadAnd(FRAMEWORK, y), FRAMEWORK)
    ensures AllRunsDiffer(s.implements, comps, b, comps', b')
  {
    WatchingMoves(s, j, x, y, comps, b);
    WatchingMoves(s, j, x, y, comps', b');
    WatchingParts(s, j, x, y);
    WatchingIsCalm(s, j, x, y);
    RearrangedMatches(s.comps, comps, b);
    RearrangedMatches(s.comps, comps', b');
    hide Watching, Staged, Rearranged, Viable, HeadFirst, Matched, DistinctNames, Needs, Before, Schedule, Reports,
      ValuesDiffer, FreshRun, Feeds, IsBijection, KeepsHead, FrontComesFirst, HeadAnd, ErrorsFirst, NilsLate, Quiet,
        NilIsError;
    CalmInOrder(s, comps, b, FRAMEWORK);
    CalmInOrder(s, comps', b', FRAMEWORK);
    OneIsBefore(s.comps, comps, b, FRAMEWORK, x, y);
    OneIsBefore(s.comps, comps', b', FRAMEWORK, y, x);
    ViableCarries(s.comps, comps, b);
    ViableCarries(s.comps, comps', b');
    BackInRange(s.comps, comps, b, s.actor);
    BackInRange(s.comps, comps', b', s.actor);
    InRange(s.comps, comps, b, b.from[s.actor]);
    InRange(s.comps, comps', b', b'.from[s.actor]);
    forall calls, err, calls', err' | FreshRun(comps, s.implements, calls, err)
      && FreshRun(comps', s.implements, calls', err')
      ensures EndDifferently(comps, b, calls, err, comps', b', calls', err')
    {
      FirstIsReported(Restaged(s, comps, b), j, b.from[x], b.from[y], calls, err);
      if err'.None? {
        SecondIsReported(Restaged(s, comps', b'), j, b'.from[x], b'.from[y], calls');
        ReportsDiffer(s, comps, b, calls, s.tags[x], comps', b', calls', s.tags[y]);
      }
    }
  }

  /** Slices that leave the order of two producers open: two orders of registration differ. */
  lemma SlicesMatter(context: Value, factory: Value, ctors: seq<Constructor>, implements: Implements)
    requires Asked(context, factory, ctors, implements)
    requires CanSucceed(Parts(context, factory, ctors), FRAMEWORK, implements)
    requires NilsOrdered(Parts(context, factory, ctors), FRAMEWORK)
    requires !SlicesOrdered(Parts(context, factory, ctors), FRAMEWORK)
    ensures TwoOrdersDiffer(ctors, implements)
  {
    hide *;
    var comps, types := AskedParts(context, factory, ctors, implements);
    var w, j, x, y := UnorderedFeeders(comps, FRAMEWORK);
    TakesSliceBehind(context, factory, ctors, w, j);
    var act := Watch(implements, comps[w].produces, types[w], j, Decimal(x), Decimal(y));
    TypeFitsAt(implements, comps, types, w);
    WatchFits(implements, comps[w], types[w], j, Decimal(x), Decimal(y));
    var p := PlayOf(context, factory, ctors, implements, types, w, act);
    ErrorsComeFirst(comps, FRAMEWORK, implements);
    ErrorsFirstInShape(comps, StageOf(p).comps, FRAMEWORK, implements);
    PlayIsWatching(comps, p, j, x, y);
    WatchingPlayDiffers(p, j, x, y);
  }

  lemma AskedParts(context: Value, factory: Value, ctors: seq<Constructor>, implements: Implements)
      returns (comps: seq<Component>, types: seq<Type>)
    requires Asked(context, factory, ctors, implements)
    requires CanSucceed(Parts(context, factory, ctors), FRAMEWORK, implements)
    ensures AllUsable(Whole(context, factory, ctors)) && comps == Parts(context, factory, ctors) && FRAMEWORK <= |comps|
    ensures DistinctNames(comps) && HeadFirst(comps, FRAMEWORK) && TypesFit(implements, comps, types)
    ensures |types| == |comps|
    ensures Viable(comps) && UniqueSingles(comps) && ErrorsFeasible(comps, FRAMEWORK, implements)
  {
    comps := Parts(context, factory, ctors);
    types := TypesFor(implements, comps);
    hide DistinctNames, HeadFirst, ProperParameters, NoCycle, UniqueSingles, Whole, Fixed, ConsumesInterface, ErrorType;
    AskedIsFirst(context, factory, ctors, implements);
    DefaultTypesFit(implements, comps);
  }

  lemma TypeFitsAt(implements: Implements, comps: seq<Component>, types: seq<Type>, i: nat)
    requires TypesFit(implements, comps, types) && i < |comps|
    ensures i < |types| && TypeFits(implements, comps[i], types[i])
  {
    hide TypeFits;
  }

  /** The components of the framework take no slices. */
  lemma TakesSliceBehind(context: Value, factory: Value, ctors: seq<Constructor>, w: nat, j: nat)
    requires AllUsable(Whole(context, factory, ctors)) && w < |Parts(context, factory, ctors)|
    requires j < |Parts(context, factory, ctors)[w].consumes| && Parts(context, factory, ctors)[w].consumes[j].Slice?
    ensures FRAMEWORK <= w
  {
    FrameworkTakes(context, factory, ctors);
    hide Parts;
  }

  lemma PlayIsWatching(comps: seq<Component>, p: Play, j: nat, x: nat, y: nat)
    requires Playable(p) && SameShape(comps, StageOf(p).comps) && DistinctNames(comps)
    requires p.actor < |comps| && j < |comps[p.actor].consumes| && comps[p.actor].consumes[j].Slice?
    requires x < |comps| && y < |comps| && x != y && p.actor < |p.types|
    requires Feeds(comps, x, p.actor, comps[p.actor].consumes[j].elem)
    requires Feeds(comps, y, p.actor, comps[p.actor].consumes[j].elem)
    requires p.act == Watch(p.implements, comps[p.actor].produces, p.types[p.actor], j, Decimal(x), Decimal(y))
    requires FRAMEWORK <= |comps| && !Fixed(comps, FRAMEWORK, x, y) && !Fixed(comps, FRAMEWORK, y, x)
    requires DistinctNames(StageOf(p).comps) && HeadFirst(StageOf(p).comps, FRAMEWORK)
    ensures Watching(StageOf(p), j, x, y)
    ensures FRAMEWORK <= x && FRAMEWORK <= y && !Needs(StageOf(p).comps, x, y) && !Needs(StageOf(p).comps, y, x)
  {
    var s := StageOf(p);
    PlayIsStaged(p);
    StagedParts(s);
    hide Playable, Components, AllScripted, Staged, DistinctNames, Feeds, Fixed, Watch, SameShape, Decimal, ActFits,
      ProperParameters, HeadFirst, Needs;
    ShapeAt(comps, s.comps, p.actor);
    ShapeFixes(comps, s.comps, FRAMEWORK, x, p.actor);
    ShapeFixes(comps, s.comps, FRAMEWORK, y, p.actor);
    ShapeFixes(comps, s.comps, FRAMEWORK, x, y);
    ShapeFixes(comps, s.comps, FRAMEWORK, y, x);
    NeitherFixed(s.comps, FRAMEWORK, x, y);
  }

  lemma WatchingPlayDiffers(p: Play, j: nat, x: nat, y: nat)
    requires Playable(p) && Watching(StageOf(p), j, x, y)
    requires DistinctNames(StageOf(p).comps) && Viable(StageOf(p).comps) && HeadFirst(StageOf(p).comps, FRAMEWORK)
    requires ErrorsFirst(StageOf(p).comps, FRAMEWORK, p.implements)
    requires FRAMEWORK <= x && FRAMEWORK <= y && !Needs(StageOf(p).comps, x, y) && !Needs(StageOf(p).comps, y, x)
    ensures TwoOrdersDiffer(p.ctors, p.implements)
  {
    hide *;
    var s := StageOf(p);
    WatchingParts(s, j, x, y);
    PlayLength(p);
    HeadIsInFront(FRAMEWORK, x);
    HeadIsInFront(FRAMEWORK, y);
    var a, b, comps, comps' := TwoEntries(p, HeadAnd(FRAMEWORK, x), HeadAnd(FRAMEWORK, y), HeadAnd(FRAMEWORK, y));
    WatchersDiffer(s, j, x, y, comps, a, comps', b);
    PlayDiffers(p, a, b, comps, comps');
  }

  lemma HeadIsInFront(h: nat, x: nat)
    ensures forall i: nat | i < h :: i in HeadAnd(h, x)
  {
  }

  /** A play in two orders, each with some positions in front. */
  lemma TwoEntries(p: Play, front: set<nat>, front': set<nat>, wider: set<nat>)
      returns (a: Bijection, b: Bijection, comps: seq<Component>, comps': seq<Component>)
    requires Playable(p) && front' <= wider && forall i: nat | i < FRAMEWORK :: i in front && i in front'
    ensures |p.types| == |StageOf(p).comps| && Scriptable(p)
    ensures BringsToFront(a, |p.types|, front, FRAMEWORK) && BringsToFront(b, |p.types|, front', FRAMEWORK)
    ensures FrontComesFirst(b.to, wider)
    ensures IsEntry(ContestOf(p, a, b), a, comps) && IsEntry(ContestOf(p, a, b), b, comps')
    ensures Staged(StageOf(p)) && Rearranged(StageOf(p).comps, comps, a) && Rearranged(StageOf(p).comps, comps', b)
  {
    PlayLength(p);
    a := FrontedOrder(|p.types|, front, front, FRAMEWORK);
    b := FrontedOrder(|p.types|, front', wider, FRAMEWORK);
    hide IsBijection, KeepsHead, Playable, StageOf, ContestOf, Staged, Rearranged, IsEntry;
    comps := InOrder(p, a, b, a);
    comps' := InOrder(p, a, b, b);
  }

  lemma PlayDiffers(p: Play, a: Bijection, b: Bijection, comps: seq<Component>, comps': seq<Component>)
    requires Playable(p) && Scriptable(p)
    requires IsEntry(ContestOf(p, a, b), a, comps) && IsEntry(ContestOf(p, a, b), b, comps')
    requires AllRunsDiffer(p.implements, comps, a, comps', b)
    ensures TwoOrdersDiffer(p.ctors, p.implements)
  {
    EntryIsOrder(p, a, b, a, comps);
    EntryIsOrder(p, a, b, b, comps');
    hide Playable, IsEntry, AllRunsDiffer, Script, IsBijection, KeepsHead, TwoOrdersDiffer;
    PlayIsContest(p, a, b);
    OrdersDiffer(p.ctors, p.implements, ContestOf(p, a, b), comps, comps');
  }

  lemma EntryIsOrder(p: Play, first: Bijection, second: Bijection, b: Bijection, comps: seq<Component>)
    requires Scriptable(p) && IsEntry(ContestOf(p, first, second), b, comps)
    ensures IsBijection(b, |p.types|) && KeepsHead(b, FRAMEWORK)
  {
    hide Whole, Permuted, Components, KeepsHead, IsBijection;
  }

  lemma PlayLength(p: Play)
    requires Playable(p)
    ensures Scriptable(p) && |StageOf(p).comps| == |p.types| == FRAMEWORK + |p.ctors|
    ensures StageOf(p).implements == p.implements
    ensures StageOf(p).actor == p.actor && StageOf(p).act == p.act && StageOf(p).types == p.types
    ensures FRAMEWORK <= p.actor < |p.types|
    ensures StageOf(p).tags == Positions(|p.types|)
  {
  }

  lemma OrdersDiffer(ctors: seq<Constructor>, implements: Implements, k: Contest, comps: seq<Component>,
                     comps': seq<Component>)
    requires SameSignatures(ctors, k.ctors) && IsContest(k, implements)
    requires IsEntry(k, k.first, comps) && IsEntry(k, k.second, comps')
    requires AllRunsDiffer(implements, comps, k.first, comps', k.second)
    ensures TwoOrdersDiffer(ctors, implements)
  {
    hide SameSignatures, IsContest, IsEntry, AllRunsDiffer;
  }

  // ---------------------------------------------------------------- nil results

  /** A component whose result may be nil, before or after another that takes an interface; if
      it is not an error itself, errors are always late enough. */
  ghost predicate Harmful(comps: seq<Component>, h: nat, implements: Implements, q: nat, c: nat)
    requires DistinctNames(comps)
  {
    && q < |comps| && c < |comps| && c != q && ProducesInterface(comps[q]) && ConsumesInterface(comps[c])
    && !Fixed(comps, h, c, q) && !Fixed(comps, h, q, c) && !ConsumerLater(comps, h, q)
    && ErrorsFeasible(comps, h, implements) && (IsError(implements, comps[q]) || ErrorsFirst(comps, h, implements))
  }

  lemma HarmfulNil(comps: seq<Component>, h: nat, implements: Implements) returns (q: nat, c: nat)
    requires DistinctNames(comps) && ErrorsFeasible(comps, h, implements) && !NilsOrdered(comps, h)
    ensures Harmful(comps, h, implements, q, c)
  {
    hide DistinctNames, Fixed, ConsumesInterface, ErrorsFeasible;
    var x: int;
    if ErrorsFirst(comps, h, implements) {
      x :| 0 <= x < |comps| && ProducesInterface(comps[x]) && !ConsumersFirst(comps, h, x)
        && !ConsumerLater(comps, h, x);
    } else {
      x :| 0 <= x < |comps| && IsError(implements, comps[x]) && !ConsumersFirst(comps, h, x);
      ErrorHasNoneLater(comps, h, implements, x);
    }
    var y :| 0 <= y < |comps| && y != x && ConsumesInterface(comps[y]) && !Fixed(comps, h, y, x);
    q, c := x, y;
  }

  lemma ErrorHasNoneLater(comps: seq<Component>, h: nat, implements: Implements, e: nat)
    requires DistinctNames(comps) && ErrorsFeasible(comps, h, implements) && e < |comps|
    requires IsError(implements, comps[e])
    ensures ProducesInterface(comps[e]) && !ConsumerLater(comps, h, e)
  {
    hide DistinctNames, Fixed, ConsumesInterface, ErrorType;
    assert comps[e] in comps;
    if ConsumerLater(comps, h, e) {
      var c :| 0 <= c < |comps| && ConsumesInterface(comps[c]) && Fixed(comps, h, e, c);
      FixedDiffers(comps, h, e, c);
    }
  }

  lemma HarmfulInShape(comps: seq<Component>, comps': seq<Component>, h: nat, implements: Implements, q: nat, c: nat)
    requires SameShape(comps, comps') && DistinctNames(comps) && h <= |comps| && Harmful(comps, h, implements, q, c)
    ensures DistinctNames(comps') && Harmful(comps', h, implements, q, c)
  {
    ShapeAt(comps, comps', q);
    ShapeAt(comps, comps', c);
    ShapeFixes(comps, comps', h, q, c);
    ShapeFixes(comps, comps', h, c, q);
    FeasibleInShape(comps, comps', h, implements);
    hide DistinctNames, SameShape, Fixed, ConsumesInterface, ErrorsFeasible, ErrorsFirst, ErrorType, ConsumerLater;
    SameConsumer(comps[c], comps'[c]);
    if ConsumerLater(comps', h, q) {
      ConsumerLaterInShape(comps, comps', h, q);
    }
    if ErrorsFirst(comps, h, implements) {
      ErrorsFirstInShape(comps, comps', h, implements);
    }
  }

  lemma FeasibleInShape(comps: seq<Component>, comps': seq<Component>, h: nat, implements: Implements)
    requires SameShape(comps, comps') && DistinctNames(comps) && h <= |comps| && ErrorsFeasible(comps, h, implements)
    ensures DistinctNames(comps') && ErrorsFeasible(comps', h, implements)
  {
    IdentityKeepsHead(|comps|, h);
    MatchedIsDistinct(comps, comps', Identity(|comps|));
    hide DistinctNames, ErrorsFeasible, KeepsHead, Matched, Identity;
    ErrorsFeasibleCarries(comps, comps', Identity(|comps|), h, implements);
  }

  lemma ConsumerLaterInShape(comps: seq<Component>, comps': seq<Component>, h: nat, q: nat)
    requires SameShape(comps, comps') && DistinctNames(comps) && DistinctNames(comps') && q < |comps| && h <= |comps|
    requires ConsumerLater(comps', h, q)
    ensures ConsumerLater(comps, h, q)
  {
    ShapeAt(comps, comps', q);
    hide DistinctNames, SameShape, Fixed, ConsumesInterface;
    var c :| 0 <= c < |comps'| && ConsumesInterface(comps'[c]) && Fixed(comps', h, q, c);
    ShapeAt(comps, comps', c);
    SameConsumer(comps[c], comps'[c]);
    ShapeFixes(comps, comps', h, q, c);
  }

  /** What has to be called late: errors and the component in question. */
  ghost function Lates(comps: seq<Component>, implements: Implements, q: nat): (lates: set<nat>)
    ensures forall i: nat :: i in lates <==> i < |comps| && (i == q || IsError(implements, comps[i]))
  {
    set i: nat | i < |comps| && IsLate(comps, implements, q, i)
  }

  ghost predicate IsLate(comps: seq<Component>, implements: Implements, q: nat, i: nat)
    requires i < |comps|
  {
    i == q || IsError(implements, comps[i])
  }

  /** Those of them that take no interface. */
  ghost function Idle(comps: seq<Component>, lates: set<nat>): (idle: set<nat>)
    requires forall i | i in lates :: i < |comps|
    ensures forall i: nat :: i in idle <==> i in lates && !ConsumesInterface(comps[i])
  {
    set i | i in lates && !ConsumesInterface(comps[i])
  }

  /** The components that need none of the given ones. */
  ghost function NeedNone(comps: seq<Component>, lates: set<nat>): (front: set<nat>)
    requires DistinctNames(comps)
    ensures forall i: nat :: i in front <==> i < |comps| && NeedsNone(comps, lates, i)
  {
    set i: nat | i < |comps| && NeedsNone(comps, lates, i)
  }

  ghost predicate NeedsNone(comps: seq<Component>, lates: set<nat>, i: nat)
    requires DistinctNames(comps)
  {
    forall e | e in lates :: !Needs(comps, i, e)
  }

  /** Of what has to be late, nothing that takes an interface needs any other, and only one takes
      an interface itself. */
  lemma LatesAreLast(comps: seq<Component>, h: nat, implements: Implements, q: nat, c: nat, e: nat, r: nat)
    requires DistinctNames(comps) && HeadFirst(comps, h) && Harmful(comps, h, implements, q, c)
    requires e in Lates(comps, implements, q) && r < |comps| && r != e && ConsumesInterface(comps[r])
    ensures !Needs(comps, r, e) && h <= e < |comps|
    ensures r in Lates(comps, implements, q) ==> !ConsumesInterface(comps[e])
  {
    hide DistinctNames, ConsumesInterface, IsError, Needs;
    NeitherFixed(comps, h, q, c);
    if e != q {
      assert !Fixed(comps, h, e, r);
      if c != e {
        assert !Fixed(comps, h, e, c);
      }
    } else {
      assert !Fixed(comps, h, q, r);
    }
  }

  lemma HeadNeedsNone(comps: seq<Component>, h: nat, implements: Implements, q: nat, c: nat)
    requires DistinctNames(comps) && HeadFirst(comps, h) && Harmful(comps, h, implements, q, c)
    ensures forall i: nat | i < h :: i in NeedNone(comps, Lates(comps, implements, q))
    ensures NeedNone(comps, Lates(comps, implements, q)) <= NeedNone(comps, Idle(comps, Lates(comps, implements, q)))
  {
    var lates := Lates(comps, implements, q);
    hide DistinctNames, ConsumesInterface, IsError, Needs, ErrorsFeasible, ErrorsFirst, ConsumerLater;
    NeitherFixed(comps, h, q, c);
    forall i: nat, e | i < h && e in lates ensures !Needs(comps, i, e) {
      if c != e {
        LatesAreLast(comps, h, implements, q, c, e, c);
      }
    }
    forall i | i in NeedNone(comps, lates) ensures i in NeedNone(comps, Idle(comps, lates)) {
    }
  }

  /** In an order that has first what needs nothing late, and then what needs nothing late that
      takes no interface, nothing that takes an interface comes after something late. */
  lemma LatesComeLast(comps: seq<Component>, comps': seq<Component>, b: Bijection, h: nat, implements: Implements,
                      q: nat, c: nat, e: nat, r: nat)
    requires Matched(comps, comps', b) && DistinctNames(comps) && DistinctNames(comps') && Viable(comps)
    requires HeadFirst(comps, h) && Harmful(comps, h, implements, q, c)
    requires FrontComesFirst(b.to, NeedNone(comps, Lates(comps, implements, q)))
    requires FrontComesFirst(b.to, NeedNone(comps, Idle(comps, Lates(comps, implements, q))))
    requires e in Lates(comps, implements, q) && r < |comps| && r != e && ConsumesInterface(comps[r])
    ensures e < |b.from| && r < |b.from| && b.from[e] < |comps'| && b.from[r] < |comps'|
    ensures !Before(Schedule(comps'), comps'[b.from[e]].name, comps'[b.from[r]].name)
  {
    var lates := Lates(comps, implements, q);
    CallOrderIsDistinct(comps', InferredEdges(comps'));
    ScheduleIsCallOrder(comps');
    LatesAreLast(comps, h, implements, q, c, e, r);
    hide Matched, DistinctNames, Viable, Needs, Before, Schedule, ConsumesInterface, CallOrder, InferredEdges, Harmful,
      HeadFirst, FrontComesFirst;
    if r in lates {
      var front := NeedNone(comps, Idle(comps, lates));
      forall e' | e' in Idle(comps, lates) ensures !Needs(comps, r, e') {
        LatesAreLast(comps, h, implements, q, c, e', r);
      }
      assert NeedsNone(comps, Idle(comps, lates), r);
      FrontIsBefore(comps, comps', b, front, r, e);
    } else {
      var front := NeedNone(comps, lates);
      forall e' | e' in lates ensures !Needs(comps, r, e') {
        LatesAreLast(comps, h, implements, q, c, e', r);
      }
      assert NeedsNone(comps, lates, r);
      FrontIsBefore(comps, comps', b, front, r, e);
    }
    OneWayOnly(Schedule(comps'), comps'[b.from[r]].name, comps'[b.from[e]].name);
  }

  /** With everything late in its place, no nil is in the way. */
  lemma LateOrderIsCalm(s: Stage, c: nat, comps: seq<Component>, b: Bijection)
    requires Staged(s) && Rearranged(s.comps, comps, b) && DistinctNames(s.comps) && Viable(s.comps)
    requires HeadFirst(s.comps, FRAMEWORK) && Harmful(s.comps, FRAMEWORK, s.implements, s.actor, c)
    requires FrontComesFirst(b.to, NeedNone(s.comps, Lates(s.comps, s.implements, s.actor)))
    requires FrontComesFirst(b.to, NeedNone(s.comps, Idle(s.comps, Lates(s.comps, s.implements, s.actor))))
    ensures DistinctNames(comps) && NilsLate(comps)
  {
    RestagedIsStaged(s, comps, b);
    MatchedIsDistinct(s.comps, comps, b);
    MatchedHasLength(s.comps, comps, b);
    StagedParts(s);
    BackInRange(s.comps, comps, b, s.actor);
    var s' := Restaged(s, comps, b);
    hide Staged, Rearranged, DistinctNames, HeadFirst, Harmful, Viable, Matched, Schedule, Before, ConsumesInterface,
      FrontComesFirst, NeedNone, Idle, NilsLate, ProperParameters, ActFits, ErrorType;
    forall i, r | 0 <= i < |comps| && 0 <= r < |comps| && i != r && ConsumesInterface(comps[r])
        && (IsError(s.implements, comps[i]) || (i == s'.actor && exists args :: s'.act(args) == Success(Nil)))
      ensures !Before(Schedule(comps), comps[i].name, comps[r].name)
    {
      InRange(s.comps, comps, b, i);
      InRange(s.comps, comps, b, r);
      SameConsumer(s.comps[b.to[r]], comps[r]);
      assert b.to[i] != b.to[r];
      LatesComeLast(s.comps, comps, b, FRAMEWORK, s.implements, s.actor, c, b.to[i], b.to[r]);
    }
    NilsAreLate(s');
  }

  /** With the actor in front a component that takes an interface fails; after them all, it does no harm. */
  lemma NilsDiffer(s: Stage, c: nat, comps: seq<Component>, b: Bijection, comps': seq<Component>, b': Bijection)
    requires Staged(s) && s.act == ReturnNil() && Rearranged(s.comps, comps, b) && Rearranged(s.comps, comps', b')
    requires DistinctNames(s.comps) && Viable(s.comps) && HeadFirst(s.comps, FRAMEWORK)
    requires Harmful(s.comps, FRAMEWORK, s.implements, s.actor, c)
    requires BringsToFront(b, |s.comps|, HeadAnd(FRAMEWORK, s.actor), FRAMEWORK)
    requires FrontComesFirst(b'.to, NeedNone(s.comps, Lates(s.comps, s.implements, s.actor)))
    requires FrontComesFirst(b'.to, NeedNone(s.comps, Idle(s.comps, Lates(s.comps, s.implements, s.actor))))
    ensures AllRunsDiffer(s.implements, comps, b, comps', b')
  {
    RestagedIsStaged(s, comps, b);
    RestagedIsStaged(s, comps', b');
    LateOrderIsCalm(s, c, comps', b');
    NeitherFixed(s.comps, FRAMEWORK, s.actor, c);
    hide Staged, Rearranged, Viable, HeadFirst, Matched, DistinctNames, Needs, BringsToFront, Before, Schedule,
      FreshRun, ConsumesInterface, ConsumerLater, ReturnNil, Fixed, ErrorsFeasible, ErrorsFirst, IsError, NilsLate,
      FrontComesFirst, NeedNone, Idle, Lates;
    ViableCarries(s.comps, comps', b');
    BackInRange(s.comps, comps, b, s.actor);
    BackInRange(s.comps, comps, b, c);
    OneIsBefore(s.comps, comps, b, FRAMEWORK, s.actor, c);
    InRange(s.comps, comps, b, b.from[s.actor]);
    InRange(s.comps, comps, b, b.from[c]);
    SameConsumer(s.comps[c], comps[b.from[c]]);
    forall calls, err, calls', err' | FreshRun(comps, s.implements, calls, err)
      && FreshRun(comps', s.implements, calls', err')
      ensures EndDifferently(comps, b, calls, err, comps', b', calls', err')
    {
      NilBringsFailure(Restaged(s, comps, b), calls, err, b.from[c]);
      LateNilIsHarmless(Restaged(s, comps', b'), calls', err');
    }
  }

  /** A result that may be nil, before or after a search for an interface: two orders differ. */
  lemma NilsMatter(context: Value, factory: Value, ctors: seq<Constructor>, implements: Implements)
    requires Asked(context, factory, ctors, implements)
    requires CanSucceed(Parts(context, factory, ctors), FRAMEWORK, implements)
    requires !NilsOrdered(Parts(context, factory, ctors), FRAMEWORK)
    ensures TwoOrdersDiffer(ctors, implements)
  {
    hide *;
    var comps, types := AskedParts(context, factory, ctors, implements);
    var q, c := HarmfulNil(comps, FRAMEWORK, implements);
    HarmfulIsBehind(comps, FRAMEWORK, implements, q, c);
    NilFits(implements, comps[q]);
    var p := PlayOf(context, factory, ctors, implements, types, q, ReturnNil());
    HarmfulInShape(comps, StageOf(p).comps, FRAMEWORK, implements, q, c);
    NilStageDiffers(p, c);
  }

  lemma HarmfulIsBehind(comps: seq<Component>, h: nat, implements: Implements, q: nat, c: nat)
    requires DistinctNames(comps) && HeadFirst(comps, h) && Harmful(comps, h, implements, q, c)
    ensures h <= q < |comps| && ProducesInterface(comps[q])
  {
    hide DistinctNames, HeadFirst, Fixed, ErrorsFeasible, ErrorsFirst, ConsumerLater;
    NeitherFixed(comps, h, q, c);
  }

  lemma NilFits(implements: Implements, c: Component)
    requires ProducesInterface(c)
    ensures ActFits(implements, ReturnNil(), c.produces)
  {
  }

  lemma NilStageDiffers(p: Play, c: nat)
    requires Playable(p) && p.act == ReturnNil() && DistinctNames(StageOf(p).comps)
    requires Viable(StageOf(p).comps) && HeadFirst(StageOf(p).comps, FRAMEWORK)
    requires Harmful(StageOf(p).comps, FRAMEWORK, p.implements, p.actor, c)
    ensures TwoOrdersDiffer(p.ctors, p.implements)
  {
    hide *;
    PlayLength(p);
    HeadIsInFront(FRAMEWORK, p.actor);
    var s := StageOf(p);
    HeadNeedsNone(s.comps, FRAMEWORK, p.implements, p.actor, c);
    var front := NeedNone(s.comps, Lates(s.comps, p.implements, p.actor));
    var wider := NeedNone(s.comps, Idle(s.comps, Lates(s.comps, p.implements, p.actor)));
    var a, b, comps, comps' := TwoEntries(p, HeadAnd(FRAMEWORK, p.actor), front, wider);
    FrontOf(b, |p.types|, front, FRAMEWORK);
    NilsDiffer(s, c, comps, a, comps', b);
    PlayDiffers(p, a, b, comps, comps');
  }

  lemma FrontOf(b: Bijection, n: nat, front: set<nat>, h: nat)
    requires BringsToFront(b, n, front, h)
    ensures FrontComesFirst(b.to, front)
  {
  }

  // ---------------------------------------------------------------- other implementers

  lemma OtherImplementerFound(comps: seq<Component>, h: nat, implements: Implements)
      returns (q: nat, c: nat, j: nat, d: Type)
    requires DistinctNames(comps) && !ImplementersOrdered(comps, h, implements)
    ensures q < |comps| && c < |comps| && q != c && !Fixed(comps, h, c, q)
    ensures j < |comps[c].consumes| && comps[c].consumes[j].Interface?
    ensures comps[q].produces.Some? && comps[q].produces.value != comps[c].consumes[j]
    ensures Fits(implements, d, comps[q].produces.value) && implements(d, comps[c].consumes[j])
  {
    hide DistinctNames, Fixed, Fits;
    var x, y, t :| 0 <= x < |comps| && 0 <= y < |comps| && x != y
      && OtherMayImplement(implements, comps[x], comps[y], t) && !Fixed(comps, h, y, x);
    q, c := x, y;
    j :| 0 <= j < |comps[y].consumes| && comps[y].consumes[j] == t;
    d :| Fits(implements, d, comps[x].produces.value) && implements(d, t);
  }

  /** The components of the framework take no interface of which there are other implementers. */
  lemma TakesInterfaceBehind(context: Value, factory: Value, ctors: seq<Constructor>, q: nat, c: nat, j: nat)
    requires AllUsable(Whole(context, factory, ctors)) && DistinctNames(Parts(context, factory, ctors))
    requires q < |Parts(context, factory, ctors)| && c < |Parts(context, factory, ctors)| && q != c
    requires !Fixed(Parts(context, factory, ctors), FRAMEWORK, c, q) && j < |Parts(context, factory, ctors)[c].consumes|
    requires Parts(context, factory, ctors)[q].produces != Some(Parts(context, factory, ctors)[c].consumes[j])
    ensures FRAMEWORK <= c
  {
    FrameworkTakes(context, factory, ctors);
    hide Parts, DistinctNames, Needs;
  }

  lemma ChooseFits(implements: Implements, c: Component, d: Type, j: nat, tag: string, other: string)
    requires TypeFits(implements, c, d)
    ensures ActFits(implements, Choose(implements, c.produces, d, j, tag, other), c.produces)
  {
  }

  /** The given types, but d for all components that produce u. */
  ghost function TypesWith(comps: seq<Component>, types: seq<Type>, u: Type, d: Type): (r: seq<Type>)
    requires |types| == |comps|
    ensures |r| == |comps|
    ensures forall i | 0 <= i < |comps| :: r[i] == if comps[i].produces == Some(u) then d else types[i]
  {
    seq(|comps|, i requires 0 <= i < |comps| => if comps[i].produces == Some(u) then d else types[i])
  }

  lemma TypesFitWith(implements: Implements, comps: seq<Component>, types: seq<Type>, u: Type, d: Type)
    requires TypesFit(implements, comps, types) && Fits(implements, d, u)
    ensures TypesFit(implements, comps, TypesWith(comps, types, u, d))
  {
    hide TypesWith;
    forall i | 0 <= i < |comps| ensures TypeFits(implements, comps[i], TypesWith(comps, types, u, d)[i]) {
      assert TypeFits(implements, comps[i], types[i]);
    }
  }

  /** An interface that some other component may implement before it is taken: one order has
      runs that differ. */
  lemma ImplementersMatter(context: Value, factory: Value, ctors: seq<Constructor>, implements: Implements)
    requires Asked(context, factory, ctors, implements)
    requires CanSucceed(Parts(context, factory, ctors), FRAMEWORK, implements)
    requires NilsOrdered(Parts(context, factory, ctors), FRAMEWORK)
    requires !ImplementersOrdered(Parts(context, factory, ctors), FRAMEWORK, implements)
    ensures OneOrderDiffers(ctors, implements)
  {
    hide *;
    var comps, types := AskedParts(context, factory, ctors, implements);
    var q, c, j, d := OtherImplementerFound(comps, FRAMEWORK, implements);
    TakesInterfaceBehind(context, factory, ctors, q, c, j);
    var x := TheProducerAt(comps, c, j);
    ProducerIsNoError(comps, FRAMEWORK, implements, x, c, j);
    FitsType(implements, comps[q], d);
    var u := comps[q].produces.value;
    var types' := TypesWith(comps, types, u, d);
    TypesFitWith(implements, comps, types, u, d);
    TypeFitsAt(implements, comps, types', c);
    var act := Choose(implements, comps[c].produces, types'[c], j, Decimal(x), Decimal(c));
    ChooseFits(implements, comps[c], types'[c], j, Decimal(x), Decimal(c));
    var p := PlayOf(context, factory, ctors, implements, types', c, act);
    ErrorsComeFirst(comps, FRAMEWORK, implements);
    ErrorsFirstInShape(comps, StageOf(p).comps, FRAMEWORK, implements);
    PlayIsChoosing(comps, p, j, x, q);
    ChoosingPlayDiffers(p, j, x, q);
  }

  lemma FitsType(implements: Implements, c: Component, d: Type)
    requires c.produces.Some? && Fits(implements, d, c.produces.value)
    ensures TypeFits(implements, c, d) && !IsError(implements, c)
  {
    hide ErrorType;
  }

  /** What takes an interface of errors would always find a nil. */
  lemma ProducerIsNoError(comps: seq<Component>, h: nat, implements: Implements, x: nat, c: nat, j: nat)
    requires DistinctNames(comps) && ErrorsFeasible(comps, h, implements) && x < |comps| && c < |comps| && x != c
    requires j < |comps[c].consumes| && comps[c].consumes[j].Interface?
    requires comps[x].produces == Some(comps[c].consumes[j])
    ensures !IsError(implements, comps[x])
  {
    var t := comps[c].consumes[j];
    FeedsIsEdge(comps, x, c, t);
    EdgeReaches(InferredEdges(comps), comps[c].name, comps[x].name);
    hide DistinctNames, InferredEdges, IsError, Reaches;
    assert t in comps[c].consumes && IsInterface(t);
    assert Fixed(comps, h, x, c);
  }

  lemma TheProducerAt(comps: seq<Component>, c: nat, j: nat) returns (x: nat)
    requires DistinctNames(comps) && UniqueSingles(comps) && c < |comps| && j < |comps[c].consumes|
    requires comps[c].consumes[j].Interface?
    ensures x < |comps| && x != c && comps[x].produces == Some(comps[c].consumes[j])
    ensures forall i | 0 <= i < |comps| && i != c && comps[i].produces == Some(comps[c].consumes[j]) :: i == x
  {
    assert comps[c] in comps && comps[c].consumes[j] in comps[c].consumes;
    UniqueAt(comps, comps[c], comps[c].consumes[j]);
    hide DistinctNames, UniqueSingles, Producers;
    x := OneProducer(comps, c, comps[c].consumes[j]);
    forall i | 0 <= i < |comps| && i != c && comps[i].produces == Some(comps[c].consumes[j]) ensures i == x {
      assert Feeds(comps, i, c, comps[c].consumes[j]);
    }
  }

  lemma PlayIsChoosing(comps: seq<Component>, p: Play, j: nat, x: nat, q: nat)
    requires Playable(p) && SameShape(comps, StageOf(p).comps) && DistinctNames(comps)
    requires p.actor < |comps| && j < |comps[p.actor].consumes| && comps[p.actor].consumes[j].Interface?
    requires x < |comps| && q < |comps| && x != p.actor && q != p.actor && q < |p.types| && p.actor < |p.types|
    requires comps[x].produces == Some(comps[p.actor].consumes[j]) && |p.types| == |comps|
    requires forall i | 0 <= i < |comps| && i != p.actor && comps[i].produces == Some(comps[p.actor].consumes[j]) ::
      i == x
    requires comps[q].produces.Some? && comps[q].produces.value != comps[p.actor].consumes[j]
    requires forall i | 0 <= i < |comps| && comps[i].produces == comps[q].produces ::
               p.implements(p.types[i], comps[p.actor].consumes[j])
    requires p.act == Choose(p.implements, comps[p.actor].produces, p.types[p.actor], j, Decimal(x), Decimal(p.actor))
    requires FRAMEWORK <= |comps| && !Fixed(comps, FRAMEWORK, p.actor, q)
    requires DistinctNames(StageOf(p).comps) && x != q
    requires !IsError(p.implements, comps[x]) && !IsError(p.implements, comps[q])
    ensures Choosing(StageOf(p), j, x, q) && !Fixed(StageOf(p).comps, FRAMEWORK, p.actor, q)
  {
    hide *;
    var s := StageOf(p);
    PlayIsStaged(p);
    PlayLength(p);
    forall i | 0 <= i < |comps|
      ensures |s.comps| == |comps| && s.comps[i].consumes == comps[i].consumes
      ensures s.comps[i].produces == comps[i].produces
    {
      ShapeParts(comps, s.comps, i);
    }
    ShapeFixes(comps, s.comps, FRAMEWORK, p.actor, q);
    SameError(p.implements, comps[x], s.comps[x]);
    SameError(p.implements, comps[q], s.comps[q]);
    ItIsChoosing(s, j, x, q);
  }

  lemma ShapeParts(comps: seq<Component>, comps': seq<Component>, i: nat)
    requires SameShape(comps, comps') && i < |comps|
    ensures |comps'| == |comps| && comps'[i].consumes == comps[i].consumes && comps'[i].produces == comps[i].produces
  {
    hide SameShape;
    ShapeAt(comps, comps', i);
  }

  lemma SameError(implements: Implements, c: Component, c': Component)
    requires c.produces == c'.produces
    ensures IsError(implements, c) <==> IsError(implements, c')
  {
    hide ErrorType;
  }

  lemma ItIsChoosing(s: Stage, j: nat, x: nat, q: nat)
    requires Staged(s) && x < |s.comps| && q < |s.comps| && s.actor < |s.comps| && x != s.actor && q != s.actor
    requires j < |s.comps[s.actor].consumes| && s.comps[s.actor].consumes[j].Interface?
    requires s.comps[x].produces == Some(s.comps[s.actor].consumes[j]) && |s.types| == |s.comps|
    requires forall i | 0 <= i < |s.comps| && i != s.actor
             && s.comps[i].produces == Some(s.comps[s.actor].consumes[j]) ::
               i == x
    requires s.comps[q].produces.Some? && s.comps[q].produces.value != s.comps[s.actor].consumes[j]
    requires forall i | 0 <= i < |s.comps| && s.comps[i].produces == s.comps[q].produces ::
               s.implements(s.types[i], s.comps[s.actor].consumes[j])
    requires s.tags == Positions(|s.types|)
    requires !IsError(s.implements, s.comps[x]) && !IsError(s.implements, s.comps[q])
    requires s.act == Choose(s.implements, s.comps[s.actor].produces, s.types[s.actor], j, Decimal(x), Decimal(s.actor))
    ensures Choosing(s, j, x, q)
  {
    hide Staged, Choose, Decimal, IsError;
  }

  /** What stands in the reordered stage where x has gone. */
  lemma RestagedAt(s: Stage, comps: seq<Component>, b: Bijection, x: nat)
    requires Staged(s) && Rearranged(s.comps, comps, b) && x < |s.comps|
    ensures s.actor < |b.from| && x < |b.from| && b.from[x] < |comps| && b.from[s.actor] < |comps|
    ensures |b.from| == |comps| && Alike(s.comps[x], comps[b.from[x]])
    ensures x != s.actor ==> b.from[x] != b.from[s.actor]
    ensures var s' := Restaged(s, comps, b);
            && |s'.types| == |s'.tags| == |comps| && s'.actor == b.from[s.actor] && x < |s.tags| && x < |s.types|
            && s'.tags[b.from[x]] == s.tags[x] && s'.types[b.from[x]] == s.types[x]
  {
    StagedParts(s);
    RearrangedMatches(s.comps, comps, b);
    hide Staged, DistinctNames, ProperParameters, ActFits, Rearranged;
    BackInRange(s.comps, comps, b, x);
    BackInRange(s.comps, comps, b, s.actor);
    InRange(s.comps, comps, b, b.from[x]);
  }

  lemma OnlyHereMoves(s: Stage, comps: seq<Component>, b: Bijection, x: nat, t: Type)
    requires Staged(s) && Rearranged(s.comps, comps, b) && x < |s.comps| && OnlyHere(s, x, t)
    ensures x < |b.from| && OnlyHere(Restaged(s, comps, b), b.from[x], t)
  {
    RestagedAt(s, comps, b, x);
    RearrangedMatches(s.comps, comps, b);
    hide Staged, Rearranged, Matched;
    var s' := Restaged(s, comps, b);
    forall i | 0 <= i < |comps| && i != s'.actor && comps[i].produces == Some(t) ensures i == b.from[x] {
      InRange(s.comps, comps, b, i);
      assert s.comps[b.to[i]].produces == Some(t);
    }
  }

  lemma AllImplementMoves(s: Stage, comps: seq<Component>, b: Bijection, t: Type, iface: Type)
    requires Staged(s) && Rearranged(s.comps, comps, b) && AllImplement(s, t, iface)
    ensures AllImplement(Restaged(s, comps, b), t, iface)
  {
    RearrangedMatches(s.comps, comps, b);
    hide Staged, Rearranged, Matched;
    var s' := Restaged(s, comps, b);
    forall i | 0 <= i < |comps| && i != s'.actor && comps[i].produces == Some(t)
      ensures s'.implements(s'.types[i], iface)
    {
      InRange(s.comps, comps, b, i);
      assert s.comps[b.to[i]].produces == Some(t);
    }
  }

  lemma ChoosingMoves(s: Stage, j: nat, x: nat, q: nat, comps: seq<Component>, b: Bijection)
    requires Choosing(s, j, x, q) && Rearranged(s.comps, comps, b)
    ensures Staged(s) && x < |b.from| && q < |b.from| && Choosing(Restaged(s, comps, b), j, b.from[x], b.from[q])
    ensures s.actor < |b.from| && b.from[q] < |comps| && b.from[s.actor] < |comps| && |b.from| == |comps|
    ensures var s' := Restaged(s, comps, b);
            |s'.tags| == |comps| && s'.actor == b.from[s.actor] && x < |s.tags| && s'.tags[b.from[x]] == s.tags[x]
  {
    ChoosingParts(s, j, x, q);
    RestagedIsStaged(s, comps, b);
    RestagedAt(s, comps, b, x);
    RestagedAt(s, comps, b, q);
    RestagedAt(s, comps, b, s.actor);
    var t := s.comps[s.actor].consumes[j];
    OnlyHereMoves(s, comps, b, x, t);
    AllImplementMoves(s, comps, b, s.comps[q].produces.value, t);
    hide Staged, Rearranged, Matched, OnlyHere, AllImplement, ActsAs, Choose, ErrorType, DistinctNames;
  }

  lemma ChoosingIsCalm(s: Stage, j: nat, x: nat, q: nat)
    requires Choosing(s, j, x, q)
    ensures NilIsError(s)
  {
    ChoosingParts(s, j, x, q);
    hide Choosing, Staged;
  }

  lemma ChoosersDiffer(s: Stage, j: nat, x: nat, q: nat, comps: seq<Component>, b: Bijection)
    requires Choosing(s, j, x, q) && Rearranged(s.comps, comps, b)
    requires DistinctNames(s.comps) && Viable(s.comps) && HeadFirst(s.comps, FRAMEWORK)
    requires ErrorsFirst(s.comps, FRAMEWORK, s.implements)
    requires FRAMEWORK <= s.actor < |s.comps| && q < |s.comps| && !Fixed(s.comps, FRAMEWORK, s.actor, q)
    requires BringsToFront(b, |s.comps|, HeadAnd(FRAMEWORK, q), FRAMEWORK)
    ensures SomeRunsDiffer(s.implements, comps, b, comps, b)
  {
    ChoosingParts(s, j, x, q);
    ChoosingMoves(s, j, x, q, comps, b);
    RearrangedMatches(s.comps, comps, b);
    MatchedHasLength(s.comps, comps, b);
    NotNeeded(s.comps, FRAMEWORK, s.actor, q);
    ChoosingIsCalm(s, j, x, q);
    hide Choosing, Staged, Rearranged, Viable, HeadFirst, Matched, DistinctNames, Needs, Before, Schedule, Reports,
      ValuesDiffer, FreshRun, IsBijection, KeepsHead, HeadAnd, Fixed, ErrorsFirst, NilsLate, NilIsError,
        FrontComesFirst, Quiet;
    CalmInOrder(s, comps, b, FRAMEWORK);
    ViableCarries(s.comps, comps, b);
    FrontIsBefore(s.comps, comps, b, HeadAnd(FRAMEWORK, q), q, s.actor);
    var s' := Restaged(s, comps, b);
    var calls, err, calls', err' := BothChoices(s', j, b.from[x], b.from[q]);
    if err'.None? {
      ReportsDiffer(s, comps, b, calls, s'.tags[b.from[x]], comps, b, calls', s'.tags[s'.actor]);
    }
    assert EndDifferently(comps, b, calls, err, comps, b, calls', err');
  }

  lemma NotNeeded(comps: seq<Component>, h: nat, c: nat, q: nat)
    requires DistinctNames(comps) && HeadFirst(comps, h) && h <= c < |comps| && q < |comps| && q != c
    requires !Fixed(comps, h, c, q)
    ensures forall m: nat | m in HeadAnd(h, q) :: !Needs(comps, m, c)
  {
    hide DistinctNames, Needs;
  }

  lemma ChoosingPlayDiffers(p: Play, j: nat, x: nat, q: nat)
    requires Playable(p) && Choosing(StageOf(p), j, x, q)
    requires DistinctNames(StageOf(p).comps) && Viable(StageOf(p).comps) && HeadFirst(StageOf(p).comps, FRAMEWORK)
    requires ErrorsFirst(StageOf(p).comps, FRAMEWORK, p.implements)
    requires !Fixed(StageOf(p).comps, FRAMEWORK, p.actor, q)
    ensures OneOrderDiffers(p.ctors, p.implements)
  {
    hide *;
    var s := StageOf(p);
    ChoosingParts(s, j, x, q);
    PlayLength(p);
    HeadIsInFront(FRAMEWORK, q);
    var a, b, comps, comps' := TwoEntries(p, HeadAnd(FRAMEWORK, q), HeadAnd(FRAMEWORK, q), HeadAnd(FRAMEWORK, q));
    ChoosersDiffer(s, j, x, q, comps, a);
    PlayHasTwoRuns(p, a, b, comps, comps');
  }

  lemma PlayHasTwoRuns(p: Play, a: Bijection, b: Bijection, comps: seq<Component>, comps': seq<Component>)
    requires Playable(p) && Scriptable(p)
    requires IsEntry(ContestOf(p, a, b), a, comps) && IsEntry(ContestOf(p, a, b), b, comps')
    requires SomeRunsDiffer(p.implements, comps, a, comps, a)
    ensures OneOrderDiffers(p.ctors, p.implements)
  {
    EntryIsOrder(p, a, b, a, comps);
    EntryIsOrder(p, a, b, b, comps');
    hide Playable, IsEntry, SomeRunsDiffer, Script, IsBijection, KeepsHead, SameSignatures, IsContest;
    PlayIsContest(p, a, b);
    assert ContestOf(p, a, b).first == a;
  }

  // ---------------------------------------------------------------- the exact condition

  /** Slices or nil results that signatures leave open make two orders end differently, in all their runs. */
  lemma SomeOrderMatters(context: Value, factory: Value, ctors: seq<Constructor>, implements: Implements)
    requires Asked(context, factory, ctors, implements)
    requires CanSucceed(Parts(context, factory, ctors), FRAMEWORK, implements)
    requires !(SlicesOrdered(Parts(context, factory, ctors), FRAMEWORK)
             && NilsOrdered(Parts(context, factory, ctors), FRAMEWORK))
    ensures TwoOrdersDiffer(ctors, implements)
  {
    hide *;
    var comps, types := AskedParts(context, factory, ctors, implements);
    if NilsOrdered(comps, FRAMEWORK) {
      SlicesMatter(context, factory, ctors, implements);
    } else {
      NilsMatter(context, factory, ctors, implements);
    }
  }

  /** The order of registration never matters, whatever the Apply methods do, exactly when the
      components can succeed in no order or their signatures leave nothing to it. */
  lemma OrderNeverMattersExactly(context: Value, factory: Value, ctors: seq<Constructor>, implements: Implements)
    requires Asked(context, factory, ctors, implements)
    ensures OrderNeverMatters(ctors, implements) <==> NothingLeftToOrder(Parts(context, factory, ctors), implements)
  {
    if NothingLeftToOrder(Parts(context, factory, ctors), implements) {
      hide IsTrial, TrialEndsAlike, SameSignatures, NothingLeftToOrder, ProperParameters, Inhabited, DistinctNames;
      forall t: Trial | SameSignatures(ctors, t.ctors) && IsTrial(t, implements) ensures TrialEndsAlike(t) {
        TrialOfOrderedEndsAlike(context, factory, ctors, implements, t);
      }
    } else {
      hide OrderNeverMatters, SlicesOrdered, NilsOrdered, ImplementersOrdered, CanSucceed, Asked, Parts,
        TwoOrdersDiffer, OneOrderDiffers;
      if SlicesOrdered(Parts(context, factory, ctors), FRAMEWORK)
        && NilsOrdered(Parts(context, factory, ctors), FRAMEWORK) {
        ImplementersMatter(context, factory, ctors, implements);
        OneOrderRefutes(ctors, implements);
      } else {
        SomeOrderMatters(context, factory, ctors, implements);
        TwoOrdersRefute(ctors, implements);
      }
    }
  }

  /** Where no other implementer of an interface gets in between, two orders of registration can
      end differently exactly when signatures that can succeed leave slices or nil results to it. */
  lemma OrdersDifferExactly(context: Value, factory: Value, ctors: seq<Constructor>, implements: Implements)
    requires Asked(context, factory, ctors, implements)
    requires ImplementersOrdered(Parts(context, factory, ctors), FRAMEWORK, implements)
    ensures TwoOrdersDiffer(ctors, implements) <==>
            && CanSucceed(Parts(context, factory, ctors), FRAMEWORK, implements)
            && !(SlicesOrdered(Parts(context, factory, ctors), FRAMEWORK)
              && NilsOrdered(Parts(context, factory, ctors), FRAMEWORK))
  {
    hide OrderNeverMatters, SlicesOrdered, NilsOrdered, ImplementersOrdered, CanSucceed, Components, Whole,
      TwoOrdersDiffer, ProperParameters, Inhabited, DistinctNames, AllUsable;
    if TwoOrdersDiffer(ctors, implements) {
      TwoOrdersRefute(ctors, implements);
      OrderNeverMattersExactly(context, factory, ctors, implements);
    } else if CanSucceed(Parts(context, factory, ctors), FRAMEWORK, implements)
        && !(SlicesOrdered(Parts(context, factory, ctors), FRAMEWORK)
          && NilsOrdered(Parts(context, factory, ctors), FRAMEWORK)) {
      SomeOrderMatters(context, factory, ctors, implements);
    }
  }
}
