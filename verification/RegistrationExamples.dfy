/** Constructors whose order of registration matters: a consumer of the first element of a
    slice, a component that returns a nil error beside one that takes the context, and a second
    implementer of an interface. */
module RegistrationExamples {
  import opened Options
  import opened Graph
  import opened DepthFirst
  import opened CompositeModel
  import opened CompositeOrder
  import opened CompositeValues
  import opened CompositeSuccess
  import opened CompositeRearrangement
  import opened CompositePrecedence
  import opened CompositeRegistration
  import opened CompositeRegistry
  import opened Reordering
  import opened Staging
  import opened RegistrationOrder
  import opened OrderMatters

  // ---------------------------------------------------------------- components that need earlier ones only

  ghost predicate NeedsEarlierOnly(comps: seq<Component>) {
    forall i, k, t | 0 <= k < |comps| && t in comps[k].consumes && Feeds(comps, i, k, Wanted(t)) :: i < k
  }

  /** They are called in the order of registration, and there is no cycle. */
  lemma CalledAsRegistered(comps: seq<Component>)
    requires DistinctNames(comps) && NeedsEarlierOnly(comps)
    ensures NoCycle(comps)
    ensures forall i, k | 0 <= i < k < |comps| :: Before(Schedule(comps), comps[i].name, comps[k].name)
  {
    var edges, roots := InferredEdges(comps), Registered(comps);
    RegisteredDistinct(comps);
    hide InferredEdges, DistinctNames, Reaches;
    forall k, d | 0 <= k < |roots| && d in Deps(edges, roots[k]) ensures d in roots[..k] {
      var i, t := EdgeOfPosition(comps, k, d);
      assert roots[..k][i] == comps[i].name;
    }
    RootsInOrder(edges, roots);
    forall c | c in comps ensures !ReachesCycle(edges, c.name) {
      var i :| 0 <= i < |comps| && comps[i] == c;
      assert roots[i] == c.name;
      TopologicalAvoidsCycles(edges, roots, c.name);
    }
    hide Search, Topological, ReachesCycle;
    forall i, k | 0 <= i < k < |comps| ensures Before(Schedule(comps), comps[i].name, comps[k].name) {
      NameAt(comps, i);
      NameAt(comps, k);
      assert roots[..k][i] == comps[i].name;
      BeforeAt(roots, comps[i].name, k);
      KnownBefore(comps, roots, comps[i].name, comps[k].name);
      ScheduleIsCallOrder(comps);
    }
  }

  /** Dynamic types for the context and the chart factory; the types of the examples are no errors. */
  ghost predicate FrameworkTypes(implements: Implements, d: Type, e: Type) {
    && Fits(implements, d, CONTEXT) && Fits(implements, e, CHART_FACTORY)
    && forall t | t in [ITEM, PICK, OUT, SQUARE] :: !ErrorType(implements, t)
  }

  function Context(d: Type): Value {
    Val(d, "context", 0)
  }

  function Factory(e: Type): Value {
    Val(e, "factory", 0)
  }

  // ---------------------------------------------------------------- the first element of a slice

  const ITEM := Concrete(0)
  const PICK := Concrete(1)

  function Maker(title: string): Constructor {
    Constructor(title, [], Some(ITEM), args => Success(Val(ITEM, title, 0)))
  }

  function FirstItem(): Act {
    (args: seq<Arg>) =>
      if 0 < |args| && args[0].Many? && ComesFirst(args[0].values, "a", "b") then Success(Val(PICK, "a", 0))
      else Success(Val(PICK, "b", 0))
  }

  /** Returns the rendering of whichever of two items comes first in the slice it is given. */
  function Chooser(): Constructor {
    Constructor("chooser", [Slice(0, ITEM)], Some(PICK), FirstItem())
  }

  function Choice(first: string, second: string): seq<Constructor> {
    [Maker(first), Maker(second), Chooser()]
  }

  ghost predicate EitherOrder(first: string, second: string) {
    (first == "a" && second == "b") || (first == "b" && second == "a")
  }

  function ChoiceComponents(d: Type, e: Type, first: string, second: string): (comps: seq<Component>)
    ensures |comps| == 5
  {
    Components(Whole(Context(d), Factory(e), Choice(first, second)))
  }

  lemma ChoiceParts(d: Type, e: Type, first: string, second: string)
    ensures var comps := ChoiceComponents(d, e, first, second);
            && DistinctNames(comps) && comps[4].name == IndexedName(4, "chooser")
            && comps[0].consumes == [] && comps[1].consumes == [CONTEXT] && comps[2].consumes == []
              && comps[3].consumes == []
            && comps[4].consumes == [Slice(0, ITEM)]
            && comps[0].produces == Some(CONTEXT) && comps[1].produces == Some(CHART_FACTORY)
            && comps[2].produces == comps[3].produces == Some(ITEM) && comps[4].produces == Some(PICK)
            && Tagged(comps[0], Context(d)) && Tagged(comps[1], Factory(e))
            && Tagged(comps[2], Val(ITEM, first, 0)) && Tagged(comps[3], Val(ITEM, second, 0))
            && comps[4].apply == FirstItem()
  {
    ComponentsHaveDistinctNames(Whole(Context(d), Factory(e), Choice(first, second)));
    hide IndexedName, DistinctNames, FirstItem;
  }

  ghost function ChoiceStage(implements: Implements, d: Type, e: Type, first: string, second: string): Stage {
    Stage(ChoiceComponents(d, e, first, second), implements, [d, e, ITEM, ITEM, PICK],
          ["context", "factory", first, second, "chooser"], 4, FirstItem())
  }

  /** Two producers of the context or none: one. */
  lemma OneContext(comps: seq<Component>, k: nat)
    requires DistinctNames(comps) && 0 < k < |comps| && comps[0].produces == Some(CONTEXT)
    requires forall i | 0 < i < |comps| :: comps[i].produces != Some(CONTEXT)
    ensures |Producers(comps, comps[k].name, CONTEXT)| == 1
  {
    assert OnlyFeeds(comps, 0, k, CONTEXT);
    hide DistinctNames, Producers, OnlyFeeds;
    OnlyProducerIsOne(comps, 0, k, CONTEXT);
  }

  lemma ChoiceIsViable(d: Type, e: Type, first: string, second: string)
    ensures var comps := ChoiceComponents(d, e, first, second);
            && DistinctNames(comps) && Viable(comps) && ProperParameters(comps)
            && Before(Schedule(comps), comps[2].name, comps[3].name)
  {
    var comps := ChoiceComponents(d, e, first, second);
    ChoiceParts(d, e, first, second);
    hide ChoiceComponents, DistinctNames, Tagged, Watch, Before, Schedule, Producers, IndexedName;
    OneContext(comps, 1);
    CalledAsRegistered(comps);
    assert forall c | c in comps :: c == comps[0] || c == comps[1] || c == comps[2] || c == comps[3] || c == comps[4];
  }

  lemma ChoiceIsWatched(implements: Implements, d: Type, e: Type, first: string, second: string)
    requires FrameworkTypes(implements, d, e) && EitherOrder(first, second)
    ensures var x, y := if first == "a" then 2 else 3, if first == "a" then 3 else 2;
            Watching(ChoiceStage(implements, d, e, first, second), 0, x, y)
  {
    ChoiceIsStaged(implements, d, e, first, second);
    ChoiceParts(d, e, first, second);
    hide ChoiceComponents, DistinctNames, Tagged, FirstItem, IndexedName, Staged, Watch;
    assert PICK in [ITEM, PICK, OUT, SQUARE];
    WatchActFits(implements);
  }

  lemma ChoiceIsStaged(implements: Implements, d: Type, e: Type, first: string, second: string)
    requires FrameworkTypes(implements, d, e) && EitherOrder(first, second)
    ensures Staged(ChoiceStage(implements, d, e, first, second))
  {
    ChoiceParts(d, e, first, second);
    ChoiceIsViable(d, e, first, second);
    hide ChoiceComponents, DistinctNames, Tagged, FirstItem, Viable, ProperParameters, Before, Schedule, IndexedName;
    var s := ChoiceStage(implements, d, e, first, second);
    assert ITEM in [ITEM, PICK, OUT, SQUARE] && PICK in [ITEM, PICK, OUT, SQUARE];
    forall i | 0 <= i < 5 && i != 4 ensures Cast(s.implements, s.comps[i], s.types[i], s.tags[i]) {
    }
    WatchActFits(implements);
    PartsAreStaged(s);
  }

  lemma WatchActFits(implements: Implements)
    requires !ErrorType(implements, PICK)
    ensures ActFits(implements, FirstItem(), Some(PICK))
    ensures ActsAs(FirstItem(), Watch(implements, Some(PICK), PICK, 0, "a", "b"))
  {
    hide ComesFirst;
  }

  /** Nothing fails and nothing is nil. */
  lemma ChoiceIsCalm(d: Type, e: Type, first: string, second: string)
    ensures var comps := ChoiceComponents(d, e, first, second);
            DistinctNames(comps) && NeverFails(comps) && NilsLate(comps)
  {
    ChoiceParts(d, e, first, second);
    var comps := ChoiceComponents(d, e, first, second);
    hide ChoiceComponents, DistinctNames, ComesFirst, IndexedName, Schedule, Before, ConsumesInterface;
    forall c, args | c in comps ensures c.apply(args).Success? && c.apply(args) != Success(Nil) {
      assert c == comps[0] || c == comps[1] || c == comps[2] || c == comps[3] || c == comps[4];
    }
  }

  /** The chooser reports the maker that was registered first. */
  lemma ChoiceReports(implements: Implements, d: Type, e: Type, first: string, second: string,
                      calls: seq<Call>, err: Option<CompositeError>)
    requires FrameworkTypes(implements, d, e) && EitherOrder(first, second)
    requires FreshRun(ChoiceComponents(d, e, first, second), implements, calls, err)
    ensures err.None? && Reports(ChoiceStage(implements, d, e, first, second), calls, first)
  {
    var s := ChoiceStage(implements, d, e, first, second);
    ChoiceSucceeds(implements, d, e, first, second, calls, err);
    ChoiceIsWatched(implements, d, e, first, second);
    ChoiceIsViable(d, e, first, second);
    ChoiceIsCalm(d, e, first, second);
    PickIsShown(implements, d, e, first, second);
    hide ChoiceComponents, DistinctNames, Watching, Viable, ProperParameters, Before, Schedule, FreshRun, Reports,
      NilsLate, NeverFails, Quiet, FrameworkTypes, FirstItem;
    if first == "a" {
      FirstIsReported(s, 0, 2, 3, calls, err);
    } else {
      SecondIsReported(s, 0, 3, 2, calls);
    }
  }

  lemma PickIsShown(implements: Implements, d: Type, e: Type, first: string, second: string)
    requires FrameworkTypes(implements, d, e)
    ensures !Quiet(implements, ChoiceComponents(d, e, first, second)[4].produces)
  {
    ChoiceParts(d, e, first, second);
    hide ChoiceComponents, DistinctNames, Tagged;
    assert PICK in [ITEM, PICK, OUT, SQUARE];
  }

  lemma ChoiceSucceeds(implements: Implements, d: Type, e: Type, first: string, second: string,
                       calls: seq<Call>, err: Option<CompositeError>)
    requires FrameworkTypes(implements, d, e) && EitherOrder(first, second)
    requires FreshRun(ChoiceComponents(d, e, first, second), implements, calls, err)
    ensures err.None?
  {
    var comps := ChoiceComponents(d, e, first, second);
    ChoiceIsWatched(implements, d, e, first, second);
    ChoiceIsViable(d, e, first, second);
    ChoiceIsCalm(d, e, first, second);
    hide ChoiceComponents, DistinctNames, ProperParameters, Before, Schedule, FreshRun, NilsLate, NeverFails, NoCycle,
      UniqueSingles, WellTyped, FrameworkTypes, FirstItem, Staged;
    StagedIsTyped(ChoiceStage(implements, d, e, first, second));
    ProperInterfacesProduced(comps);
    SucceedsExactly(comps, implements, calls, err);
  }

  /** The same three constructors, registered in two orders, always run without error and always
      leave different values. */
  lemma RegistrationOrderCanMatter(implements: Implements, d: Type, e: Type, calls: seq<Call>, calls': seq<Call>,
                                   err: Option<CompositeError>, err': Option<CompositeError>)
    requires FrameworkTypes(implements, d, e)
    requires FreshRun(ChoiceComponents(d, e, "a", "b"), implements, calls, err)
    requires FreshRun(ChoiceComponents(d, e, "b", "a"), implements, calls', err')
    ensures Reordered(Whole(Context(d), Factory(e), Choice("a", "b")), Whole(Context(d), Factory(e), Choice("b", "a")),
                      Bijection([0, 1, 3, 2, 4], [0, 1, 3, 2, 4]))
    ensures err.None? && err'.None?
    ensures var n := IndexedName(4, "chooser");
            n in ValuesOf(calls) && n in ValuesOf(calls') && ValuesOf(calls)[n] != ValuesOf(calls')[n]
  {
    hide FreshRun, ValuesOf, IndexedName, ChoiceComponents, Choice, Whole, Reordered, FrameworkTypes;
    ChoicesReordered(d, e);
    ChoiceReports(implements, d, e, "a", "b", calls, err);
    ChoiceReports(implements, d, e, "b", "a", calls', err');
    ChooserName(d, e, "a", "b");
    ChooserName(d, e, "b", "a");
  }

  lemma ChooserName(d: Type, e: Type, first: string, second: string)
    ensures ChoiceComponents(d, e, first, second)[4].name == IndexedName(4, "chooser")
  {
    hide IndexedName;
  }

  lemma ChoicesReordered(d: Type, e: Type)
    ensures Reordered(Whole(Context(d), Factory(e), Choice("a", "b")), Whole(Context(d), Factory(e), Choice("b", "a")),
                      Bijection([0, 1, 3, 2, 4], [0, 1, 3, 2, 4]))
  {
    hide Maker, Chooser, Builtins;
  }

  // ---------------------------------------------------------------- a nil error

  const OUT := Concrete(2)

  /** Has no result but an error, which is nil. */
  function Task(): Constructor {
    Constructor("task", [], Some(ERROR), ReturnNil())
  }

  /** Takes the context. */
  function User(): Constructor {
    Constructor("user", [CONTEXT], Some(OUT), args => Success(Val(OUT, "out", 0)))
  }

  function TaskComponents(d: Type, e: Type, taskFirst: bool): (comps: seq<Component>)
    ensures |comps| == 4
  {
    Components(Whole(Context(d), Factory(e), if taskFirst then [Task(), User()] else [User(), Task()]))
  }

  lemma TaskParts(d: Type, e: Type, taskFirst: bool)
    ensures var comps, task, user := TaskComponents(d, e, taskFirst), if taskFirst then 2 else 3, if taskFirst then 3
      else 2;
            && DistinctNames(comps)
            && comps[0].consumes == [] && comps[1].consumes == [CONTEXT] && comps[task].consumes == []
              && comps[user].consumes == [CONTEXT]
            && comps[0].produces == Some(CONTEXT) && comps[1].produces == Some(CHART_FACTORY)
            && comps[task].produces == Some(ERROR) && comps[user].produces == Some(OUT)
            && Tagged(comps[0], Context(d)) && Tagged(comps[1], Factory(e)) && Tagged(comps[user], Val(OUT, "out", 0))
            && comps[task].apply == ReturnNil()
  {
    ComponentsHaveDistinctNames(Whole(Context(d), Factory(e), if taskFirst then [Task(), User()]
      else [User(), Task()]));
    hide IndexedName, DistinctNames, ReturnNil;
  }

  ghost function TaskStage(implements: Implements, d: Type, e: Type, taskFirst: bool): Stage {
    Stage(TaskComponents(d, e, taskFirst), implements, [d, e, OUT, OUT],
          if taskFirst then ["context", "factory", "task", "out"] else ["context", "factory", "out", "task"],
          if taskFirst then 2 else 3, ReturnNil())
  }

  lemma TaskIsViable(d: Type, e: Type, taskFirst: bool)
    ensures var comps := TaskComponents(d, e, taskFirst);
            && DistinctNames(comps) && Viable(comps) && ProperParameters(comps)
            && forall i, k | 0 <= i < k < |comps| :: Before(Schedule(comps), comps[i].name, comps[k].name)
  {
    var comps := TaskComponents(d, e, taskFirst);
    TaskParts(d, e, taskFirst);
    hide TaskComponents, DistinctNames, Tagged, Before, Schedule, Producers;
    OneContext(comps, 1);
    OneContext(comps, 2);
    OneContext(comps, 3);
    CalledAsRegistered(comps);
    assert forall c | c in comps :: c == comps[0] || c == comps[1] || c == comps[2] || c == comps[3];
  }

  lemma TaskIsStaged(implements: Implements, d: Type, e: Type, taskFirst: bool)
    requires FrameworkTypes(implements, d, e)
    ensures Staged(TaskStage(implements, d, e, taskFirst))
  {
    TaskParts(d, e, taskFirst);
    TaskIsViable(d, e, taskFirst);
    hide TaskComponents, DistinctNames, Tagged, Viable, ProperParameters, Before, Schedule;
    var s := TaskStage(implements, d, e, taskFirst);
    forall i | 0 <= i < 4 && i != s.actor ensures Cast(s.implements, s.comps[i], s.types[i], s.tags[i]) {
    }
    PartsAreStaged(s);
  }

  /** A component that returns a nil error and one that takes the context, which need nothing of
      each other: registered in one order they always fail, in the other they always succeed. */
  lemma NilErrorCanMatter(implements: Implements, d: Type, e: Type, calls: seq<Call>, calls': seq<Call>,
                          err: Option<CompositeError>, err': Option<CompositeError>)
    requires FrameworkTypes(implements, d, e)
    requires FreshRun(TaskComponents(d, e, true), implements, calls, err)
    requires FreshRun(TaskComponents(d, e, false), implements, calls', err')
    ensures Reordered(Whole(Context(d), Factory(e), [Task(), User()]), Whole(Context(d), Factory(e), [User(), Task()]),
                      Bijection([0, 1, 3, 2], [0, 1, 3, 2]))
    ensures err.Some? && err'.None?
  {
    hide FreshRun, TaskComponents, Whole, Reordered, FrameworkTypes;
    TasksReordered(d, e);
    TaskFirstFails(implements, d, e, calls, err);
    TaskLastSucceeds(implements, d, e, calls', err');
  }

  lemma TasksReordered(d: Type, e: Type)
    ensures Reordered(Whole(Context(d), Factory(e), [Task(), User()]), Whole(Context(d), Factory(e), [User(), Task()]),
                      Bijection([0, 1, 3, 2], [0, 1, 3, 2]))
  {
    hide Task, User, Builtins;
  }

  lemma TaskFirstFails(implements: Implements, d: Type, e: Type, calls: seq<Call>, err: Option<CompositeError>)
    requires FrameworkTypes(implements, d, e) && FreshRun(TaskComponents(d, e, true), implements, calls, err)
    ensures err.Some?
  {
    TaskIsViable(d, e, true);
    TaskIsStaged(implements, d, e, true);
    UserTakesInterface(d, e);
    hide TaskComponents, DistinctNames, Viable, ProperParameters, Before, Schedule, Staged, FreshRun, FrameworkTypes,
      ConsumesInterface;
    NilBringsFailure(TaskStage(implements, d, e, true), calls, err, 3);
  }

  lemma UserTakesInterface(d: Type, e: Type)
    ensures ConsumesInterface(TaskComponents(d, e, true)[3]) && TaskComponents(d, e, true)[2].produces.Some?
  {
    TaskParts(d, e, true);
    hide TaskComponents, DistinctNames, Tagged;
    assert IsInterface(CONTEXT);
  }

  lemma TaskLastSucceeds(implements: Implements, d: Type, e: Type, calls: seq<Call>, err: Option<CompositeError>)
    requires FrameworkTypes(implements, d, e) && FreshRun(TaskComponents(d, e, false), implements, calls, err)
    ensures err.None?
  {
    TaskIsViable(d, e, false);
    TaskIsStaged(implements, d, e, false);
    TaskIsLate(d, e);
    hide TaskComponents, DistinctNames, Viable, ProperParameters, Before, Schedule, Staged, FreshRun, FrameworkTypes,
      NilsLate;
    LateNilIsHarmless(TaskStage(implements, d, e, false), calls, err);
  }

  lemma TaskIsLate(d: Type, e: Type)
    ensures DistinctNames(TaskComponents(d, e, false)) && NilsLate(TaskComponents(d, e, false))
  {
    var comps := TaskComponents(d, e, false);
    TaskParts(d, e, false);
    TaskIsViable(d, e, false);
    hide TaskComponents, DistinctNames, Viable, ProperParameters, Before, Schedule, ConsumesInterface;
    forall c, args, q | c in comps && c.produces.Some? && c.apply(args) == Success(Nil) && q in comps
        && ConsumesInterface(q)
      ensures !Before(Schedule(comps), c.name, q.name)
    {
      assert c == comps[0] || c == comps[1] || c == comps[2] || c == comps[3];
      var k :| 0 <= k < |comps| && comps[k] == q;
      NotBeforeEarlier(comps, k, 3);
    }
  }

  lemma NotBeforeEarlier(comps: seq<Component>, c: nat, q: nat)
    requires DistinctNames(comps) && c <= q < |comps|
    requires (c < q ==> Before(Schedule(comps), comps[c].name, comps[q].name))
    ensures !Before(Schedule(comps), comps[q].name, comps[c].name)
  {
    CallOrderIsDistinct(comps, InferredEdges(comps));
    ScheduleIsCallOrder(comps);
    hide DistinctNames, Schedule, CallOrder, InferredEdges, Before;
    if c < q {
      OneWayOnly(Schedule(comps), comps[c].name, comps[q].name);
    } else {
      OneWayOnly(Schedule(comps), comps[q].name, comps[q].name);
    }
  }

  // ---------------------------------------------------------------- a second implementer

  const SHAPE := Interface(3)
  const SQUARE := Concrete(3)

  function Circle(): Constructor {
    Constructor("circle", [], Some(SHAPE), args => Error(0))
  }

  function Square(): Constructor {
    Constructor("square", [], Some(SQUARE), args => Error(0))
  }

  function Painter(): Constructor {
    Constructor("painter", [SHAPE], None, args => Error(0))
  }

  ghost predicate IsPicture(comps: seq<Component>) {
    && DistinctNames(comps) && |comps| == 5
    && comps[0].consumes == [] && comps[1].consumes == [CONTEXT] && comps[2].consumes == [] && comps[3].consumes == []
    && comps[4].consumes == [SHAPE]
    && comps[0].produces == Some(CONTEXT) && comps[1].produces == Some(CHART_FACTORY)
    && comps[2].produces == Some(SHAPE) && comps[3].produces == Some(SQUARE) && comps[4].produces == None
  }

  lemma PartsArePicture(context: Value, factory: Value)
    ensures AllUsable(Whole(context, factory, [Circle(), Square(), Painter()]))
    ensures IsPicture(Parts(context, factory, [Circle(), Square(), Painter()]))
  {
    ComponentsHaveDistinctNames(Whole(context, factory, [Circle(), Square(), Painter()]));
    hide IndexedName, DistinctNames;
  }

  lemma OneShape(comps: seq<Component>)
    requires IsPicture(comps)
    ensures |Producers(comps, comps[4].name, SHAPE)| == 1
  {
    hide DistinctNames;
    assert OnlyFeeds(comps, 2, 4, SHAPE);
    hide Producers, OnlyFeeds;
    OnlyProducerIsOne(comps, 2, 4, SHAPE);
  }

  lemma PictureIsViable(comps: seq<Component>)
    requires IsPicture(comps)
    ensures Viable(comps) && ProperParameters(comps) && Before(Schedule(comps), comps[3].name, comps[4].name)
  {
    hide DistinctNames, Before, Schedule, Producers, NoCycle;
    OneShape(comps);
    OneContext(comps, 1);
    CalledAsRegistered(comps);
    assert forall c | c in comps :: c == comps[0] || c == comps[1] || c == comps[2] || c == comps[3] || c == comps[4];
  }

  lemma PictureIsInhabited(comps: seq<Component>, implements: Implements, d: Type, e: Type, f: Type)
    requires IsPicture(comps) && FrameworkTypes(implements, d, e) && Fits(implements, f, SHAPE)
    ensures Inhabited(comps, implements)
  {
    hide DistinctNames;
    assert SQUARE in [ITEM, PICK, OUT, SQUARE] && Fits(implements, SQUARE, SQUARE);
    hide Fits;
    assert forall c | c in comps :: c == comps[0] || c == comps[1] || c == comps[2] || c == comps[3] || c == comps[4];
  }

  lemma SquareComesBetween(comps: seq<Component>, implements: Implements)
    requires IsPicture(comps) && HeadFirst(comps, FRAMEWORK) && implements(SQUARE, SHAPE)
    requires !ErrorType(implements, SQUARE)
    requires Before(Schedule(comps), comps[3].name, comps[4].name)
    ensures !ImplementersOrdered(comps, FRAMEWORK, implements)
  {
    hide DistinctNames, Before, Schedule, HeadFirst, Fixed;
    if Fixed(comps, FRAMEWORK, 4, 3) {
      FixedNotAfter(comps, FRAMEWORK, 4, 3);
    }
    assert Fits(implements, SQUARE, SQUARE);
    assert MayImplement(implements, SQUARE, SHAPE);
    assert OtherMayImplement(implements, comps[3], comps[4], SHAPE);
  }

  /** No result is an error, and every nil would be found by something that comes later. */
  lemma PictureCanSucceed(comps: seq<Component>, implements: Implements, d: Type, e: Type, f: Type)
    requires IsPicture(comps) && FrameworkTypes(implements, d, e) && Fits(implements, f, SHAPE)
    ensures ErrorsFeasible(comps, FRAMEWORK, implements) && NilsOrdered(comps, FRAMEWORK)
  {
    assert SQUARE in [ITEM, PICK, OUT, SQUARE];
    PictureNeeds(comps);
    hide DistinctNames, Needs, ErrorType;
    forall c | c in comps ensures !IsError(implements, c) {
      assert c == comps[0] || c == comps[1] || c == comps[2] || c == comps[3] || c == comps[4];
    }
    forall i | 0 <= i < 5 ensures !IsError(implements, comps[i]) {
      assert comps[i] in comps;
    }
    assert IsInterface(CONTEXT) && CONTEXT in comps[1].consumes && IsInterface(SHAPE) && SHAPE in comps[4].consumes;
    assert Fixed(comps, FRAMEWORK, 0, 1) && Fixed(comps, FRAMEWORK, 1, 4) && Fixed(comps, FRAMEWORK, 2, 4);
    assert ConsumerLater(comps, FRAMEWORK, 0) && ConsumerLater(comps, FRAMEWORK, 1)
      && ConsumerLater(comps, FRAMEWORK, 2);
  }

  lemma SquareIsNoError(implements: Implements, d: Type, e: Type)
    requires FrameworkTypes(implements, d, e)
    ensures !ErrorType(implements, SQUARE)
  {
    assert SQUARE in [ITEM, PICK, OUT, SQUARE];
  }

  lemma PictureNeeds(comps: seq<Component>)
    requires IsPicture(comps)
    ensures Needs(comps, 1, 0) && Needs(comps, 4, 2)
  {
    assert CONTEXT in comps[1].consumes && SHAPE in comps[4].consumes;
    assert Feeds(comps, 0, 1, Wanted(CONTEXT)) && Feeds(comps, 2, 4, Wanted(SHAPE));
    FeedsIsEdge(comps, 0, 1, CONTEXT);
    FeedsIsEdge(comps, 2, 4, SHAPE);
    EdgeReaches(InferredEdges(comps), comps[1].name, comps[0].name);
    EdgeReaches(InferredEdges(comps), comps[4].name, comps[2].name);
  }

  /** One component that produces an interface and one that produces a type that implements it:
      for some Apply methods, a third that takes the interface ends differently in two runs of
      the same order. */
  lemma OtherImplementerCanMatter(implements: Implements, d: Type, e: Type, f: Type)
    requires FrameworkTypes(implements, d, e) && Fits(implements, f, SHAPE) && implements(SQUARE, SHAPE)
    ensures OneOrderDiffers([Circle(), Square(), Painter()], implements)
  {
    var context, factory, ctors := Context(d), Factory(e), [Circle(), Square(), Painter()];
    PartsArePicture(context, factory);
    hide Components, Whole, AllUsable, Viable, HeadFirst, FrameworkTypes, ProperParameters, Inhabited, Before, Schedule,
      DistinctNames, ImplementersOrdered, OneOrderDiffers, ErrorsFeasible, NilsOrdered, ErrorType, FirstItem, Circle,
        Square, Painter, Fits;
    var comps := Parts(context, factory, ctors);
    PictureIsViable(comps);
    PictureIsInhabited(comps, implements, d, e, f);
    PictureCanSucceed(comps, implements, d, e, f);
    SquareIsNoError(implements, d, e);
    AskedIsFirst(context, factory, ctors, implements);
    SquareComesBetween(comps, implements);
    ImplementersMatter(context, factory, ctors, implements);
  }
}
