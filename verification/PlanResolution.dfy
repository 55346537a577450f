/** Lazy depth-first resolution of a plan's children. Plans are objects: a child function
    either builds a new plan each time it is called or returns an existing one. Names are
    globally unique, so `graph` says which children any plan of a given name declares. */
module PlanResolution {
  import opened Options
  import opened Graph
  import opened ObjectTree

  datatype PlanFunc = Constructs(plan: string) | Returns(existing: Plan) {
    function Name(): string {
      match this
      case Constructs(n) => n
      case Returns(p) => p.name
    }
  }

  datatype Panic = NoPanic | Cycle(names: seq<string>)

  class Plan {
    const name: string
    var childPlans: seq<Plan>
    var childFuncs: seq<PlanFunc>

    constructor (name: string, childFuncs: seq<PlanFunc>)
      ensures this.name == name && this.childFuncs == childFuncs && childPlans == []
    {
      this.name, this.childFuncs, childPlans := name, childFuncs, [];
    }

    /** Resolves the plan and everything below it. Building a plan that has no child functions
        left changes nothing. Otherwise the build panics exactly when the plan reaches a
        cycle, with a path that starts at the plan and runs into itself. If it does not
        panic, then exactly the names that the plan reaches, without going through plans that
        an earlier build has expanded, are finished, each in one plan object and after its
        children: in the order of `log`, in which a traversal of the child plans from this plan
        returns, and each in the first plan of that name. The child plans of an expanded plan are,
        in order, what its child functions give: an existing plan itself, or a new one that is no
        other child. Every other plan is as it was, and further plans can be built. So a plan has
        all its children resolved exactly when it is the one that was built for its name, was
        expanded before or declares none: a second plan object of a name stays unresolved. */
    method Build(registry: map<string, seq<PlanFunc>>, ghost graph: Edges, ghost world: set<Plan>)
      returns (r: Plan, panic: Panic, ghost world': set<Plan>, ghost order: seq<string>, ghost built: map<string, Plan>,
               ghost done: set<Plan>, ghost log: seq<Plan>)
      requires childFuncs != [] ==> this in world && Declares(registry, graph, world) && Buildable(graph, world)
      modifies this, world
      ensures panic.NoPanic? ==> r == this && childFuncs == []
      ensures old(childFuncs) == [] ==>
                panic.NoPanic? && childPlans == old(childPlans) && forall q | q in world && q != this :: unchanged(q)
      ensures old(childFuncs) != [] ==> (panic.Cycle? <==> ReachesCycle(graph, name))
      ensures old(childFuncs) != [] && panic.Cycle? ==> CyclePath(graph, [name], panic.names)
      ensures old(childFuncs) != [] && panic.NoPanic? ==>
                && done == old(AlreadyExpanded(graph, world))
                && world <= world' && fresh(world' - world) && Buildable(graph, world')
                  && Declares(registry, graph, world')
                && Topological(Without(graph, Reused(done, built)), order)
                && (forall n :: n in order <==> Reaches(Without(graph, Reused(done, built)), name, n))
                && (forall n :: n in built <==> n in order)
                && (forall n | n in built :: built[n] in world' && built[n].name == n && Expanded(graph, {}, built[n]))
                && this in world' && name in built && built[name] == this
                && (forall p | p in done :: p.childPlans == old(p.childPlans) && p.childFuncs == [])
                && (forall p | p in world' && !(p.name in built && built[p.name] == p) && p !in done ::
                  Pristine(graph, {}, p))
                && (forall p | p in world' ::
                      p.childFuncs == [] <==>
                          (p.name in built && built[p.name] == p) || p in done || Deps(graph, p.name) == [])
                && (forall n | n in built && built[n] !in done ::
                      AreGiven(world, world', Asked(registry, old(Functions(world)), built[n]), built[n].childPlans))
                && MadeOnce(world, world' - done)
                && Postorder(Children(world' - done), [], this, log) && LogOk(world', order, built, log)
    {
      hide *;
      ghost var again := childFuncs == [];
      ghost var below := if again then map[name := []] else graph;
      ghost var all := if again then {this} else world;
      done := if again then {this} else AlreadyExpanded(graph, world);
      ghost var children := map p | p in done :: p.childPlans;
      if again {
        ChildlessStart(registry, this);
      } else {
        BuildableIsReady(graph, world);
      }
      var run := new Resolver(registry, below, done, all);
      run.Recording();
      ghost var before := run.Snapshot();
      r, panic := run.Resolve(this);
      run.Recording();
      assert [] + [name] == [name];
      world', order, built, log := run.world, run.order, run.built, run.log;
      if panic.Cycle? {
        CyclePathMeansCycle(below, name, panic.names);
      } else {
        ResolvesFromStart(done, this, before, run.Snapshot());
        if again {
          run.AfterBuild(this);
        } else {
          run.Outcome(this, children);
        }
      }
    }
  }

  /** The child plans are what the functions give, in order: the existing plans, and new ones. */
  ghost predicate AreGiven(world: set<Plan>, world': set<Plan>, fs: seq<PlanFunc>, kids: seq<Plan>) {
    && |kids| == |fs|
    && forall i | 0 <= i < |fs| ::
         && kids[i] in world'
         && match fs[i]
            case Returns(existing) => kids[i] == existing
            case Constructs(name) => kids[i] !in world && kids[i].name == name
  }

  /** A new plan is the child of one plan, at one place. */
  ghost predicate MadeOnce(world: set<Plan>, plans: set<Plan>) reads plans {
    forall p, q | p in plans && q in plans ::
      forall i, j | 0 <= i < |p.childPlans| && 0 <= j < |q.childPlans| && p.childPlans[i] == q.childPlans[j] ::
        p.childPlans[i] in world || (p == q && i == j)
  }

  lemma KidsAreGiven(registry: map<string, seq<PlanFunc>>, graph: Edges, start: map<Plan, seq<PlanFunc>>,
                     done: set<Plan>, world: set<Plan>, built: map<string, Plan>, kids: map<Plan, seq<Plan>>,
                     home: map<Plan, Place>)
    requires KidsOk(registry, graph, start, done, world, kids, home)
    requires forall p | p in world :: p in kids && p.childPlans == kids[p]
    requires forall n | n in built :: built[n] in world && built[n].name == n && Expanded(graph, {}, built[n])
    ensures forall n | n in built && built[n] !in done ::
              AreGiven(start.Keys, world, Asked(registry, start, built[n]), built[n].childPlans)
    ensures MadeOnce(start.Keys, world - done)
  {
    hide Asked;
    forall n | n in built && built[n] !in done
      ensures AreGiven(start.Keys, world, Asked(registry, start, built[n]), built[n].childPlans)
    {
      var p := built[n];
      assert GivenInOrder(start, world, home, p, Asked(registry, start, p), kids[p]);
      assert |PlanNames(kids[p])| == |FuncNames(Asked(registry, start, p))|;
    }
    forall p | p in world && p !in done ensures HomeIs(start, home, p, p.childPlans) {
      KidsAreHome(start, world, home, p, Asked(registry, start, p), p.childPlans);
    }
  }

  /** New child plans were made for their places. */
  ghost predicate HomeIs(start: map<Plan, seq<PlanFunc>>, home: map<Plan, Place>, p: Plan, kids: seq<Plan>) {
    forall i | 0 <= i < |kids| && kids[i] !in start :: kids[i] in home && home[kids[i]] == Place(p, i)
  }

  lemma KidsAreHome(start: map<Plan, seq<PlanFunc>>, world: set<Plan>, home: map<Plan, Place>, p: Plan,
                    fs: seq<PlanFunc>, kids: seq<Plan>)
    requires GivenInOrder(start, world, home, p, fs, kids) && RefersTo(start.Keys, fs)
    ensures HomeIs(start, home, p, kids)
  {
    forall i | 0 <= i < |kids| && kids[i] !in start ensures kids[i] in home && home[kids[i]] == Place(p, i) {
      assert Given(start, home, Place(p, i), fs[i], kids[i]) && fs[i] in fs;
    }
  }

  lemma ResolvesFromStart(done: set<Plan>, root: Plan, was: Record, now: Record)
    requires Resolves(done, root, was, now) && was.log == []
    ensures Postorder(NewKids(done, now.kids), [], root, now.log)
  {
    assert now.log[0..] == now.log;
  }

  /** Which plans have no child functions left. */
  lemma ResolvedExactly(graph: Edges, done: set<Plan>, world: set<Plan>, built: map<string, Plan>)
    requires forall n | n in built :: Expanded(graph, {}, built[n])
    requires forall p | p in done :: p.childFuncs == []
    requires forall p | p in world && p !in done && !(p.name in built && built[p.name] == p) :: Pristine(graph, {}, p)
    ensures forall p | p in world ::
              p.childFuncs == [] <==> (p.name in built && built[p.name] == p) || p in done || Deps(graph, p.name) == []
  {
    forall p | p in world && p !in done && !(p.name in built && built[p.name] == p)
      ensures p.childFuncs == [] <==> Deps(graph, p.name) == []
    {
      assert Pristine(graph, {}, p) && |FuncNames(p.childFuncs)| == |p.childFuncs|;
    }
  }

  /** A plan without child functions can be built as the only plan of a graph without edges. */
  lemma ChildlessStart(registry: map<string, seq<PlanFunc>>, p: Plan)
    requires p.childFuncs == []
    ensures var graph := map[p.name := []];
            && Declares(registry, graph, {p}) && Ready(graph, {p}, {p})
            && Deps(graph, p.name) == [] && !ReachesCycle(graph, p.name)
  {
    var graph: Edges := map[p.name := []];
    TopologicalAvoidsCycles(graph, [p.name], p.name);
  }

  ghost function FuncNames(fs: seq<PlanFunc>): seq<string> {
    seq(|fs|, i requires 0 <= i < |fs| => fs[i].Name())
  }

  ghost function PlanNames(ps: seq<Plan>): seq<string> {
    seq(|ps|, i requires 0 <= i < |ps| => ps[i].name)
  }

  /** The child plans have exactly these names; nothing is said of plans that are done. */
  ghost predicate Lists(done: set<Plan>, p: Plan, names: seq<string>) reads p {
    p !in done ==> PlanNames(p.childPlans) == names
  }

  /** The children that a build has yet to resolve. */
  ghost function Todo(graph: Edges, done: set<Plan>, p: Plan): seq<string> {
    if p in done then [] else Deps(graph, p.name)
  }

  /** Not built yet: the declared children are still functions. */
  ghost predicate Pristine(graph: Edges, done: set<Plan>, p: Plan) reads p {
    Lists(done, p, []) && FuncNames(p.childFuncs) == Todo(graph, done, p)
  }

  /** Built: the declared children are plans, in declaration order. */
  ghost predicate Expanded(graph: Edges, done: set<Plan>, p: Plan) reads p {
    p.childFuncs == [] && Lists(done, p, Deps(graph, p.name))
  }

  /** The plans that were expanded before and declare children. */
  ghost function AlreadyExpanded(graph: Edges, world: set<Plan>): set<Plan> reads world {
    set p | p in world && p.childFuncs == [] && Deps(graph, p.name) != []
  }

  /** The names whose plan was done before. */
  ghost function Reused(done: set<Plan>, built: map<string, Plan>): set<string> {
    set n | n in built && built[n] in done
  }

  datatype Role = Open | Built | Untouched

  /** Exactly one plan object is expanded for each visited name; apart from it and the plans
      being expanded, every plan is untouched. */
  ghost function RoleOf(active: seq<Plan>, built: map<string, Plan>, p: Plan): Role {
    if p in active then Open
    else if p.name in built && built[p.name] == p then Built
    else Untouched
  }

  ghost predicate InState(graph: Edges, done: set<Plan>, role: Role, p: Plan) reads p {
    match role
    case Open => FuncNames(p.childFuncs) == Todo(graph, done, p)
    case Built => Expanded(graph, done, p)
    case Untouched => Pristine(graph, done, p)
  }

  ghost predicate RefersInto(world: set<Plan>, p: Plan) reads p {
    RefersTo(world, p.childFuncs)
  }

  /** Every existing plan that is returned is among the plans. */
  ghost predicate RefersTo(plans: set<Plan>, fs: seq<PlanFunc>) {
    forall f | f in fs && f.Returns? :: f.existing in plans
  }

  // ---------------------------------------------------------------- the plan objects below a plan

  /** A place among the child plans of a plan. */
  datatype Place = Place(parent: Plan, index: nat)

  /** What a build has done so far: the child plans resolved for each plan, the place for which each
      new plan was made, and every plan that was returned as resolved, in order. */
  datatype Record = Record(kids: map<Plan, seq<Plan>>, home: map<Plan, Place>, log: seq<Plan>)

  /** What is recorded stays. */
  ghost predicate Grows(was: Record, now: Record) {
    && (forall c | c in was.home :: c in now.home && now.home[c] == was.home[c])
    && was.log <= now.log && forall p | p in was.log :: ChildrenOf(now.kids, p) == ChildrenOf(was.kids, p)
  }

  ghost function Children(plans: set<Plan>): map<Plan, seq<Plan>> reads plans {
    map p | p in plans :: p.childPlans
  }

  ghost function Functions(plans: set<Plan>): map<Plan, seq<PlanFunc>> reads plans {
    map p | p in plans :: p.childFuncs
  }

  /** The functions that give the children of a plan: those it had when the build began, or, for
      a plan made by the build, those of its constructor. */
  ghost function Asked(registry: map<string, seq<PlanFunc>>, start: map<Plan, seq<PlanFunc>>, p: Plan): seq<PlanFunc> {
    if p in start then start[p] else if p.name in registry then registry[p.name] else []
  }

  /** c is what f gives at a place: the existing plan, or one that was made for this place and no other. */
  ghost predicate Given(start: map<Plan, seq<PlanFunc>>, home: map<Plan, Place>, place: Place, f: PlanFunc, c: Plan) {
    match f
    case Returns(existing) => c == existing
    case Constructs(name) => c.name == name && c !in start && c in home && home[c] == place
  }

  /** The child plans of p so far are what its first child functions give, in order. */
  ghost predicate GivenInOrder(start: map<Plan, seq<PlanFunc>>, world: set<Plan>, home: map<Plan, Place>, p: Plan,
                               fs: seq<PlanFunc>, kids: seq<Plan>) {
    && |kids| <= |fs|
    && forall i | 0 <= i < |kids| :: kids[i] in world && Given(start, home, Place(p, i), fs[i], kids[i])
  }

  ghost predicate KidsOk(registry: map<string, seq<PlanFunc>>, graph: Edges, start: map<Plan, seq<PlanFunc>>,
                         done: set<Plan>, world: set<Plan>, kids: map<Plan, seq<Plan>>, home: map<Plan, Place>) {
    && start.Keys <= world && home.Keys <= world && kids.Keys == world && Declares(registry, graph, start.Keys)
    && forall p | p in world && p !in done ::
         && FuncNames(Asked(registry, start, p)) == Deps(graph, p.name)
         && RefersTo(start.Keys, Asked(registry, start, p))
         && GivenInOrder(start, world, home, p, Asked(registry, start, p), kids[p])
  }

  /** The plan object is as recorded. */
  ghost predicate IsRecorded(registry: map<string, seq<PlanFunc>>, start: map<Plan, seq<PlanFunc>>, done: set<Plan>,
                             role: Role, kids: map<Plan, seq<Plan>>, p: Plan) reads p
  {
    && p in kids && p.childPlans == kids[p]
    && (p !in done && role != Built ==> p.childFuncs == Asked(registry, start, p))
  }

  ghost predicate Recorded(registry: map<string, seq<PlanFunc>>, start: map<Plan, seq<PlanFunc>>, done: set<Plan>,
                           world: set<Plan>, active: seq<Plan>, built: map<string, Plan>, kids: map<Plan, seq<Plan>>)
    reads world
  {
    forall p | p in world :: IsRecorded(registry, start, done, RoleOf(active, built, p), kids, p)
  }

  /** The child plans of the plans that were not done before. */
  ghost function NewKids(done: set<Plan>, kids: map<Plan, seq<Plan>>): map<Plan, seq<Plan>> {
    map p | p in kids && p !in done :: kids[p]
  }

  /** Between two states p and everything below it has been resolved, depth first. */
  ghost predicate Resolves(done: set<Plan>, p: Plan, was: Record, now: Record) {
    Grows(was, now) && Postorder(NewKids(done, now.kids), was.log, p, now.log[|was.log|..])
  }

  /** Between two states the child plans of p have been resolved. */
  ghost predicate ResolvesBelow(done: set<Plan>, p: Plan, was: Record, now: Record) {
    && Grows(was, now)
    && PostorderAll(NewKids(done, now.kids), was.log, ChildrenOf(NewKids(done, now.kids), p), now.log[|was.log|..])
  }

  /** The names of the plans, each where it occurs first. */
  ghost function FirstNames(log: seq<Plan>): seq<string> {
    if log == [] then []
    else
      var names, n := FirstNames(log[..|log| - 1]), log[|log| - 1].name;
      if n in names then names else names + [n]
  }

  ghost predicate IsFirst(log: seq<Plan>, i: nat) {
    i < |log| && forall j | 0 <= j < i :: log[j].name != log[i].name
  }

  /** Names finish in the order in which a plan of that name is first returned, and it is this plan that finishes. */
  ghost predicate LogOk(world: set<Plan>, order: seq<string>, built: map<string, Plan>, log: seq<Plan>) {
    && order == FirstNames(log) && built.Keys == Elements(order)
    && (forall p | p in log :: p in world && p.name in built)
    && (forall n | n in built :: built[n] in log && built[n].name == n)
    && forall i: nat | IsFirst(log, i) :: log[i].name in built && built[log[i].name] == log[i]
  }

  /** The constructors declare the children of the graph, and refer to existing plans only. */
  ghost predicate Declares(registry: map<string, seq<PlanFunc>>, graph: Edges, world: set<Plan>) {
    forall n, d | d in Deps(graph, n) ::
      && d in graph && d in registry && FuncNames(registry[d]) == graph[d]
      && RefersTo(world, registry[d])
  }

  /** Plans that can be built: names are declared, references stay within the set, and each plan
      is untouched or has been expanded by an earlier build that found no cycle below it. */
  ghost predicate Buildable(graph: Edges, world: set<Plan>) reads world {
    forall p | p in world ::
      && p.name in graph && RefersInto(world, p)
      && (Pristine(graph, {}, p) || (Expanded(graph, {}, p) && !ReachesCycle(graph, p.name)))
  }

  /** The same with the plans that are done. */
  ghost predicate Ready(graph: Edges, done: set<Plan>, world: set<Plan>) reads world {
    && DoneOk(graph, done, world)
    && forall p | p in world :: p.name in graph && RefersInto(world, p) && Pristine(graph, done, p)
  }

  ghost predicate DoneOk(graph: Edges, done: set<Plan>, world: set<Plan>) {
    done <= world && forall p | p in done :: !ReachesCycle(graph, p.name)
  }

  lemma BuildableIsReady(graph: Edges, world: set<Plan>)
    requires Buildable(graph, world)
    ensures Ready(graph, AlreadyExpanded(graph, world), world) && AlreadyExpanded(graph, world) <= world
    ensures forall p | p in AlreadyExpanded(graph, world) ::
              PlanNames(p.childPlans) == Deps(graph, p.name) && !ReachesCycle(graph, p.name)
  {
    hide ReachesCycle, RefersInto;
    var done := AlreadyExpanded(graph, world);
    forall p | p in world ensures Pristine(graph, done, p) {
      assert Pristine(graph, {}, p) || Expanded(graph, {}, p);
    }
  }

  lemma StayExpanded(graph: Edges, done: set<Plan>, children: map<Plan, seq<Plan>>)
    requires forall p | p in done ::
               p in children && p.childPlans == children[p] && p.childFuncs == []
                 && PlanNames(children[p]) == Deps(graph, p.name)
    ensures forall p | p in done :: Expanded(graph, {}, p)
  {
  }

  lemma NotDone(graph: Edges, done: set<Plan>, world: set<Plan>)
    ensures forall p | p in world && p !in done ::
              Pristine(graph, done, p) == Pristine(graph, {}, p) && Expanded(graph, done, p) == Expanded(graph, {}, p)
  {
  }

  ghost predicate WorldOk(graph: Edges, done: set<Plan>, world: set<Plan>, active: seq<Plan>, built: map<string,
                          Plan>) reads world {
    forall p | p in world :: p.name in graph && RefersInto(world, p)
      && InState(graph, done, RoleOf(active, built, p), p)
  }

  /** The child functions of a plan are cleared once its children are resolved. */
  method Settle(ghost registry: map<string, seq<PlanFunc>>, ghost graph: Edges,
                ghost start: map<Plan, seq<PlanFunc>>, ghost done: set<Plan>, ghost world: set<Plan>, p: Plan,
                ghost active: seq<Plan>, ghost built: map<string, Plan>, ghost active': seq<Plan>,
                ghost built': map<string, Plan>, ghost kids: map<Plan, seq<Plan>>)
    requires WorldOk(graph, done, world, active, built) && p in world
    requires Recorded(registry, start, done, world, active, built, kids)
    requires Lists(done, p, Deps(graph, p.name)) && RoleOf(active', built', p) == Built
    requires forall q | q in world && q != p :: RoleOf(active', built', q) == RoleOf(active, built, q)
    modifies p`childFuncs
    ensures WorldOk(graph, done, world, active', built') && p.childFuncs == []
    ensures Recorded(registry, start, done, world, active', built', kids)
  {
    hide RoleOf, Asked;
    p.childFuncs := [];
    forall q | q in world && q != p
      ensures RefersInto(world, q) && InState(graph, done, RoleOf(active', built', q), q)
      ensures IsRecorded(registry, start, done, RoleOf(active', built', q), kids, q)
    {
      assert old(RefersInto(world, q)) && old(InState(graph, done, RoleOf(active, built, q), q));
      assert old(IsRecorded(registry, start, done, RoleOf(active, built, q), kids, q));
    }
    assert old(IsRecorded(registry, start, done, RoleOf(active, built, p), kids, p));
  }

  /** A child joins the child plans of a plan that is being expanded. */
  method Attach(ghost registry: map<string, seq<PlanFunc>>, ghost graph: Edges,
                ghost start: map<Plan, seq<PlanFunc>>, ghost done: set<Plan>, ghost world: set<Plan>,
                ghost active: seq<Plan>, ghost built: map<string, Plan>, ghost kids: map<Plan, seq<Plan>>,
                p: Plan, child: Plan)
    requires WorldOk(graph, done, world, active, built) && p in world && p in active
    requires Recorded(registry, start, done, world, active, built, kids)
    modifies p`childPlans
    ensures p.childPlans == old(p.childPlans) + [child]
    ensures WorldOk(graph, done, world, active, built)
    ensures p in kids && Recorded(registry, start, done, world, active, built, kids[p := kids[p] + [child]])
  {
    hide Asked;
    assert IsRecorded(registry, start, done, RoleOf(active, built, p), kids, p);
    p.childPlans := p.childPlans + [child];
    ghost var more := kids[p := kids[p] + [child]];
    forall q | q in world
      ensures RefersInto(world, q) && InState(graph, done, RoleOf(active, built, q), q)
      ensures IsRecorded(registry, start, done, RoleOf(active, built, q), more, q)
    {
      assert old(RefersInto(world, q)) && old(InState(graph, done, RoleOf(active, built, q), q));
      assert old(IsRecorded(registry, start, done, RoleOf(active, built, q), kids, q));
    }
  }

  /** The stack flags and the frames agree, and the frames are a path of the graph. */
  ghost predicate StackOk(graph: Edges, world: set<Plan>, stack: set<string>, frames: seq<string>, active: seq<Plan>) {
    && stack == Elements(frames) && Distinct(frames)
    && (frames != [] ==> IsPath(graph, frames))
    && PlanNames(active) == frames
    && forall p | p in active :: p in world
  }

  ghost predicate BookOk(graph: Edges, done: set<Plan>, world: set<Plan>, stack: set<string>, frames: seq<string>,
                         active: seq<Plan>,
                         visited: set<string>, order: seq<string>, built: map<string, Plan>) {
    && StackOk(graph, world, stack, frames, active)
    && Topological(Without(graph, Reused(done, built)), order) && visited == Elements(order) && visited !! stack
    && built.Keys == visited
    && forall n | n in built :: built[n] in world && built[n].name == n && built[n] !in active
  }

  lemma BookPushes(graph: Edges, done: set<Plan>, world: set<Plan>, stack: set<string>, frames: seq<string>,
                   active: seq<Plan>,
                   visited: set<string>, order: seq<string>, built: map<string, Plan>, p: Plan)
    requires BookOk(graph, done, world, stack, frames, active, visited, order, built)
    requires p in world && p.name !in stack && p.name !in visited
    requires frames != [] ==> p.name in Deps(graph, frames[|frames| - 1])
    ensures BookOk(graph, done, world, stack + {p.name}, frames + [p.name], active + [p], visited, order, built)
    ensures p !in active && RoleOf(active, built, p) == Untouched
  {
    PathGrows(graph, frames, p.name);
    assert PlanNames(active + [p]) == frames + [p.name];
    forall q | q in active ensures q != p {
      var i :| 0 <= i < |active| && active[i] == q;
      assert PlanNames(active)[i] == q.name;
    }
  }

  lemma CalledIsDeclared(registry: map<string, seq<PlanFunc>>, graph: Edges, world: set<Plan>, f: PlanFunc,
                         parent: string)
    requires Declares(registry, graph, world) && f.Name() in Deps(graph, parent)
    ensures match f
            case Returns(existing) => f.Name() == existing.name
            case Constructs(name) =>
              f.Name() == name && name in registry && name in graph && FuncNames(registry[name]) == Deps(graph, name)
              && RefersTo(world, registry[name])
  {
  }

  lemma BookGrows(graph: Edges, done: set<Plan>, world: set<Plan>, stack: set<string>, frames: seq<string>,
                  active: seq<Plan>,
                  visited: set<string>, order: seq<string>, built: map<string, Plan>, p: Plan)
    requires BookOk(graph, done, world, stack, frames, active, visited, order, built)
    ensures BookOk(graph, done, world + {p}, stack, frames, active, visited, order, built)
    ensures p !in world ==> p !in active && RoleOf(active, built, p) == Untouched
  {
    hide Topological, Without, Reused, PlanNames, IsPath, Distinct;
  }

  /** A plan that has just been constructed joins the others. */
  lemma WorldGrows(registry: map<string, seq<PlanFunc>>, graph: Edges, done: set<Plan>, world: set<Plan>,
                   active: seq<Plan>, built: map<string, Plan>, p: Plan)
    requires Declares(registry, graph, world) && DoneOk(graph, done, world)
    requires WorldOk(graph, done, world, active, built)
    requires p !in world && p.name in graph && p.childPlans == []
    requires RefersTo(world, p.childFuncs)
    requires FuncNames(p.childFuncs) == Deps(graph, p.name) && RoleOf(active, built, p) == Untouched
    ensures Declares(registry, graph, world + {p}) && DoneOk(graph, done, world + {p})
    ensures WorldOk(graph, done, world + {p}, active, built)
  {
    hide RoleOf, FuncNames, ReachesCycle;
    assert PlanNames(p.childPlans) == [];
    forall q | q in world ensures RefersInto(world + {p}, q) {
      assert RefersInto(world, q);
    }
  }

  lemma WorldPushes(graph: Edges, done: set<Plan>, world: set<Plan>, active: seq<Plan>, built: map<string, Plan>,
                    p: Plan)
    requires WorldOk(graph, done, world, active, built) && p in world && RoleOf(active, built, p) == Untouched
    ensures WorldOk(graph, done, world, active + [p], built)
    ensures p.name in graph && Lists(done, p, []) && |p.childFuncs| == |Todo(graph, done, p)|
  {
    assert InState(graph, done, Untouched, p);
    assert |FuncNames(p.childFuncs)| == |p.childFuncs|;
    forall q | q in world && q != p ensures RoleOf(active + [p], built, q) == RoleOf(active, built, q) {
    }
  }

  lemma BookPops(graph: Edges, done: set<Plan>, world: set<Plan>, stack: set<string>, frames: seq<string>,
                 active: seq<Plan>,
                 visited: set<string>, order: seq<string>, built: map<string, Plan>, p: Plan)
    requires BookOk(graph, done, world, stack, frames + [p.name], active + [p], visited, order, built)
    requires forall j | 0 <= j < |Todo(graph, done, p)| :: Todo(graph, done, p)[j] in visited
    ensures BookOk(graph, done, world, stack - {p.name}, frames, active, visited + {p.name}, order + [p.name],
                   built[p.name := p])
    ensures p in world && RoleOf(active, built[p.name := p], p) == Built
    ensures forall q | q in world && q != p ::
              RoleOf(active, built[p.name := p], q) == RoleOf(active + [p], built, q)
  {
    StackPops(graph, world, stack, frames, active, p);
    assert p.name !in visited && p.name !in built;
    OrderPops(graph, done, order, built, p);
    assert (active + [p])[|active|] == p;
    hide StackOk, Topological, Without, Reused;
    assert forall q | q in active :: q in active + [p];
  }

  lemma OrderPops(graph: Edges, done: set<Plan>, order: seq<string>, built: map<string, Plan>, p: Plan)
    requires Topological(Without(graph, Reused(done, built)), order) && p.name !in built && p.name !in order
    requires forall j | 0 <= j < |Todo(graph, done, p)| :: Todo(graph, done, p)[j] in order
    ensures Topological(Without(graph, Reused(done, built[p.name := p])), order + [p.name])
  {
    var was, now := Reused(done, built), Reused(done, built[p.name := p]);
    assert was <= now && (p in done ==> p.name in now) && (p !in done ==> now == was);
    TopologicalWithout(graph, was, now, order);
    forall d | d in Deps(Without(graph, now), p.name) ensures d in order {
      assert d in Todo(graph, done, p);
    }
    TopologicalExtend(Without(graph, now), order, p.name);
  }

  lemma StackPops(graph: Edges, world: set<Plan>, stack: set<string>, frames: seq<string>, active: seq<Plan>, p: Plan)
    requires StackOk(graph, world, stack, frames + [p.name], active + [p])
    ensures StackOk(graph, world, stack - {p.name}, frames, active)
    ensures p !in active && p.name in stack
  {
    var f, a := frames + [p.name], active + [p];
    assert f[..|frames|] == frames && a[..|active|] == active;
    assert PlanNames(a)[..|active|] == PlanNames(active);
    assert |PlanNames(a)| == |a|;
    forall n | n in frames ensures n in f && n != p.name {
      var i :| 0 <= i < |frames| && frames[i] == n;
      assert f[i] == n && f[|frames|] == p.name;
    }
    forall q | q in active ensures q.name in frames && q in a {
      var i :| 0 <= i < |active| && active[i] == q;
      assert a[i] == q && PlanNames(a)[i] == q.name;
    }
  }

  // ---------------------------------------------------------------- the record of a build

  lemma KidsAtStart(registry: map<string, seq<PlanFunc>>, graph: Edges, done: set<Plan>, world: set<Plan>)
    requires Ready(graph, done, world) && Declares(registry, graph, world)
    ensures KidsOk(registry, graph, Functions(world), done, world, Children(world), map[])
    ensures Recorded(registry, Functions(world), done, world, [], map[], Children(world))
    ensures Functions(world).Keys == world
  {
    forall p | p in world && p !in done
      ensures FuncNames(Asked(registry, Functions(world), p)) == Deps(graph, p.name) && p.childPlans == []
    {
      assert Pristine(graph, done, p) && |PlanNames(p.childPlans)| == |p.childPlans|;
    }
  }

  lemma WorldAtStart(graph: Edges, done: set<Plan>, world: set<Plan>)
    requires Ready(graph, done, world)
    ensures WorldOk(graph, done, world, [], map[]) && DoneOk(graph, done, world)
    ensures BookOk(graph, done, world, {}, [], [], {}, [], map[]) && LogOk(world, [], map[], [])
  {
  }

  lemma KidsHave(registry: map<string, seq<PlanFunc>>, graph: Edges, start: map<Plan, seq<PlanFunc>>, done: set<Plan>,
                 world: set<Plan>, kids: map<Plan, seq<Plan>>, home: map<Plan, Place>)
    requires KidsOk(registry, graph, start, done, world, kids, home)
    ensures kids.Keys == world && home.Keys <= world && start.Keys <= world && Declares(registry, graph, start.Keys)
  {
  }

  lemma GivenExisting(start: map<Plan, seq<PlanFunc>>, home: map<Plan, Place>, place: Place, f: PlanFunc)
    requires f.Returns?
    ensures Given(start, home, place, f, f.existing)
  {
  }

  lemma GivenStill(start: map<Plan, seq<PlanFunc>>, was: Record, now: Record, place: Place, f: PlanFunc, c: Plan)
    requires Given(start, was.home, place, f, c) && Grows(was, now)
    ensures Given(start, now.home, place, f, c)
  {
  }

  /** A plan made for a place. */
  lemma KidsJoin(registry: map<string, seq<PlanFunc>>, graph: Edges, start: map<Plan, seq<PlanFunc>>, done: set<Plan>,
                 world: set<Plan>, kids: map<Plan, seq<Plan>>, home: map<Plan, Place>, place: Place, c: Plan)
    requires KidsOk(registry, graph, start, done, world, kids, home) && c !in world
    requires c.name in registry && FuncNames(registry[c.name]) == Deps(graph, c.name)
    requires RefersTo(start.Keys, registry[c.name])
    ensures KidsOk(registry, graph, start, done, world + {c}, kids[c := []], home[c := place])
    ensures Given(start, home[c := place], place, Constructs(c.name), c)
  {
    hide FuncNames;
    var more := home[c := place];
    forall p | p in world && p !in done
      ensures GivenInOrder(start, world + {c}, more, p, Asked(registry, start, p), kids[p]) {
      assert GivenInOrder(start, world, home, p, Asked(registry, start, p), kids[p]);
    }
  }

  lemma RecordJoins(registry: map<string, seq<PlanFunc>>, start: map<Plan, seq<PlanFunc>>, done: set<Plan>,
                    world: set<Plan>, active: seq<Plan>, built: map<string, Plan>, kids: map<Plan, seq<Plan>>, c: Plan)
    requires Recorded(registry, start, done, world, active, built, kids) && c !in world && c !in start
    requires c.name in registry && c.childFuncs == registry[c.name] && c.childPlans == []
    ensures Recorded(registry, start, done, world + {c}, active, built, kids[c := []])
  {
    forall p | p in world ensures IsRecorded(registry, start, done, RoleOf(active, built, p), kids[c := []], p) {
      assert IsRecorded(registry, start, done, RoleOf(active, built, p), kids, p);
    }
  }

  lemma RecordPushes(registry: map<string, seq<PlanFunc>>, start: map<Plan, seq<PlanFunc>>, done: set<Plan>,
                     world: set<Plan>, active: seq<Plan>, built: map<string, Plan>, kids: map<Plan, seq<Plan>>, p: Plan)
    requires Recorded(registry, start, done, world, active, built, kids)
    requires RoleOf(active, built, p) == Untouched
    ensures Recorded(registry, start, done, world, active + [p], built, kids)
  {
    forall q | q in world
      ensures IsRecorded(registry, start, done, RoleOf(active + [p], built, q), kids, q)
    {
      assert IsRecorded(registry, start, done, RoleOf(active, built, q), kids, q);
      assert q in active + [p] <==> q in active || q == p;
    }
  }

  /** A plan that is being expanded still has the functions that it had. */
  lemma OpenAsks(registry: map<string, seq<PlanFunc>>, start: map<Plan, seq<PlanFunc>>, done: set<Plan>,
                 world: set<Plan>, active: seq<Plan>, built: map<string, Plan>, kids: map<Plan, seq<Plan>>, p: Plan)
    requires Recorded(registry, start, done, world, active, built, kids) && p in world && p in active && p !in done
    ensures p in kids && p.childPlans == kids[p] && p.childFuncs == Asked(registry, start, p)
  {
    assert IsRecorded(registry, start, done, RoleOf(active, built, p), kids, p);
  }

  lemma KidsAppend(registry: map<string, seq<PlanFunc>>, graph: Edges, start: map<Plan, seq<PlanFunc>>, done: set<Plan>,
                   world: set<Plan>, kids: map<Plan, seq<Plan>>, home: map<Plan, Place>, p: Plan, c: Plan)
    requires KidsOk(registry, graph, start, done, world, kids, home) && p in world && p !in done && c in world
    requires p in kids && |kids[p]| < |Asked(registry, start, p)|
    requires Given(start, home, Place(p, |kids[p]|), Asked(registry, start, p)[|kids[p]|], c)
    ensures KidsOk(registry, graph, start, done, world, kids[p := kids[p] + [c]], home)
  {
    hide FuncNames, Asked, Given;
    assert GivenInOrder(start, world, home, p, Asked(registry, start, p), kids[p]);
  }

  // ---------------------------------------------------------------- returned plans

  /** A plan of a finished name is returned again, or another of that name. */
  lemma LogReturns(world: set<Plan>, order: seq<string>, built: map<string, Plan>, log: seq<Plan>, p: Plan)
    requires LogOk(world, order, built, log) && p in world && p.name in built
    ensures LogOk(world, order, built, log + [p])
  {
    assert (log + [p])[..|log|] == log;
    var b := built[p.name];
    var k :| 0 <= k < |log| && log[k] == b;
    forall i: nat | IsFirst(log + [p], i) ensures i < |log| && IsFirst(log, i) {
      assert (log + [p])[k].name == p.name;
      assert forall j | 0 <= j < i && j < |log| :: (log + [p])[j] == log[j];
    }
  }

  lemma LogFinishes(world: set<Plan>, order: seq<string>, built: map<string, Plan>, log: seq<Plan>, p: Plan)
    requires LogOk(world, order, built, log) && p in world && p.name !in built
    ensures LogOk(world, order + [p.name], built[p.name := p], log + [p])
  {
    assert (log + [p])[..|log|] == log;
    var more, longer := built[p.name := p], log + [p];
    assert longer[|log|] == p;
    forall i: nat | IsFirst(longer, i) ensures longer[i].name in more && more[longer[i].name] == longer[i] {
      if i < |log| {
        FirstInFront(log, p, i);
        assert log[i] in log;
      }
    }
  }

  lemma FirstInFront(log: seq<Plan>, p: Plan, i: nat)
    requires i < |log|
    ensures IsFirst(log + [p], i) <==> IsFirst(log, i)
  {
    assert forall j | 0 <= j < i :: (log + [p])[j] == log[j];
  }

  lemma LogWidens(world: set<Plan>, order: seq<string>, built: map<string, Plan>, log: seq<Plan>, p: Plan)
    requires LogOk(world, order, built, log)
    ensures LogOk(world + {p}, order, built, log)
  {
  }

  lemma LoggedIsBuilt(world: set<Plan>, order: seq<string>, built: map<string, Plan>, log: seq<Plan>)
    requires LogOk(world, order, built, log)
    ensures forall p | p in log :: p in world && p.name in built
    ensures forall n | n in built :: built[n] in log
  {
  }

  lemma SameGrows(r: Record)
    ensures Grows(r, r)
  {
  }

  lemma GrowsOn(was: Record, mid: Record, now: Record)
    requires Grows(was, mid) && Grows(mid, now)
    ensures Grows(was, now)
  {
  }

  lemma OpenAreOnStack(graph: Edges, world: set<Plan>, stack: set<string>, frames: seq<string>, active: seq<Plan>)
    requires StackOk(graph, world, stack, frames, active)
    ensures forall p | p in active :: p.name in stack
  {
    forall p | p in active ensures p.name in stack {
      var i: nat :| i < |active| && active[i] == p;
      assert PlanNames(active)[i] == p.name;
    }
  }

  lemma LogGrows(r: Record, p: Plan)
    ensures Grows(r, r.(log := r.log + [p])) && (r.log + [p])[|r.log|..] == [p]
  {
  }

  lemma KidGrows(r: Record, p: Plan, c: Plan)
    requires p in r.kids && p !in r.log
    ensures Grows(r, r.(kids := r.kids[p := r.kids[p] + [c]]))
  {
  }

  lemma NewGrows(r: Record, c: Plan, place: Place)
    requires c !in r.kids && c !in r.home && c !in r.log
    ensures Grows(r, r.(kids := r.kids[c := []], home := r.home[c := place]))
  {
  }

  lemma ResolvesGrows(done: set<Plan>, p: Plan, was: Record, now: Record)
    requires Resolves(done, p, was, now)
    ensures Grows(was, now)
  {
  }

  /** A plan that has been returned, or has no children to resolve, is returned at once. */
  lemma ReturnsAtOnce(done: set<Plan>, p: Plan, r: Record)
    requires p in r.log || ChildrenOf(NewKids(done, r.kids), p) == []
    ensures Resolves(done, p, r, r.(log := r.log + [p]))
  {
    LogGrows(r, p);
    assert [p][..0] == [];
  }

  lemma NothingBelow(done: set<Plan>, p: Plan, r: Record)
    requires p in done || (p in r.kids && r.kids[p] == [])
    ensures ResolvesBelow(done, p, r, r)
  {
    SameGrows(r);
  }

  /** One more child has been called, resolved and appended. */
  lemma ResolvesMore(done: set<Plan>, p: Plan, child: Plan, was: Record, mid: Record, called: Record, now: Record)
    requires ResolvesBelow(done, p, was, mid)
    requires Grows(mid, called) && called.log == mid.log && Resolves(done, child, called, now)
    requires p in mid.kids && p in now.kids && now.kids[p] == mid.kids[p] && p !in done && p !in now.log
    ensures ResolvesBelow(done, p, was, now.(kids := now.kids[p := now.kids[p] + [child]]))
  {
    var after := now.(kids := now.kids[p := now.kids[p] + [child]]);
    KidGrows(now, p, child);
    GrowsOn(mid, called, now);
    GrowsOn(mid, now, after);
    GrowsOn(was, mid, after);
    SameBelow(done, mid, after);
    SameBelow(done, now, after);
    LogsJoin(was, mid, now);
    hide Grows, NewKids, Postorder, PostorderAll;
    var midKids, nowKids, endKids := NewKids(done, mid.kids), NewKids(done, now.kids), NewKids(done, after.kids);
    var s, s' := mid.log[|was.log|..], now.log[|mid.log|..];
    PostorderAllStays(midKids, endKids, was.log, ChildrenOf(midKids, p), s);
    PostorderStays(nowKids, endKids, mid.log, child, s');
    OneMoreReturned(endKids, was.log, ChildrenOf(midKids, p), s, child, s');
    OneMoreChild(done, p, child, mid.kids, now.kids);
  }

  /** The children of plans that have been returned stay as they are. */
  lemma SameBelow(done: set<Plan>, was: Record, now: Record)
    requires Grows(was, now)
    ensures forall q | q in was.log :: ChildrenOf(NewKids(done, was.kids), q) == ChildrenOf(NewKids(done, now.kids), q)
  {
    forall q | q in was.log
      ensures ChildrenOf(NewKids(done, was.kids), q) == ChildrenOf(NewKids(done, now.kids), q)
    {
      assert ChildrenOf(now.kids, q) == ChildrenOf(was.kids, q);
    }
  }

  lemma LogsJoin(was: Record, mid: Record, now: Record)
    requires was.log <= mid.log <= now.log
    ensures now.log[|was.log|..] == mid.log[|was.log|..] + now.log[|mid.log|..]
    ensures was.log + mid.log[|was.log|..] == mid.log
    ensures forall q | q in mid.log[|was.log|..] :: q in mid.log
    ensures forall q | q in now.log[|mid.log|..] :: q in now.log
  {
  }

  lemma OneMoreChild(done: set<Plan>, p: Plan, child: Plan, kids: map<Plan, seq<Plan>>, kids': map<Plan, seq<Plan>>)
    requires p in kids && p in kids' && kids'[p] == kids[p] && p !in done
    ensures ChildrenOf(NewKids(done, kids'[p := kids'[p] + [child]]), p) == ChildrenOf(NewKids(done, kids), p) + [child]
  {
  }

  /** Once everything below it has been resolved, the plan itself is returned. */
  lemma ResolvesItself(done: set<Plan>, p: Plan, was: Record, now: Record)
    requires ResolvesBelow(done, p, was, now) && p !in was.log
    ensures Resolves(done, p, was, now.(log := now.log + [p]))
  {
    LogGrows(now, p);
    GrowsOn(was, now, now.(log := now.log + [p]));
    var s := now.log[|was.log|..];
    assert (now.log + [p])[|was.log|..] == s + [p] && (s + [p])[..|s|] == s;
  }

  /** The state captured by the recursive closure of Build. */
  class Resolver {
    ghost const graph: Edges
    ghost const done: set<Plan>
    ghost const start: map<Plan, seq<PlanFunc>>  // the child functions of every plan when the build began
    const registry: map<string, seq<PlanFunc>>  // the child functions given by the constructor of each name
    var visited: set<string>
    var stack: set<string>
    var frames: seq<string>
    ghost var world: set<Plan>           // every plan object that exists
    ghost var active: seq<Plan>          // the plans being expanded, one for each frame
    ghost var order: seq<string>         // visited names in the order they finished
    ghost var built: map<string, Plan>   // the object that was expanded for each visited name
    ghost var kids: map<Plan, seq<Plan>> // the child plans of every plan
    ghost var home: map<Plan, Place>     // the place for which each new plan was made
    ghost var log: seq<Plan>             // every plan returned as resolved, in order

    constructor (registry: map<string, seq<PlanFunc>>, ghost graph: Edges, ghost done: set<Plan>,
                 ghost world: set<Plan>)
      requires Declares(registry, graph, world) && Ready(graph, done, world)
      ensures this.registry == registry && this.graph == graph && this.done == done && this.world == world
      ensures start == Functions(world) && start.Keys == world
      ensures Consistent() && frames == [] && order == [] && active == [] && built == map[] && visited == {}
      ensures log == []
    {
      this.registry, this.graph, this.done := registry, graph, done;
      start := Functions(world);
      visited, stack, frames := {}, {}, [];
      this.world, active, order, built := world, [], [], map[];
      kids, home, log := Children(world), map[], [];
      new;
      hide *;
      KidsAtStart(registry, graph, done, world);
      WorldAtStart(graph, done, world);
      Parts();
    }

    ghost predicate Consistent() reads this, world {
      && Declares(registry, graph, world) && DoneOk(graph, done, world)
      && BookOk(graph, done, world, stack, frames, active, visited, order, built)
      && WorldOk(graph, done, world, active, built)
      && KidsOk(registry, graph, start, done, world, kids, home)
      && Recorded(registry, start, done, world, active, built, kids)
      && LogOk(world, order, built, log)
    }

    ghost function Snapshot(): Record reads this {
      Record(kids, home, log)
    }

    lemma Recording()
      ensures Snapshot() == Record(kids, home, log)
    {
    }

    lemma Parts()
      ensures Consistent() <==>
                && Declares(registry, graph, world) && DoneOk(graph, done, world)
                && BookOk(graph, done, world, stack, frames, active, visited, order, built)
                && WorldOk(graph, done, world, active, built)
                && KidsOk(registry, graph, start, done, world, kids, home)
                && Recorded(registry, start, done, world, active, built, kids)
                && LogOk(world, order, built, log)
    {
    }

    /** Calls the child function of a place. */
    method Call(f: PlanFunc, ghost parent: string, ghost place: Place) returns (child: Plan)
      requires Consistent() && f.Name() in Deps(graph, parent)
      requires f.Returns? ==> f.existing in world
      modifies this`world, this`kids, this`home
      ensures Consistent() && child in world && child.name == f.Name()
      ensures log == old(log) && if f.Returns? then child == f.existing && world == old(world)
              else fresh(child) && world == old(world) + {child} && child !in old(world)
      ensures Given(start, home, place, f, child) && Grows(old(Snapshot()), Snapshot())
      ensures forall q | q in old(world) :: q in kids && q in old(kids) && kids[q] == old(kids[q])
    {
      hide *;
      Parts();
      CalledIsDeclared(registry, graph, world, f, parent);
      KidsHave(registry, graph, start, done, world, kids, home);
      if f.Constructs? {
        CalledIsDeclared(registry, graph, start.Keys, f, parent);
      }
      match f
      case Returns(existing) =>
        child := existing;
        GivenExisting(start, home, place, f);
        SameGrows(Snapshot());
      case Constructs(name) =>
        child := new Plan(name, registry[name]);
        BookGrows(graph, done, world, stack, frames, active, visited, order, built, child);
        WorldGrows(registry, graph, done, world, active, built, child);
        KidsJoin(registry, graph, start, done, world, kids, home, place, child);
        RecordJoins(registry, start, done, world, active, built, kids, child);
        Recording();
        LoggedIsBuilt(world, order, built, log);
        LogWidens(world, order, built, log, child);
        NewGrows(Snapshot(), child, place);
        world := world + {child};
        kids := kids[child := []];
        home := home[child := place];
        Recording();
        Parts();
    }

    /** Marks p as being expanded. */
    method Push(p: Plan)
      requires Consistent() && p in world && p.name !in stack && p.name !in visited
      requires frames != [] ==> p.name in Deps(graph, frames[|frames| - 1])
      modifies this`stack, this`frames, this`active
      ensures Consistent() && Lists(done, p, []) && |p.childFuncs| == |Todo(graph, done, p)|
      ensures stack == old(stack) + {p.name} && frames == old(frames) + [p.name] && active == old(active) + [p]
      ensures p !in old(active) && p.name in graph && frames[|frames| - 1] == p.name
    {
      hide *;
      Parts();
      BookPushes(graph, done, world, stack, frames, active, visited, order, built, p);
      WorldPushes(graph, done, world, active, built, p);
      RecordPushes(registry, start, done, world, active, built, kids, p);
      stack := stack + {p.name};
      frames := frames + [p.name];
      active := active + [p];
      Parts();
    }

    /** Appends a child, given by the next child function and resolved, to a plan that is being expanded. */
    method AddChild(p: Plan, child: Plan, ghost names: seq<string>, ghost before: Record, ghost mid: Record,
                    ghost called: Record)
      requires Consistent() && p in active && child in world && p !in done && PlanNames(p.childPlans) == names
      requires |names| < |p.childFuncs| && Given(start, called.home, Place(p, |names|), p.childFuncs[|names|], child)
      requires ResolvesBelow(done, p, before, mid) && Grows(mid, called) && called.log == mid.log
      requires Resolves(done, child, called, Snapshot()) && p in mid.kids && mid.kids[p] == p.childPlans
      modifies p`childPlans, this`kids
      ensures Consistent() && Lists(done, p, names + [child.name])
      ensures ResolvesBelow(done, p, before, Snapshot())
    {
      hide *;
      ActiveIsKnown(p);
      Parts();
      Recording();
      ResolvesGrows(done, child, called, Snapshot());
      GivenStill(start, called, Snapshot(), Place(p, |names|), p.childFuncs[|names|], child);
      ResolvesMore(done, p, child, before, mid, called, Snapshot());
      OneMoreName(p.childPlans, child);
      KidsAppend(registry, graph, start, done, world, kids, home, p, child);
      Attach(registry, graph, start, done, world, active, built, kids, p, child);
      kids := kids[p := kids[p] + [child]];
      ListsAre(done, p);
      Recording();
      Parts();
    }

    /** A plan that is being expanded is in the state that was recorded, and has not been returned. */
    lemma ActiveIsKnown(p: Plan)
      requires Consistent() && p in active && p !in done
      ensures p in world && p in kids && p.childPlans == kids[p] && p.childFuncs == Asked(registry, start, p)
      ensures p !in log
    {
      hide KidsOk, Declares, WorldOk, Topological;
      LoggedIsBuilt(world, order, built, log);
      OpenAsks(registry, start, done, world, active, built, kids, p);
      OpenAreOnStack(graph, world, stack, frames, active);
    }

    lemma EmptyBefore(p: Plan)
      requires Consistent() && p in world && Lists(done, p, [])
      ensures p in done || (p in kids && kids[p] == [])
    {
      KidsKnown(p);
      assert |PlanNames(p.childPlans)| == |p.childPlans|;
    }

    /** Ends the expansion of p, whose children have all been resolved. */
    method Pop(p: Plan, ghost outerFrames: seq<string>, ghost outerActive: seq<Plan>)
      requires Consistent() && frames == outerFrames + [p.name] && active == outerActive + [p]
      requires Lists(done, p, Deps(graph, p.name))
      requires forall j | 0 <= j < |Todo(graph, done, p)| :: Todo(graph, done, p)[j] in visited
      requires p in world && p.name !in built
      modifies this`stack, this`frames, this`active, this`visited, this`order, this`built, this`log, p`childFuncs
      ensures Consistent() && frames == outerFrames && active == outerActive
      ensures stack == old(stack) - {p.name} && visited == old(visited) + {p.name}
      ensures order == old(order) + [p.name] && built == old(built)[p.name := p] && log == old(log) + [p]
    {
      hide *;
      Parts();
      LogFinishes(world, order, built, log, p);
      BookPops(graph, done, world, stack, outerFrames, outerActive, visited, order, built, p);
      Settle(registry, graph, start, done, world, p, active, built, outerActive, built[p.name := p], kids);
      DropLast(outerFrames, p.name);
      DropLast(outerActive, p);
      frames, active := frames[..|frames| - 1], active[..|active| - 1];
      stack := stack - {p.name};
      visited := visited + {p.name};
      order := order + [p.name];
      built := built[p.name := p];
      log := log + [p];
      Parts();
    }

    /** What holds once the root has been resolved from an empty stack. */
    lemma AfterBuild(root: Plan)
      requires Consistent() && active == [] && root.name in built && built[root.name] == root
      requires Postorder(NewKids(done, kids), [], root, log)
      ensures Topological(Without(graph, Reused(done, built)), order)
      ensures forall n :: n in order <==> Reaches(Without(graph, Reused(done, built)), root.name, n)
      ensures !ReachesCycle(graph, root.name) && root.childFuncs == []
      ensures forall n :: n in built <==> n in order
      ensures forall n | n in built :: built[n] in world && built[n].name == n && Expanded(graph, done, built[n])
      ensures forall n | n in built :: !ReachesCycle(graph, n)
      ensures forall p | p in world && !(p.name in built && built[p.name] == p) :: Pristine(graph, done, p)
      ensures forall p | p in world :: p.name in graph && RefersInto(world, p)
      ensures forall p | p in done :: p in world && p.childFuncs == []
      ensures Declares(registry, graph, world)
      ensures forall p | p in world :: p in kids && p.childPlans == kids[p]
      ensures KidsOk(registry, graph, start, done, world, kids, home) && LogOk(world, order, built, log)
      ensures Postorder(Children(world - done), [], root, log)
    {
      StatesAtEnd();
      KidsHave(registry, graph, start, done, world, kids, home);
      assert Children(world - done) == NewKids(done, kids);
      ExpandedDeclares(graph, done, world, built);
      hide Topological, StackOk, Without, Reaches, ReachesCycle, Declares, KidsOk, Asked, RefersInto,
        Lists, Postorder, KidsDeclared, Recorded, IsFirst;
      OrderIsReached(Without(graph, Reused(done, built)), Children(world - done), root, world, order, built, log);
      ClosedAvoidsCycles(graph, Reused(done, built), order);
    }

    /** The same in terms of all that is declared, whatever had been done before. */
    lemma Outcome(root: Plan, children: map<Plan, seq<Plan>>)
      requires Consistent() && active == [] && root.name in built && built[root.name] == root
      requires Postorder(NewKids(done, kids), [], root, log)
      requires forall p | p in done ::
                 && p in children && p.childPlans == children[p]
                 && PlanNames(children[p]) == Deps(graph, p.name) && !ReachesCycle(graph, p.name)
      ensures Topological(Without(graph, Reused(done, built)), order)
      ensures forall n :: n in order <==> Reaches(Without(graph, Reused(done, built)), root.name, n)
      ensures !ReachesCycle(graph, root.name) && root.childFuncs == []
      ensures forall n :: n in built <==> n in order
      ensures forall n | n in built :: built[n] in world && built[n].name == n && Expanded(graph, {}, built[n])
      ensures forall p | p in world && !(p.name in built && built[p.name] == p) && p !in done :: Pristine(graph, {}, p)
      ensures forall p | p in world ::
                p.childFuncs == [] <==>
                    (p.name in built && built[p.name] == p) || p in done || Deps(graph, p.name) == []
      ensures forall n | n in built && built[n] !in done ::
                AreGiven(start.Keys, world, Asked(registry, start, built[n]), built[n].childPlans)
      ensures MadeOnce(start.Keys, world - done)
      ensures Buildable(graph, world) && Declares(registry, graph, world)
      ensures Postorder(Children(world - done), [], root, log) && LogOk(world, order, built, log)
      ensures forall p | p in done :: p.childFuncs == []
    {
      hide *;
      AfterBuild(root);
      StayExpanded(graph, done, children);
      NotDone(graph, done, world);
      BuiltIsBuildable(graph, done, world, built);
      ResolvedExactly(graph, done, world, built);
      KidsAreGiven(registry, graph, start, done, world, built, kids, home);
    }

    lemma StatesAtEnd()
      requires Consistent() && active == []
      ensures forall n | n in built :: built[n] in world && built[n].name == n && Expanded(graph, done, built[n])
      ensures forall p | p in world && !(p.name in built && built[p.name] == p) :: Pristine(graph, done, p)
      ensures forall p | p in done :: p.childFuncs == []
      ensures forall p | p in world :: p in kids && p.childPlans == kids[p]
    {
      hide Topological, StackOk, Without, Declares, KidsOk, Asked, RefersInto, Lists, LogOk;
      forall p | p in world
        ensures InState(graph, done, RoleOf([], built, p), p) && p in kids && p.childPlans == kids[p]
      {
        assert IsRecorded(registry, start, done, RoleOf([], built, p), kids, p);
      }
      forall n | n in built ensures Expanded(graph, done, built[n]) {
        assert RoleOf([], built, built[n]) == Built;
      }
    }

    lemma FramesCloseCycle(name: string)
      requires StackOk(graph, world, stack, frames, active) && name in stack
      requires name in Deps(graph, frames[|frames| - 1])
      ensures CyclePath(graph, frames + [name], frames + [name])
    {
      PathGrows(graph, frames, name);
      assert (frames + [name])[..|frames|] == frames;
    }

    /** The i-th child function of a plan that is being expanded. */
    lemma ChildFunc(p: Plan, i: nat)
      requires Consistent() && p in active && i < |p.childFuncs|
      ensures p !in done && |p.childFuncs| == |Deps(graph, p.name)| && p.childFuncs[i].Name() == Deps(graph, p.name)[i]
      ensures p.childFuncs[i].Name() in Deps(graph, p.name)
      ensures p.childFuncs[i].Returns? ==> p.childFuncs[i].existing in world
    {
      assert InState(graph, done, RoleOf(active, built, p), p) && RefersInto(world, p);
      assert FuncNames(p.childFuncs)[i] == p.childFuncs[i].Name();
    }

    lemma KidsKnown(p: Plan)
      requires Consistent() && p in world
      ensures p in kids && p.childPlans == kids[p]
    {
      assert IsRecorded(registry, start, done, RoleOf(active, built, p), kids, p);
    }

    /** A plan that is being expanded has no finished name. */
    lemma TopIsUnbuilt(p: Plan)
      requires Consistent() && frames != [] && p.name == frames[|frames| - 1]
      ensures p.name !in built
    {
    }

    method Resolve(p: Plan) returns (r: Plan, panic: Panic)
      requires Consistent() && p in world
      requires frames != [] ==> p.name in Deps(graph, frames[|frames| - 1])
      modifies this, world
      ensures old(world) <= world && fresh(world - old(world))
      ensures panic.NoPanic? ==>
                && Consistent() && r == p && p.name in visited && old(visited) <= visited
                && stack == old(stack) && frames == old(frames) && active == old(active)
                && Resolves(done, p, old(Snapshot()), Snapshot())
                && (forall q | q in done :: q.childPlans == old(q.childPlans))
                && (p.name !in old(visited) ==> p.name in built && built[p.name] == p)
                && (forall q | q in old(active) ::
                      q.childPlans == old(q.childPlans) && q.childFuncs == old(q.childFuncs))
      ensures panic.Cycle? ==> CyclePath(graph, old(frames) + [p.name], panic.names)
      decreases graph.Keys - visited - stack, 1
    {
      hide *;
      r, panic := p, NoPanic;
      StackIsKnown(p);
      if p.name in stack {
        FramesCloseCycle(p.name);
        return p, Cycle(frames + [p.name]);
      }
      if p.name in visited {
        Return(p);
        return;
      }
      panic := Expand(p);
    }

    lemma StackIsKnown(p: Plan)
      requires Consistent()
      ensures StackOk(graph, world, stack, frames, active) && visited == built.Keys
      ensures p.name in stack ==> frames != []
    {
    }

    /** A plan whose name has finished is returned as it is. */
    ghost method Return(p: Plan)
      requires Consistent() && p in world && p.name in visited
      modifies this`log
      ensures Consistent() && Resolves(done, p, old(Snapshot()), Snapshot()) && log == old(log) + [p]
    {
      hide *;
      StackIsKnown(p);
      AgainIsLeaf(p);
      Parts();
      Recording();
      LogReturns(world, order, built, log, p);
      ReturnsAtOnce(done, p, Snapshot());
      log := log + [p];
      Recording();
      Parts();
    }

    lemma AgainIsLeaf(p: Plan)
      requires Consistent() && p in world && p.name in visited
      ensures p in log || ChildrenOf(NewKids(done, kids), p) == []
    {
      KidsKnown(p);
      OpenAreOnStack(graph, world, stack, frames, active);
      hide KidsOk, Recorded, Declares, Topological, LogOk, StackOk;
      LoggedIsBuilt(world, order, built, log);
      if p !in log {
        assert InState(graph, done, Untouched, p);
        assert |PlanNames(p.childPlans)| == |p.childPlans|;
      }
    }

    method Expand(p: Plan) returns (panic: Panic)
      requires Consistent() && p in world && p.name !in stack && p.name !in visited && p.name !in built
      requires frames != [] ==> p.name in Deps(graph, frames[|frames| - 1])
      modifies this, world
      ensures old(world) <= world && fresh(world - old(world))
      ensures panic.NoPanic? ==>
                && Consistent() && p.name in visited && old(visited) <= visited
                && stack == old(stack) && frames == old(frames) && active == old(active)
                && Resolves(done, p, old(Snapshot()), Snapshot())
                && (forall q | q in done :: q.childPlans == old(q.childPlans))
                && (p.name !in old(visited) ==> p.name in built && built[p.name] == p)
                && (forall q | q in old(active) ::
                      q.childPlans == old(q.childPlans) && q.childFuncs == old(q.childFuncs))
      ensures panic.Cycle? ==> CyclePath(graph, old(frames) + [p.name], panic.names)
      decreases graph.Keys - visited - stack, 0
    {
      hide *;
      Parts();
      LoggedIsBuilt(world, order, built, log);
      Recording();
      Push(p);
      Recording();
      panic := ResolveChildren(p);
      if panic.NoPanic? {
        TopIsUnbuilt(p);
        Recording();
        ResolvesItself(done, p, old(Snapshot()), Snapshot());
        Pop(p, old(frames), old(active));
        Recording();
      }
    }

    /** The loop over the child functions of the plan on top of the stack. */
    method ResolveChildren(p: Plan) returns (panic: Panic)
      requires Consistent() && p in world && active != [] && p == active[|active| - 1] && frames[|frames| - 1] == p.name
      requires |p.childFuncs| == |Todo(graph, done, p)| && Lists(done, p, [])
      modifies this, world
      ensures old(world) <= world && fresh(world - old(world))
      ensures panic.NoPanic? ==>
                && Consistent() && old(visited) <= visited
                && (forall j | 0 <= j < |Todo(graph, done, p)| :: Todo(graph, done, p)[j] in visited)
                && stack == old(stack) && frames == old(frames) && active == old(active)
                && ResolvesBelow(done, p, old(Snapshot()), Snapshot())
                && Lists(done, p, Deps(graph, p.name))
                && (forall q | q in done :: q.childPlans == old(q.childPlans))
                && (forall q | q in old(active) && q != p ::
                      q.childPlans == old(q.childPlans) && q.childFuncs == old(q.childFuncs))
      ensures panic.Cycle? ==> CyclePath(graph, old(frames), panic.names)
      decreases graph.Keys - visited - stack, 3
    {
      hide *;
      panic := NoPanic;
      ghost var todo := Todo(graph, done, p);
      EmptyBefore(p);
      Recording();
      NothingBelow(done, p, Snapshot());
      TodoIsDeps(graph, done, p);
      var count := |p.childFuncs|;
      for i := 0 to count
        invariant panic.NoPanic? && Consistent()
        invariant old(world) <= world && fresh(world - old(world)) && old(visited) <= visited
        invariant stack == old(stack) && frames == old(frames) && active == old(active)
        invariant forall q | q in done :: q.childPlans == old(q.childPlans)
        invariant |p.childFuncs| == count && Lists(done, p, todo[..i])
        invariant ResolvesBelow(done, p, old(Snapshot()), Snapshot())
        invariant forall q | q in old(active) && q != p ::
                    q.childPlans == old(q.childPlans) && q.childFuncs == old(q.childFuncs)
        invariant forall j | 0 <= j < i :: todo[j] in visited
      {
        panic := ResolveChild(p, i, old(Snapshot()));
        if panic.Cycle? {
          return;
        }
      }
      assert todo[..count] == todo;
      TodoIsDeps(graph, done, p);
    }

    /** The body of the loop over the child functions: resolves the i-th child of the plan
        on top of the stack and appends it. */
    method ResolveChild(p: Plan, i: nat, ghost before: Record) returns (panic: Panic)
      requires Consistent() && p in world && active != [] && p == active[|active| - 1] && frames[|frames| - 1] == p.name
      requires i < |p.childFuncs| && |p.childFuncs| == |Todo(graph, done, p)|
      requires Lists(done, p, Todo(graph, done, p)[..i]) && ResolvesBelow(done, p, before, Snapshot())
      modifies this, world
      ensures old(world) <= world && fresh(world - old(world))
      ensures panic.NoPanic? ==>
                && Consistent() && old(visited) <= visited && Todo(graph, done, p)[i] in visited
                && stack == old(stack) && frames == old(frames) && active == old(active)
                && ResolvesBelow(done, p, before, Snapshot())
                && p.childFuncs == old(p.childFuncs) && Lists(done, p, Todo(graph, done, p)[..i + 1])
                && (forall q | q in done :: q.childPlans == old(q.childPlans))
                && (forall q | q in old(active) && q != p ::
                      q.childPlans == old(q.childPlans) && q.childFuncs == old(q.childFuncs))
      ensures panic.Cycle? ==> CyclePath(graph, old(frames), panic.names)
      decreases graph.Keys - visited - stack, 2
    {
      hide *;
      ghost var todo := Todo(graph, done, p);
      ChildFunc(p, i);
      TodoIsDeps(graph, done, p);
      ListsNames(done, p, todo[..i]);
      KidsKnown(p);
      Recording();
      var child := Call(p.childFuncs[i], p.name, Place(p, i));
      ghost var called := Snapshot();
      Recording();
      var resolved;
      resolved, panic := Resolve(child);
      if panic.Cycle? {
        CyclePathFromShorter(graph, old(frames), child.name, panic.names);
        return;
      }
      AddChild(p, resolved, todo[..i], before, old(Snapshot()), called);
      assert todo[..i] + [child.name] == todo[..i + 1];
    }
  }

  lemma TodoIsDeps(graph: Edges, done: set<Plan>, p: Plan)
    ensures p !in done ==> Todo(graph, done, p) == Deps(graph, p.name)
    ensures p in done ==> Todo(graph, done, p) == [] && forall names :: Lists(done, p, names)
  {
  }

  /** A path that extends `from`, whose last name repeats an earlier one and whose other names are distinct. */
  ghost predicate CyclePath(graph: Edges, from: seq<string>, names: seq<string>) {
    && from <= names && |names| >= 2 && IsPath(graph, names)
    && Distinct(names[..|names| - 1])
    && names[|names| - 1] in names[..|names| - 1]
  }

  lemma OneMoreName(ps: seq<Plan>, p: Plan)
    ensures |PlanNames(ps)| == |ps| && PlanNames(ps + [p]) == PlanNames(ps) + [p.name]
  {
  }

  lemma ListsAre(done: set<Plan>, p: Plan)
    ensures Lists(done, p, PlanNames(p.childPlans))
  {
  }

  lemma ListsNames(done: set<Plan>, p: Plan, names: seq<string>)
    requires Lists(done, p, names)
    ensures p !in done ==> PlanNames(p.childPlans) == names
  {
  }

  lemma DropLast<T>(s: seq<T>, x: T)
    ensures (s + [x])[..|s + [x]| - 1] == s
  {
  }

  lemma CyclePathMeansCycle(graph: Edges, n: string, names: seq<string>)
    requires CyclePath(graph, [n], names)
    ensures ReachesCycle(graph, n)
  {
    var stack, c := names[..|names| - 1], names[|names| - 1];
    assert IsPath(graph, stack);
    BackEdgeClosesCycle(graph, stack, c);
    assert names[0] == n;
    assert PathFromTo(graph, names, n, c);
    assert Reaches(graph, n, c);
  }

  lemma CyclePathFromShorter(graph: Edges, from: seq<string>, n: string, names: seq<string>)
    requires CyclePath(graph, from + [n], names)
    ensures CyclePath(graph, from, names)
  {
    assert from <= from + [n];
  }

  /** Every child that was resolved is declared. */
  ghost predicate KidsDeclared(below: Edges, kids: map<Plan, seq<Plan>>) {
    forall p, c | p in kids && c in kids[p] :: c.name in Deps(below, p.name)
  }

  lemma {:induction false} LedIsReached(below: Edges, kids: map<Plan, seq<Plan>>, p: Plan, path: seq<nat>)
    requires KidsDeclared(below, kids) && At(kids, p, path).Some?
    ensures Reaches(below, p.name, At(kids, p, path).value.name)
    decreases |path|
  {
    hide Reaches;
    if path == [] {
      ReachesSelf(below, p.name);
    } else {
      var c := ChildrenOf(kids, p)[path[0]];
      LedIsReached(below, kids, c, path[1..]);
      assert c in kids[p];
      EdgeReaches(below, p.name, c.name);
      ReachesTransitive(below, p.name, c.name, At(kids, p, path).value.name);
    }
  }

  /** The names that finish are exactly those that the root reaches through plans that were not done. */
  lemma OrderIsReached(below: Edges, kids: map<Plan, seq<Plan>>, root: Plan, world: set<Plan>, order: seq<string>,
                       built: map<string, Plan>, log: seq<Plan>)
    requires Topological(below, order) && KidsDeclared(below, kids)
    requires LogOk(world, order, built, log) && Postorder(kids, [], root, log)
    ensures forall n :: n in order <==> Reaches(below, root.name, n)
  {
    assert log[|log| - 1] == root;
    ReturnedExactly(kids, root, log);
    hide Postorder, Reaches, Topological, Leads, KidsDeclared, IsFirst;
    assert root in log && root.name in built;
    assert root.name in order;
    var i :| 0 <= i < |order| && order[i] == root.name;
    forall n | Reaches(below, root.name, n) ensures n in order {
      ReachedStandsBefore(below, order, i, n);
    }
    forall n | n in order ensures Reaches(below, root.name, n) {
      assert n in Elements(order);
      LeadsIsReached(below, kids, root, built[n]);
    }
  }

  lemma LeadsIsReached(below: Edges, kids: map<Plan, seq<Plan>>, p: Plan, q: Plan)
    requires KidsDeclared(below, kids) && Leads(kids, p, q)
    ensures Reaches(below, p.name, q.name)
  {
    var path: seq<nat> :| At(kids, p, path) == Some(q);
    LedIsReached(below, kids, p, path);
  }

  /** The children of the plans that were expanded are declared by the edges that are left. */
  lemma ExpandedDeclares(graph: Edges, done: set<Plan>, world: set<Plan>, built: map<string, Plan>)
    requires forall p | p in world && p !in done && !(p.name in built && built[p.name] == p) :: Pristine(graph, done, p)
    requires forall n | n in built :: Expanded(graph, done, built[n])
    ensures KidsDeclared(Without(graph, Reused(done, built)), Children(world - done))
  {
    var kids := Children(world - done);
    forall p: Plan, c: Plan | p in kids && c in kids[p]
      ensures c.name in Deps(Without(graph, Reused(done, built)), p.name) {
      var i :| 0 <= i < |kids[p]| && kids[p][i] == c;
      assert PlanNames(p.childPlans)[i] == c.name;
    }
  }

  /** After a successful build further plans can be built. */
  lemma BuiltIsBuildable(graph: Edges, done: set<Plan>, world: set<Plan>, built: map<string, Plan>)
    requires forall p | p in world :: p.name in graph && RefersInto(world, p)
    requires forall n | n in built :: !ReachesCycle(graph, n)
    requires forall p | p in world && p !in done && !(p.name in built && built[p.name] == p) :: Pristine(graph, {}, p)
    requires forall n | n in built :: Expanded(graph, {}, built[n])
    requires forall p | p in done :: Expanded(graph, {}, p) && !ReachesCycle(graph, p.name)
    ensures Buildable(graph, world)
  {
    hide ReachesCycle, RefersInto, Pristine, Expanded;
  }
}
