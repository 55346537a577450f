/** The order of the inferred dependency lists, and with it the order in which components are
    called: of those that one component takes, in the order of its parameters and, for one
    parameter, in the order of registration. */
module CompositeEdges {
  import opened Options
  import opened Graph
  import opened DepthFirst
  import opened WalkOrder
  import opened CompositeModel
  import opened CompositeSearch
  import opened CompositeOrder
  import opened CompositeValues
  import opened CompositeSuccess
  import opened CompositeSlices

  // ---------------------------------------------------------------- dependency lists

  /** A parameter of a consumer and the position of another component that produces what it wants. */
  datatype Entry = Entry(parameter: nat, producer: nat)

  ghost predicate IsEntry(comps: seq<Component>, consumer: string, consumes: seq<Type>, e: Entry) {
    && e.parameter < |consumes| && e.producer < |comps|
    && OtherProducer(comps[e.producer], consumer, Wanted(consumes[e.parameter]))
  }

  ghost predicate Earlier(a: Entry, b: Entry) {
    a.parameter < b.parameter || (a.parameter == b.parameter && a.producer < b.producer)
  }

  ghost predicate Ascending(entries: seq<Entry>) {
    forall a, b | 0 <= a < b < |entries| :: Earlier(entries[a], entries[b])
  }

  ghost predicate Named(comps: seq<Component>, entries: seq<Entry>, names: seq<string>) {
    && |names| == |entries|
    && forall m | 0 <= m < |entries| :: entries[m].producer < |comps| && names[m] == comps[entries[m].producer].name
  }

  /** The names are those of the producers of all entries, by parameter and then by registration. */
  ghost predicate ListsEntries(comps: seq<Component>, consumer: string, consumes: seq<Type>, entries: seq<Entry>,
                               names: seq<string>) {
    && Ascending(entries) && Named(comps, entries, names)
    && forall e :: e in entries <==> IsEntry(comps, consumer, consumes, e)
  }

  lemma AscendingJoins(front: seq<Entry>, back: seq<Entry>)
    requires Ascending(front) && Ascending(back) && forall a, b | a in front && b in back :: Earlier(a, b)
    ensures Ascending(front + back)
  {
    hide Earlier;
    forall a, b | 0 <= a < b < |front + back| ensures Earlier((front + back)[a], (front + back)[b]) {
      if a < |front| <= b {
        assert front[a] in front && back[b - |front|] in back;
      }
    }
  }

  lemma NamedJoins(comps: seq<Component>, front: seq<Entry>, back: seq<Entry>, names: seq<string>, names': seq<string>)
    requires Named(comps, front, names) && Named(comps, back, names')
    ensures Named(comps, front + back, names + names')
  {
  }

  /** The entries of one parameter. */
  ghost predicate IsEntryOf(comps: seq<Component>, consumer: string, t: Type, parameter: nat, e: Entry) {
    e.parameter == parameter && e.producer < |comps| && OtherProducer(comps[e.producer], consumer, t)
  }

  /** The producers of one type, in the order of registration. */
  lemma {:induction false} ProducersListed(comps: seq<Component>, consumer: string, t: Type, parameter: nat)
    returns (entries: seq<Entry>)
    ensures Ascending(entries) && Named(comps, entries, Producers(comps, consumer, t))
    ensures forall e :: e in entries <==> IsEntryOf(comps, consumer, t, parameter, e)
  {
    entries := [];
    if comps != [] {
      var front, last := comps[..|comps| - 1], |comps| - 1;
      entries := ProducersListed(front, consumer, t, parameter);
      assert Named(comps, entries, Producers(front, consumer, t));
      var more := if OtherProducer(comps[last], consumer, t) then {Entry(parameter, last)} else {};
      forall e ensures IsEntryOf(comps, consumer, t, parameter, e) <==> e in entries || e in more {
        assert e in entries <==> IsEntryOf(front, consumer, t, parameter, e);
      }
      if OtherProducer(comps[last], consumer, t) {
        assert Named(comps, [Entry(parameter, last)], [comps[last].name]);
        hide OtherProducer, Producers;
        AscendingJoins(entries, [Entry(parameter, last)]);
        NamedJoins(comps, entries, [Entry(parameter, last)], Producers(front, consumer, t), [comps[last].name]);
        entries := entries + [Entry(parameter, last)];
      }
    }
  }

  lemma {:induction false} DependenciesListed(comps: seq<Component>, consumer: string, consumes: seq<Type>)
    returns (entries: seq<Entry>)
    ensures ListsEntries(comps, consumer, consumes, entries, DependenciesFor(comps, consumer, consumes))
  {
    entries := [];
    if consumes != [] {
      var front, last := consumes[..|consumes| - 1], |consumes| - 1;
      var earlier := DependenciesListed(comps, consumer, front);
      var more := ProducersListed(comps, consumer, Wanted(consumes[last]), last);
      entries := earlier + more;
      AscendingJoins(earlier, more);
      NamedJoins(comps, earlier, more, DependenciesFor(comps, consumer, front),
                 Producers(comps, consumer, Wanted(consumes[last])));
      hide Producers, Ascending, Named, OtherProducer;
      forall e ensures IsEntry(comps, consumer, consumes, e) <==> e in earlier || e in more {
        LastParameter(comps, consumer, consumes, e);
      }
    }
  }

  lemma LastParameter(comps: seq<Component>, consumer: string, consumes: seq<Type>, e: Entry)
    requires consumes != []
    ensures var last := |consumes| - 1;
            IsEntry(comps, consumer, consumes, e) <==>
            IsEntry(comps, consumer, consumes[..last], e) || IsEntryOf(comps, consumer, Wanted(consumes[last]), last, e)
  {
  }

  /** The dependency list of a component, said without building it. */
  lemma DependencyListIs(comps: seq<Component>, c: Component) returns (entries: seq<Entry>)
    requires DistinctNames(comps) && c in comps
    ensures ListsEntries(comps, c.name, c.consumes, entries, Deps(InferredEdges(comps), c.name))
  {
    EdgesOfComponent(comps, c);
    entries := DependenciesListed(comps, c.name, c.consumes);
  }

  /** This fixes the list. */
  lemma DependencyListIsUnique(comps: seq<Component>, consumer: string, consumes: seq<Type>, entries: seq<Entry>,
                               names: seq<string>, entries': seq<Entry>, names': seq<string>)
    requires ListsEntries(comps, consumer, consumes, entries, names)
    requires ListsEntries(comps, consumer, consumes, entries', names')
    ensures names == names'
  {
    hide IsEntry;
    AscendingIsUnique(entries, entries');
  }

  lemma {:induction false} AscendingIsUnique(a: seq<Entry>, b: seq<Entry>)
    requires Ascending(a) && Ascending(b) && forall e :: e in a <==> e in b
    ensures a == b
    decreases |a|
  {
    assert forall m | 0 <= m < |a| :: a[m] in b;
    assert forall m | 0 <= m < |b| :: b[m] in a;
    if a != [] && b != [] {
      assert a[0] in b && b[0] in a;
      assert a[0] == b[0];
      RestOf(a);
      RestOf(b);
      AscendingIsUnique(a[1..], b[1..]);
      assert a == [a[0]] + a[1..] && b == [b[0]] + b[1..];
    }
  }

  lemma RestOf(a: seq<Entry>)
    requires a != [] && Ascending(a)
    ensures forall e :: e in a[1..] <==> e in a && e != a[0]
  {
    assert a == [a[0]] + a[1..];
    forall m | 1 <= m < |a| ensures a[m] != a[0] {
      assert Earlier(a[0], a[m]);
    }
  }

  /** Of two entries the earlier one stands first. */
  lemma EntriesInOrder(comps: seq<Component>, c: Component, a: Entry, b: Entry)
    requires DistinctNames(comps) && c in comps && Earlier(a, b)
    requires IsEntry(comps, c.name, c.consumes, a) && IsEntry(comps, c.name, c.consumes, b)
    ensures Before(Deps(InferredEdges(comps), c.name), comps[a.producer].name, comps[b.producer].name)
  {
    var entries := DependencyListIs(comps, c);
    hide InferredEdges, IsEntry, Ascending, Earlier, DistinctNames;
    var i :| 0 <= i < |entries| && entries[i] == a;
    var k :| 0 <= k < |entries| && entries[k] == b;
    EarlierStandsFirst(entries, i, k);
    assert Deps(InferredEdges(comps), c.name)[i] == comps[a.producer].name;
  }

  // ---------------------------------------------------------------- how many produce a type

  ghost predicate ProducedTwice(comps: seq<Component>, consumer: string, t: Type) {
    exists i, k | 0 <= i < k < |comps| :: OtherProducer(comps[i], consumer, t) && OtherProducer(comps[k], consumer, t)
  }

  /** A type is ambiguous if two other components produce it. */
  lemma AmbiguousExactly(comps: seq<Component>, c: Component, t: Type)
    ensures Ambiguous(comps, c, t) <==>
            c in comps && t in c.consumes && !t.Slice? && ProducedTwice(comps, c.name, t)
  {
    var entries := ProducersListed(comps, c.name, t, 0);
    hide Producers, OtherProducer, Ascending, ProducedTwice;
    SeveralProduce(comps, c.name, t, entries);
  }

  lemma SeveralProduce(comps: seq<Component>, consumer: string, t: Type, entries: seq<Entry>)
    requires Ascending(entries) && forall e :: e in entries <==> IsEntryOf(comps, consumer, t, 0, e)
    ensures |entries| > 1 <==> ProducedTwice(comps, consumer, t)
  {
    hide OtherProducer;
    if |entries| > 1 {
      assert entries[0] in entries && entries[1] in entries && Earlier(entries[0], entries[1]);
    }
    if i, k :| 0 <= i < k < |comps| && OtherProducer(comps[i], consumer, t) && OtherProducer(comps[k], consumer, t) {
      assert Entry(0, i) in entries && Entry(0, k) in entries;
    }
  }

  /** Exactly one other component produces the type. */
  ghost predicate ProducedOnce(comps: seq<Component>, consumer: string, t: Type) {
    && (exists i | 0 <= i < |comps| :: OtherProducer(comps[i], consumer, t))
    && forall i, k | 0 <= i < |comps| && 0 <= k < |comps|
         && OtherProducer(comps[i], consumer, t) && OtherProducer(comps[k], consumer, t) :: i == k
  }

  lemma UniqueSinglesExactly(comps: seq<Component>)
    ensures UniqueSingles(comps) <==>
            forall c, t | c in comps && t in c.consumes && !t.Slice? :: ProducedOnce(comps, c.name, t)
  {
    forall c, t | c in comps && t in c.consumes
      ensures |Producers(comps, c.name, t)| == 1 <==> ProducedOnce(comps, c.name, t)
    {
      var entries := ProducersListed(comps, c.name, t, 0);
      hide Producers, OtherProducer, Ascending;
      SeveralProduce(comps, c.name, t, entries);
      if entries != [] {
        assert entries[0] in entries;
      }
      if i :| 0 <= i < |comps| && OtherProducer(comps[i], c.name, t) {
        assert Entry(0, i) in entries;
      }
    }
  }

  // ---------------------------------------------------------------- the order of calls

  /** Without a cycle, p is called before q exactly if q needs p, or p is needed first: by an earlier
      component, or by an earlier entry of the dependency list through which q is first needed. */
  lemma ScheduledBeforeExactly(comps: seq<Component>, p: Component, q: Component)
    requires DistinctNames(comps) && NoCycle(comps) && p in comps && q in comps
    ensures var edges := InferredEdges(comps);
            Before(Schedule(comps), p.name, q.name) <==>
            p != q && (Reaches(edges, q.name, p.name)
                       || exists path :: NeededFirst(edges, Registered(comps), p.name, q.name, path))
  {
    var edges, roots := InferredEdges(comps), Registered(comps);
    var order := Search(edges, roots).order;
    RegisteredFinish(comps);
    if p.name == q.name {
      SameName(comps, p, q);
    }
    hide NoCycle, DistinctNames, InferredEdges, Search, Reaches, NeededFirst, Known, Before, IsName;
    StandsBeforeExactly(edges, roots, p.name, q.name);
    RegisteredName(comps, p);
    RegisteredName(comps, q);
    BeforeAmongKnown(comps, order, p.name, q.name);
  }

  lemma RegisteredFinish(comps: seq<Component>)
    requires DistinctNames(comps) && NoCycle(comps)
    ensures var w := Search(InferredEdges(comps), Registered(comps));
            && w.cycle.None? && Topological(InferredEdges(comps), w.order) && forall c | c in comps :: c.name in w.order
  {
    var edges, roots := InferredEdges(comps), Registered(comps);
    SearchIsWalked(edges, roots);
    hide InferredEdges, ReachesCycle, Search, Topological, ReachedFrom;
    forall m | m in roots ensures !ReachesCycle(edges, m) {
      var i :| 0 <= i < |roots| && roots[i] == m;
      assert comps[i] in comps;
    }
    forall c | c in comps ensures c.name in roots {
      var i :| 0 <= i < |comps| && comps[i] == c;
      assert roots[i] == c.name;
    }
  }

  /** Leaving out unknown names changes nothing about known ones. */
  lemma BeforeAmongKnown(comps: seq<Component>, order: seq<string>, p: string, q: string)
    requires Distinct(order) && p in order && q in order && IsName(comps, p) && IsName(comps, q)
    ensures Before(Known(comps, order), p, q) <==> Before(order, p, q)
  {
    KnownDistinct(comps, order);
    var known := Known(comps, order);
    hide Known, IsName;
    if Before(order, p, q) {
      KnownBefore(comps, order, p, q);
    } else if p != q {
      assert Before(order, q, p);
      KnownBefore(comps, order, q, p);
    }
    OneWayOnly(known, p, q);
  }

  // ---------------------------------------------------------------- producers of one type

  /** A parameter of that type, or a slice of it. */
  ghost predicate Takes(c: Component, t: Type) {
    exists s :: s in c.consumes && Wanted(s) == t
  }

  /** Of two producers of one type the one registered first stands first in every dependency list but its own. */
  lemma ListsFavourFirst(comps: seq<Component>, a: nat, b: nat, t: Type)
    requires DistinctNames(comps) && a < b < |comps| && !Takes(comps[a], t)
    requires comps[a].produces == Some(t) && comps[b].produces == Some(t)
    ensures Favours(Registered(comps), comps[a].name, comps[b].name)
    ensures forall n :: Favours(Deps(InferredEdges(comps), n), comps[a].name, comps[b].name)
  {
    var p, q := comps[a], comps[b];
    assert Registered(comps)[..b][a] == p.name;
    forall n ensures Favours(Deps(InferredEdges(comps), n), p.name, q.name) {
      if c :| c in comps && c.name == n {
        ListFavoursFirst(comps, c, a, b, t);
      }
    }
  }

  lemma ListFavoursFirst(comps: seq<Component>, c: Component, a: nat, b: nat, t: Type)
    requires DistinctNames(comps) && a < b < |comps| && !Takes(comps[a], t) && c in comps
    requires comps[a].produces == Some(t) && comps[b].produces == Some(t)
    ensures Favours(Deps(InferredEdges(comps), c.name), comps[a].name, comps[b].name)
  {
    var entries := DependencyListIs(comps, c);
    var names := Deps(InferredEdges(comps), c.name);
    hide InferredEdges, Takes;
    forall k | 0 <= k < |names| && names[k] == comps[b].name ensures comps[a].name in names[..k] {
      var e := entries[k];
      assert e in entries && IsEntry(comps, c.name, c.consumes, e);
      assert comps[e.producer].name == comps[b].name;
      assert e.producer == b;
      assert Wanted(c.consumes[e.parameter]) == t;
      NotTheConsumer(comps, c, a, e.parameter, t);
      var first := Entry(e.parameter, a);
      assert IsEntry(comps, c.name, c.consumes, first);
      var m :| 0 <= m < |entries| && entries[m] == first;
      EarlierStandsFirst(entries, m, k);
      assert names[..k][m] == comps[a].name;
    }
  }

  lemma NotTheConsumer(comps: seq<Component>, c: Component, a: nat, k: nat, t: Type)
    requires DistinctNames(comps) && c in comps && a < |comps| && k < |c.consumes| && Wanted(c.consumes[k]) == t
    ensures comps[a].name == c.name ==> Takes(comps[a], t)
  {
    if comps[a].name == c.name {
      SameName(comps, comps[a], c);
    }
  }

  lemma EarlierStandsFirst(entries: seq<Entry>, m: nat, k: nat)
    requires Ascending(entries) && m < |entries| && k < |entries|
    ensures Earlier(entries[m], entries[k]) <==> m < k
  {
    if k < m {
      assert Earlier(entries[k], entries[m]);
    }
  }

  /** Of two producers of one type the one registered first is called first, unless it takes that type itself. */
  lemma RegisteredFirstIsCalledFirst(comps: seq<Component>, a: nat, b: nat, t: Type)
    requires DistinctNames(comps) && a < b < |comps|
    requires comps[a].produces == Some(t) && comps[b].produces == Some(t)
    requires comps[a].name in Schedule(comps) && comps[b].name in Schedule(comps)
    ensures Before(Schedule(comps), comps[a].name, comps[b].name) <==> !Takes(comps[a], t)
  {
    var edges, p, q := InferredEdges(comps), comps[a], comps[b];
    var order := Search(edges, Registered(comps)).order;
    SearchIsTopological(edges, Registered(comps));
    KnownHas(comps, order, p.name);
    KnownHas(comps, order, q.name);
    RegisteredName(comps, p);
    RegisteredName(comps, q);
    assert p.name != q.name;
    BeforeAmongKnown(comps, order, p.name, q.name);
    hide InferredEdges, Known, Search, Before, IsName, Registered, DistinctNames;
    if Takes(p, t) {
      NeedsTheOther(comps, p, q, t);
      NeededStandsBefore(edges, order, q.name, p.name);
      OneWayOnly(order, p.name, q.name);
    } else {
      ListsFavourFirst(comps, a, b, t);
      FavouredInSearch(edges, Registered(comps), p.name, q.name);
    }
  }

  lemma NeedsTheOther(comps: seq<Component>, p: Component, q: Component, t: Type)
    requires DistinctNames(comps) && p in comps && q in comps && p.name != q.name
    requires Takes(p, t) && q.produces == Some(t)
    ensures Reaches(InferredEdges(comps), p.name, q.name)
  {
    InferredEdge(comps, p, q.name);
    hide InferredEdges, DistinctNames;
    var s :| s in p.consumes && Wanted(s) == t;
    assert OtherProducer(q, p.name, Wanted(s));
    EdgeReaches(InferredEdges(comps), p.name, q.name);
  }

  /** A slice lists the outputs of its producers in the order of registration, as far as these do not
      take that type themselves and the key of the later one is new when it is stored. */
  lemma SliceInRegistrationOrder(comps: seq<Component>, implements: Implements, calls: seq<Call>,
                                 err: Option<CompositeError>, i: nat, j: nat, a: nat, b: nat)
      returns (k: nat, v: Value, w: Value)
    requires FreshRun(comps, implements, calls, err) && a < b < |comps|
    requires i < |calls| && j < |calls[i].args| && j < |calls[i].comp.consumes|
    requires calls[i].comp.consumes[j].Slice? && !calls[i].comp.consumes[j].elem.Interface?
    requires OtherProducer(comps[a], calls[i].comp.name, calls[i].comp.consumes[j].elem)
    requires OtherProducer(comps[b], calls[i].comp.name, calls[i].comp.consumes[j].elem)
    requires !Takes(comps[a], calls[i].comp.consumes[j].elem)
    ensures k < i && OutputOf(calls, i, comps[a], v) && calls[k].comp == comps[b] && calls[k].outcome == Returned(w)
    ensures calls[i].args[j].Many?
    ensures (forall m, u | 0 <= m < k && StoredBy(calls, m, calls[i].comp.consumes[j].elem, u) ::
      UniqueKey(u) != UniqueKey(w)) ==> KeyPrecedes(calls[i].args[j].values, v, w)
  {
    var t := calls[i].comp.consumes[j];
    FreshIsDistinct(comps, implements, calls, err);
    CallsFollowSchedule(comps, implements, calls, err);
    var h := ProducerHasReturned(comps, implements, calls, err, i, comps[a], t);
    k := ProducerHasReturned(comps, implements, calls, err, i, comps[b], t);
    hide FreshRun, Schedule, Before, DistinctNames, Takes, HasKey, DistinctKeys, KeyPrecedes, CompositeRun;
    assert Names(calls)[h] == comps[a].name && Names(calls)[k] == comps[b].name;
    RegisteredFirstIsCalledFirst(comps, a, b, t.elem);
    k, v, w := ScheduledFirstInSlice(comps, implements, calls, err, i, j, comps[a], comps[b]);
  }
}
