/** Where the order of registration cannot matter. If of any two producers that feed one slice
    one is always called first, and neither nil results nor implementers found in the store
    make a difference, every order of registration leads to the same calls. */
module CompositeExact {
  import opened Options
  import opened Graph
  import opened DepthFirst
  import opened CompositeModel
  import opened CompositeSearch
  import opened CompositeOrder
  import opened CompositeValues
  import opened CompositeSuccess
  import opened CompositeRearrangement
  import opened CompositePrecedence
  import opened CompositeRegistration
  import opened CompositeSlices

  // ---------------------------------------------------------------- the calls that stored a type

  /** The positions of the calls that stored a value under t. */
  ghost function StoreIndices(calls: seq<Call>, t: Type): (r: seq<nat>)
    ensures |r| == |Outputs(calls, t)|
  {
    if calls == [] then []
    else
      var c := calls[|calls| - 1];
      StoreIndices(calls[..|calls| - 1], t)
      + if Stores(c) && c.comp.produces.value == t then [|calls| - 1] else []
  }

  ghost predicate IncreasingBelow(idx: seq<nat>, n: nat) {
    (forall a | 0 <= a < |idx| :: idx[a] < n) && forall a, b | 0 <= a < b < |idx| :: idx[a] < idx[b]
  }

  lemma {:induction false} StoreIndicesIncrease(calls: seq<Call>, t: Type)
    ensures IncreasingBelow(StoreIndices(calls, t), |calls|)
  {
    if calls != [] {
      StoreIndicesIncrease(calls[..|calls| - 1], t);
    }
  }

  lemma {:induction false} StoreIndexAt(calls: seq<Call>, t: Type, a: nat)
    requires a < |Outputs(calls, t)|
    ensures StoredBy(calls, StoreIndices(calls, t)[a], t, Outputs(calls, t)[a])
  {
    var front := calls[..|calls| - 1];
    if a < |Outputs(front, t)| {
      StoreIndexAt(front, t, a);
      assert StoredBy(front, StoreIndices(front, t)[a], t, Outputs(front, t)[a]);
    }
  }

  lemma {:induction false} StoreIndicesHave(calls: seq<Call>, t: Type, k: nat, v: Value) returns (a: nat)
    requires StoredBy(calls, k, t, v)
    ensures a < |StoreIndices(calls, t)| && StoreIndices(calls, t)[a] == k
  {
    var front := calls[..|calls| - 1];
    if k < |front| {
      assert StoredBy(front, k, t, v);
      a := StoreIndicesHave(front, t, k, v);
    } else {
      a := |StoreIndices(front, t)|;
    }
  }

  /** The names of the components that stored a value under t, in the order of their calls. */
  ghost function StoreNames(calls: seq<Call>, t: Type): (r: seq<string>)
    ensures |r| == |Outputs(calls, t)|
  {
    StoreIndicesIncrease(calls, t);
    var idx := StoreIndices(calls, t);
    seq(|idx|, a requires 0 <= a < |idx| => calls[idx[a]].comp.name)
  }

  lemma StoreNameAt(calls: seq<Call>, t: Type, a: nat) returns (k: nat)
    requires a < |Outputs(calls, t)|
    ensures k < |calls| && k == StoreIndices(calls, t)[a]
    ensures StoreNames(calls, t)[a] == calls[k].comp.name && calls[k].comp.produces == Some(t)
    ensures calls[k].outcome == Returned(Outputs(calls, t)[a])
  {
    StoreIndexAt(calls, t, a);
    k := StoreIndices(calls, t)[a];
  }

  lemma StoredFeeds(comps: seq<Component>, implements: Implements, calls: seq<Call>, err: Option<CompositeError>,
                    k: nat, pos: nat, w: Type, n: string) returns (i: nat)
    requires FreshRun(comps, implements, calls, err) && k < |calls| && pos < |comps| && calls[k].comp == comps[pos]
    requires n in StoreNames(calls[..k], w)
    ensures Feeds(comps, i, pos, w) && comps[i].name == n
  {
    CallsInOrder(comps, implements, calls, err);
    hide FreshRun, DependenciesFirst, CallOk, StoreNames, StoreIndices, Outputs;
    var a :| 0 <= a < |StoreNames(calls[..k], w)| && StoreNames(calls[..k], w)[a] == n;
    var h := StoreNameAt(calls[..k], w, a);
    assert Names(calls)[h] != Names(calls)[k];
    i :| 0 <= i < |comps| && comps[i] == calls[h].comp;
  }

  lemma FeederHasStored(comps: seq<Component>, implements: Implements, calls: seq<Call>, err: Option<CompositeError>,
                        k: nat, pos: nat, t: Type, i: nat)
    requires FreshRun(comps, implements, calls, err) && k < |calls| && pos < |comps| && calls[k].comp == comps[pos]
    requires t in comps[pos].consumes && Feeds(comps, i, pos, Wanted(t))
    ensures comps[i].name in StoreNames(calls[..k], Wanted(t))
  {
    hide StoreNames, StoreIndices, Outputs, FreshRun;
    FreshIsDistinct(comps, implements, calls, err);
    FeedsIsOtherProducer(comps, i, pos, Wanted(t));
    assert comps[i] in comps;
    var h := ProducerHasReturned(comps, implements, calls, err, k, comps[i], t);
    hide DistinctNames;
    assert StoredBy(calls[..k], h, Wanted(t), calls[h].outcome.value);
    var a := StoreIndicesHave(calls[..k], Wanted(t), h, calls[h].outcome.value);
    var h' := StoreNameAt(calls[..k], Wanted(t), a);
  }

  /** Before the call of a component, exactly the other producers of a type that it wants have stored a value. */
  lemma StoredAre(comps: seq<Component>, implements: Implements, calls: seq<Call>, err: Option<CompositeError>,
                  k: nat, pos: nat, t: Type, n: string)
    requires FreshRun(comps, implements, calls, err) && k < |calls| && pos < |comps| && calls[k].comp == comps[pos]
    requires t in comps[pos].consumes
    ensures n in StoreNames(calls[..k], Wanted(t)) <==> exists i ::
              Feeds(comps, i, pos, Wanted(t)) && comps[i].name == n
  {
    hide StoreNames, FreshRun;
    if n in StoreNames(calls[..k], Wanted(t)) {
      var i := StoredFeeds(comps, implements, calls, err, k, pos, Wanted(t), n);
    }
    if i :| Feeds(comps, i, pos, Wanted(t)) && comps[i].name == n {
      FeederHasStored(comps, implements, calls, err, k, pos, t, i);
    }
  }

  // ---------------------------------------------------------------- one order only

  /** No name must come before an earlier one. */
  ghost predicate Settled(first: (string, string) -> bool, s: seq<string>) {
    forall a, b | 0 <= a < b < |s| :: !first(s[b], s[a])
  }

  ghost predicate Comparable(first: (string, string) -> bool, s: seq<string>) {
    forall x, y | x in s && y in s && x != y :: first(x, y) || first(y, x)
  }

  /** Names of which one must always come before the other have only one order that respects this. */
  lemma {:induction false} SettledIsUnique(first: (string, string) -> bool, s: seq<string>, t: seq<string>)
    requires Distinct(s) && Distinct(t) && Settled(first, s) && Settled(first, t) && Comparable(first, s)
    requires forall n :: n in s <==> n in t
    ensures s == t
  {
    assert t == [] || t[0] in t;
    if s != [] {
      var x := s[|s| - 1];
      assert x in s && x in t;
      var y := t[|t| - 1];
      assert y in t && y in s;
      assert x == y;
      var front, back := s[..|s| - 1], t[..|t| - 1];
      forall n ensures n in front <==> n in back {
        if n in front { assert n in s && n != x; }
        if n in back { assert n in t && n != y; }
      }
      assert Comparable(first, front) by {
        forall a, b | a in front && b in front && a != b ensures first(a, b) || first(b, a) {
          assert a in s && b in s;
        }
      }
      SettledIsUnique(first, front, back);
    }
  }

  // ---------------------------------------------------------------- runs mirror one another

  /** Of any two other producers of what a parameter wants, one is always called first. */
  ghost predicate FeedersOrdered(comps: seq<Component>, h: nat, pos: nat, t: Type)
    requires DistinctNames(comps)
  {
    forall i, j | Feeds(comps, i, pos, Wanted(t)) && Feeds(comps, j, pos, Wanted(t)) && i != j ::
      Fixed(comps, h, i, j) || Fixed(comps, h, j, i)
  }

  /** Of any two producers that feed the same slice, one is always called first. */
  ghost predicate SlicesOrdered(comps: seq<Component>, h: nat)
    requires DistinctNames(comps)
  {
    forall pos, t | 0 <= pos < |comps| && t in comps[pos].consumes && t.Slice? :: FeedersOrdered(comps, h, pos, t)
  }

  /** The component of the first name is always called before that of the second. */
  ghost predicate FirstByName(comps: seq<Component>, h: nat, n: string, m: string)
    requires DistinctNames(comps)
  {
    exists i, k :: Fixed(comps, h, i, k) && comps[i].name == n && comps[k].name == m
  }

  ghost function FirstIn(comps: seq<Component>, h: nat): (string, string) -> bool
    requires DistinctNames(comps)
  {
    (n, m) => FirstByName(comps, h, n, m)
  }

  lemma SlicesOrderedCarries(comps: seq<Component>, comps': seq<Component>, b: Bijection, h: nat)
    requires Matched(comps, comps', b) && KeepsHead(b, h) && SlicesOrdered(comps, h)
    ensures SlicesOrdered(comps', h)
  {
    forall pos, t | 0 <= pos < |comps'| && t in comps'[pos].consumes && t.Slice?
      ensures FeedersOrdered(comps', h, pos, t) {
      InRange(comps, comps', b, pos);
      assert FeedersOrdered(comps, h, b.to[pos], t);
      hide DistinctNames, Feeds, Fixed, SlicesOrdered, KeepsHead;
      forall i, j | Feeds(comps', i, pos, Wanted(t)) && Feeds(comps', j, pos, Wanted(t)) && i != j
        ensures Fixed(comps', h, i, j) || Fixed(comps', h, j, i)
      {
        FeedsInRange(comps', i, pos, Wanted(t));
        FeedsInRange(comps', j, pos, Wanted(t));
        FeedsCarries(comps, comps', b, i, pos, Wanted(t));
        FeedsCarries(comps, comps', b, j, pos, Wanted(t));
        assert b.to[i] != b.to[j];
        FixedCarries(comps, comps', b, h, i, j);
        FixedCarries(comps, comps', b, h, j, i);
      }
    }
  }

  /** Calls of the same component, with the same arguments and the same outcome. */
  ghost predicate Mirrors(comps: seq<Component>, comps': seq<Component>, b: Bijection, c: Call, c': Call)
    requires Matched(comps, comps', b)
  {
    && c.args == c'.args && c.outcome == c'.outcome
    && exists i :: 0 <= i < |comps'| && c.comp == comps[b.to[i]] && c'.comp == comps'[i]
  }

  ghost predicate Mirrored(comps: seq<Component>, comps': seq<Component>, b: Bijection, calls: seq<Call>, c': Call)
    requires Matched(comps, comps', b)
  {
    exists k :: 0 <= k < |calls| && Mirrors(comps, comps', b, calls[k], c')
  }

  /** A successful run and a run over the same components registered in another order. */
  datatype Runs = Runs(comps: seq<Component>, comps': seq<Component>, b: Bijection, h: nat, implements: Implements,
                       calls: seq<Call>, calls': seq<Call>, err': Option<CompositeError>)

  ghost predicate Comparison(r: Runs) {
    && Interchangeable(r.comps, r.comps', r.b, r.h, r.implements) && SlicesOrdered(r.comps, r.h)
    && FreshRun(r.comps, r.implements, r.calls, None)
    && FreshRun(r.comps', r.implements, r.calls', r.err')
  }

  lemma ComparedRegistrations(r: Runs)
    requires Comparison(r)
    ensures Matched(r.comps, r.comps', r.b) && DistinctNames(r.comps) && DistinctNames(r.comps')
    ensures KeepsHead(r.b, r.h) && HeadFirst(r.comps, r.h) && HeadFirst(r.comps', r.h)
    ensures FreshRun(r.comps, r.implements, r.calls, None) && FreshRun(r.comps', r.implements, r.calls', r.err')
  {
    hide DistinctNames, FreshRun, SlicesOrdered, ProperParameters, WellTyped, HeadFirst, NilsSafe, ImplementersSafe,
      IsBijection, Alike, KeepsHead;
    HeadCarries(r.comps, r.comps', r.b, r.h);
  }

  /** Two calls of the component at one position of the second registration. */
  ghost predicate SamePlace(r: Runs, k: nat, k': nat, pos: nat)
    requires Comparison(r)
  {
    && k < |r.calls| && k' < |r.calls'| && pos < |r.comps'|
    && r.calls[k].comp == r.comps[r.b.to[pos]] && r.calls'[k'].comp == r.comps'[pos]
  }

  lemma OrderedParameter(r: Runs, pos: nat, t: Type)
    requires Comparison(r) && pos < |r.comps'| && t in r.comps'[pos].consumes
    ensures FeedersOrdered(r.comps, r.h, r.b.to[pos], t) && t in r.comps[r.b.to[pos]].consumes
  {
    ComparedRegistrations(r);
    InRange(r.comps, r.comps', r.b, pos);
    ComparedParameters(r);
    hide Comparison, FeedersOrdered, DistinctNames, FreshRun, Matched, ProperParameters;
    ProperAt(r.comps, r.b.to[pos], t);
    if !t.Slice? {
      SingleIsOrdered(r.comps, r.h, r.implements, r.calls, r.b.to[pos], t);
    }
  }

  lemma ComparedParameters(r: Runs)
    requires Comparison(r)
    ensures DistinctNames(r.comps) && ProperParameters(r.comps) && SlicesOrdered(r.comps, r.h)
    ensures WellTyped(r.comps, r.implements)
    ensures InterfacesSettled(r.comps, r.implements)
  {
    hide FreshRun, SlicesOrdered, ProperParameters, WellTyped, HeadFirst, NilsSafe, ImplementersSafe, InterfacesSettled,
      IsBijection, Alike, KeepsHead;
    InterchangeableBack(r.comps, r.comps', r.b, r.h, r.implements);
  }

  lemma ProperAt(comps: seq<Component>, pos: nat, t: Type)
    requires ProperParameters(comps) && pos < |comps| && t in comps[pos].consumes
    ensures !t.Slice? || !t.elem.Interface?
  {
    assert comps[pos] in comps;
    assert ProperParameter(comps, comps[pos], t);
  }

  lemma SingleIsOrdered(comps: seq<Component>, h: nat, implements: Implements, calls: seq<Call>, pos: nat, t: Type)
    requires FreshRun(comps, implements, calls, None) && pos < |comps| && t in comps[pos].consumes && !t.Slice?
    requires ProperParameters(comps)
    ensures DistinctNames(comps) && FeedersOrdered(comps, h, pos, t)
  {
    FreshIsDistinct(comps, implements, calls, None);
    ProperInterfacesProduced(comps);
    SuccessIsViable(comps, implements, calls);
    hide FreshRun, FeedersOrdered, DistinctNames, Producers, OnlyFeeds, ProperParameters;
    assert comps[pos] in comps;
    var i := OneProducer(comps, pos, t);
    OneFeederIsOrdered(comps, h, i, pos, t);
  }

  lemma OneFeederIsOrdered(comps: seq<Component>, h: nat, i: nat, pos: nat, t: Type)
    requires DistinctNames(comps) && OnlyFeeds(comps, i, pos, t) && t == Wanted(t)
    ensures FeedersOrdered(comps, h, pos, t)
  {
    hide Feeds, Fixed, DistinctNames;
  }

  /** The names that stored a type before a call, each as the first registration calls it. */
  ghost function CounterNames(r: Runs, names: seq<string>): (cs: seq<string>)
    requires Comparison(r) && forall n | n in names :: IsName(r.comps', n)
    ensures |cs| == |names| && forall a | 0 <= a < |cs| :: cs[a] == Counterpart(r.comps, r.comps', r.b, names[a])
  {
    seq(|names|, a requires 0 <= a < |names| => Counterpart(r.comps, r.comps', r.b, names[a]))
  }

  lemma CounterpartsDiffer(r: Runs, n: string, m: string)
    requires Comparison(r) && IsName(r.comps', n) && IsName(r.comps', m) && n != m
    ensures Counterpart(r.comps, r.comps', r.b, n) != Counterpart(r.comps, r.comps', r.b, m)
  {
    ComparedRegistrations(r);
    hide Comparison, FreshRun;
    var i, j := PositionOf(r.comps', n), PositionOf(r.comps', m);
    assert r.b.from[r.b.to[i]] == i && r.b.from[r.b.to[j]] == j;
    NamesDiffer(r.comps, r.b.to[i], r.b.to[j]);
  }

  lemma StoreNamesSettled(comps: seq<Component>, h: nat, implements: Implements, calls: seq<Call>,
                          err: Option<CompositeError>,
                          k: nat, w: Type)
    requires FreshRun(comps, implements, calls, err) && k < |calls| && HeadFirst(comps, h)
    ensures Distinct(StoreNames(calls[..k], w)) && Settled(FirstIn(comps, h), StoreNames(calls[..k], w))
  {
    var s := StoreNames(calls[..k], w);
    FreshIsDistinct(comps, implements, calls, err);
    CallsFollowSchedule(comps, implements, calls, err);
    hide FreshRun, Schedule, Before, StoreNames, StoreIndices, Outputs, Fixed, HeadFirst, DistinctNames;
    StoreIndicesIncrease(calls[..k], w);
    forall a, b | 0 <= a < b < |s| ensures s[a] != s[b] && !FirstByName(comps, h, s[b], s[a]) {
      var g := StoreNameAt(calls[..k], w, a);
      var g' := StoreNameAt(calls[..k], w, b);
      assert g < g';
      if s[a] == s[b] {
        CalledOnce(comps, implements, calls, err, g, g');
      }
      LaterIsNotFirst(comps, h, s[a], s[b]);
    }
  }

  lemma LaterIsNotFirst(comps: seq<Component>, h: nat, n: string, m: string)
    requires DistinctNames(comps) && HeadFirst(comps, h) && Before(Schedule(comps), n, m)
    ensures !FirstByName(comps, h, m, n)
  {
    hide DistinctNames, HeadFirst, Schedule, Before;
    if i, k :| Fixed(comps, h, i, k) && comps[i].name == m && comps[k].name == n {
      FixedNotAfter(comps, h, i, k);
    }
  }

  lemma StoreNamesRegistered(comps: seq<Component>, implements: Implements, calls: seq<Call>,
                             err: Option<CompositeError>, k: nat, w: Type)
    requires FreshRun(comps, implements, calls, err) && k < |calls|
    ensures forall n | n in StoreNames(calls[..k], w) :: IsName(comps, n)
  {
    CallsInOrder(comps, implements, calls, err);
    hide FreshRun, DependenciesFirst, CallOk, InferredEdges, StoreNames, StoreIndices, Outputs, IsName;
    var before := calls[..k];
    forall n | n in StoreNames(before, w) ensures IsName(comps, n) {
      var a :| 0 <= a < |StoreNames(before, w)| && StoreNames(before, w)[a] == n;
      var h := StoreNameAt(before, w, a);
      RegisteredName(comps, calls[h].comp);
    }
  }

  lemma CounterNamesSettled(r: Runs, names: seq<string>)
    requires Comparison(r) && (forall n | n in names :: IsName(r.comps', n))
    requires DistinctNames(r.comps) && DistinctNames(r.comps') && Distinct(names)
    requires Settled(FirstIn(r.comps', r.h), names)
    ensures Distinct(CounterNames(r, names)) && Settled(FirstIn(r.comps, r.h), CounterNames(r, names))
  {
    hide Counterpart, CounterNames, FirstByName, IsName, Comparison, DistinctNames;
    var cs := CounterNames(r, names);
    forall a, b | 0 <= a < b < |cs| ensures cs[a] != cs[b] && !FirstByName(r.comps, r.h, cs[b], cs[a]) {
      assert names[a] in names && names[b] in names;
      CounterpartsDiffer(r, names[a], names[b]);
      assert !FirstIn(r.comps', r.h)(names[b], names[a]);
      if FirstByName(r.comps, r.h, cs[b], cs[a]) {
        CounterpartFirst(r, names[b], names[a]);
      }
    }
  }

  lemma CounterpartFirst(r: Runs, n: string, m: string)
    requires Comparison(r) && DistinctNames(r.comps) && DistinctNames(r.comps') && IsName(r.comps', n)
    requires IsName(r.comps', m)
    requires FirstByName(r.comps, r.h, Counterpart(r.comps, r.comps', r.b, n), Counterpart(r.comps, r.comps', r.b, m))
    ensures FirstByName(r.comps', r.h, n, m)
  {
    ComparedRegistrations(r);
    var i, j := PositionOf(r.comps', n), PositionOf(r.comps', m);
    InRange(r.comps, r.comps', r.b, i);
    InRange(r.comps, r.comps', r.b, j);
    hide Comparison, FreshRun, Fixed, HeadFirst, Matched, KeepsHead;
    var x, y :| Fixed(r.comps, r.h, x, y) && r.comps[x].name == r.comps[r.b.to[i]].name
      && r.comps[y].name == r.comps[r.b.to[j]].name;
    FixedInRange(r.comps, r.h, x, y);
    assert x == r.b.to[i] && y == r.b.to[j];
    FixedCarries(r.comps, r.comps', r.b, r.h, i, j);
  }

  lemma FixedInRange(comps: seq<Component>, h: nat, i: int, k: int)
    requires DistinctNames(comps) && Fixed(comps, h, i, k)
    ensures 0 <= i < |comps| && 0 <= k < |comps|
  {
    hide DistinctNames, Needs;
  }

  /** The same components have stored what a parameter wants, before a call and before its mirror. */
  lemma SameElements(r: Runs, k: nat, k': nat, pos: nat, t: Type, n: string)
    requires Comparison(r) && SamePlace(r, k, k', pos) && t in r.comps'[pos].consumes
    requires forall m | m in StoreNames(r.calls'[..k'], Wanted(t)) :: IsName(r.comps', m)
    ensures n in StoreNames(r.calls[..k], Wanted(t)) <==> n in CounterNames(r, StoreNames(r.calls'[..k'], Wanted(t)))
  {
    OrderedParameter(r, pos, t);
    ComparedRegistrations(r);
    hide Comparison, FreshRun, DistinctNames, FeedersOrdered, StoreNames, CounterNames, Counterpart, IsName, Feeds;
    var w, there := Wanted(t), StoreNames(r.calls'[..k'], Wanted(t));
    StoredAre(r.comps, r.implements, r.calls, None, k, r.b.to[pos], t, n);
    if n in StoreNames(r.calls[..k], w) {
      var i := StoredFeeds(r.comps, r.implements, r.calls, None, k, r.b.to[pos], w, n);
      ElementThere(r, k, k', pos, t, i);
    }
    if n in CounterNames(r, there) {
      var a :| 0 <= a < |CounterNames(r, there)| && CounterNames(r, there)[a] == n;
      assert there[a] in there;
      ElementHere(r, k, k', pos, t, there[a]);
    }
  }

  lemma ElementThere(r: Runs, k: nat, k': nat, pos: nat, t: Type, i: nat)
    requires Comparison(r) && SamePlace(r, k, k', pos) && t in r.comps'[pos].consumes
    requires forall m | m in StoreNames(r.calls'[..k'], Wanted(t)) :: IsName(r.comps', m)
    requires Feeds(r.comps, i, r.b.to[pos], Wanted(t))
    ensures r.comps[i].name in CounterNames(r, StoreNames(r.calls'[..k'], Wanted(t)))
  {
    ComparedRegistrations(r);
    var w, there, i' := Wanted(t), StoreNames(r.calls'[..k'], Wanted(t)), r.b.from[i];
    assert i' < |r.comps'| && r.b.to[i'] == i;
    hide Comparison, FreshRun, DistinctNames, IsBijection, StoreNames, CounterNames, Counterpart, IsName, Feeds;
    FeedsCarries(r.comps, r.comps', r.b, i', pos, w);
    FeederHasStored(r.comps', r.implements, r.calls', r.err', k', pos, t, i');
    CounterpartAt(r.comps, r.comps', r.b, i');
    var a :| 0 <= a < |there| && there[a] == r.comps'[i'].name;
    assert CounterNames(r, there)[a] == r.comps[i].name;
  }

  lemma ElementHere(r: Runs, k: nat, k': nat, pos: nat, t: Type, m: string)
    requires Comparison(r) && SamePlace(r, k, k', pos) && t in r.comps'[pos].consumes
    requires t in r.comps[r.b.to[pos]].consumes
    requires m in StoreNames(r.calls'[..k'], Wanted(t)) && IsName(r.comps', m)
    ensures Counterpart(r.comps, r.comps', r.b, m) in StoreNames(r.calls[..k], Wanted(t))
  {
    ComparedRegistrations(r);
    var w := Wanted(t);
    hide Comparison, FreshRun, DistinctNames, StoreNames, Counterpart, IsName, Feeds;
    var i' := StoredFeeds(r.comps', r.implements, r.calls', r.err', k', pos, w, m);
    FeedsInRange(r.comps', i', pos, w);
    FeedsCarries(r.comps, r.comps', r.b, i', pos, w);
    CounterpartAt(r.comps, r.comps', r.b, i');
    FeederHasStored(r.comps, r.implements, r.calls, None, k, r.b.to[pos], t, r.b.to[i']);
  }

  lemma StoreNamesComparable(r: Runs, k: nat, pos: nat, t: Type)
    requires Comparison(r) && DistinctNames(r.comps) && k < |r.calls| && pos < |r.comps|
    requires r.calls[k].comp == r.comps[pos]
    requires t in r.comps[pos].consumes && FeedersOrdered(r.comps, r.h, pos, t)
    ensures Comparable(FirstIn(r.comps, r.h), StoreNames(r.calls[..k], Wanted(t)))
  {
    var s := StoreNames(r.calls[..k], Wanted(t));
    ComparedRegistrations(r);
    hide Comparison, FreshRun, StoreNames, Fixed, Feeds, HeadFirst, Matched, DistinctNames, KeepsHead;
    forall x, y | x in s && y in s && x != y
      ensures FirstByName(r.comps, r.h, x, y) || FirstByName(r.comps, r.h, y, x)
    {
      var i := StoredFeeds(r.comps, r.implements, r.calls, None, k, pos, Wanted(t), x);
      var j := StoredFeeds(r.comps, r.implements, r.calls, None, k, pos, Wanted(t), y);
      assert Fixed(r.comps, r.h, i, j) || Fixed(r.comps, r.h, j, i);
    }
  }

  lemma SameStoreNames(r: Runs, k: nat, k': nat, pos: nat, t: Type)
    requires Comparison(r) && SamePlace(r, k, k', pos) && t in r.comps'[pos].consumes
    ensures forall m | m in StoreNames(r.calls'[..k'], Wanted(t)) :: IsName(r.comps', m)
    ensures StoreNames(r.calls[..k], Wanted(t)) == CounterNames(r, StoreNames(r.calls'[..k'], Wanted(t)))
  {
    OrderedParameter(r, pos, t);
    ComparedRegistrations(r);
    hide Comparison, StoreNames, CounterNames, FreshRun, FeedersOrdered, Distinct, Settled, Comparable, HeadFirst,
      FirstIn, DistinctNames, Matched, KeepsHead, IsName;
    var here, there := StoreNames(r.calls[..k], Wanted(t)), StoreNames(r.calls'[..k'], Wanted(t));
    StoreNamesSettled(r.comps, r.h, r.implements, r.calls, None, k, Wanted(t));
    StoreNamesSettled(r.comps', r.h, r.implements, r.calls', r.err', k', Wanted(t));
    StoreNamesRegistered(r.comps', r.implements, r.calls', r.err', k', Wanted(t));
    CounterNamesSettled(r, there);
    StoreNamesComparable(r, k, r.b.to[pos], t);
    forall n ensures n in here <==> n in CounterNames(r, there) {
      SameElements(r, k, k', pos, t, n);
    }
    SettledIsUnique(FirstIn(r.comps, r.h), here, CounterNames(r, there));
  }

  /** The call of a name has the outcome of its mirror. */
  lemma MirrorOfName(r: Runs, h: nat, h': nat)
    requires Comparison(r) && h < |r.calls| && h' < |r.calls'| && IsName(r.comps', r.calls'[h'].comp.name)
    requires r.calls[h].comp.name == Counterpart(r.comps, r.comps', r.b, r.calls'[h'].comp.name)
    requires Mirrored(r.comps, r.comps', r.b, r.calls, r.calls'[h'])
    ensures r.calls[h].outcome == r.calls'[h'].outcome
  {
    ComparedRegistrations(r);
    hide Comparison, FreshRun, InferredEdges, Counterpart, Matched, DistinctNames, Mirrors, IsName;
    var m :| 0 <= m < |r.calls| && Mirrors(r.comps, r.comps', r.b, r.calls[m], r.calls'[h']);
    MirrorIsCounterpart(r.comps, r.comps', r.b, r.calls[m], r.calls'[h']);
    CalledOnce(r.comps, r.implements, r.calls, None, m, h);
  }

  lemma MirrorIsCounterpart(comps: seq<Component>, comps': seq<Component>, b: Bijection, c: Call, c': Call)
    requires Matched(comps, comps', b) && Mirrors(comps, comps', b, c, c')
    ensures IsName(comps', c'.comp.name) && Counterpart(comps, comps', b, c'.comp.name) == c.comp.name
    ensures c.outcome == c'.outcome
  {
    var i :| 0 <= i < |comps'| && c.comp == comps[b.to[i]] && c'.comp == comps'[i];
    CounterpartAt(comps, comps', b, i);
  }

  /** If the calls before it are mirrored, the same values are stored before a call as before its mirror. */
  lemma SameOutputs(r: Runs, k: nat, k': nat, pos: nat, t: Type)
    requires Comparison(r) && SamePlace(r, k, k', pos) && t in r.comps'[pos].consumes
    requires forall m | 0 <= m < k' :: Mirrored(r.comps, r.comps', r.b, r.calls, r.calls'[m])
    ensures Outputs(r.calls[..k], Wanted(t)) == Outputs(r.calls'[..k'], Wanted(t))
  {
    SameStoreNames(r, k, k', pos, t);
    ComparedRegistrations(r);
    hide Comparison, FreshRun, Matched, DistinctNames, StoreNames, StoreIndices, CounterNames, InferredEdges, Outputs,
      Counterpart, Mirrors, IsName;
    var w := Wanted(t);
    var here, there := Outputs(r.calls[..k], w), Outputs(r.calls'[..k'], w);
    forall a | 0 <= a < |here| ensures a < |there| && here[a] == there[a] {
      SameOutput(r, k, k', w, a);
    }
  }

  lemma SameOutput(r: Runs, k: nat, k': nat, w: Type, a: nat)
    requires Comparison(r) && k < |r.calls| && k' < |r.calls'|
    requires forall m | m in StoreNames(r.calls'[..k'], w) :: IsName(r.comps', m)
    requires StoreNames(r.calls[..k], w) == CounterNames(r, StoreNames(r.calls'[..k'], w))
    requires forall m | 0 <= m < k' :: Mirrored(r.comps, r.comps', r.b, r.calls, r.calls'[m])
    requires a < |Outputs(r.calls[..k], w)| && a < |Outputs(r.calls'[..k'], w)|
    ensures Outputs(r.calls[..k], w)[a] == Outputs(r.calls'[..k'], w)[a]
  {
    ComparedRegistrations(r);
    hide Comparison, FreshRun, Matched, DistinctNames, StoreNames, StoreIndices, InferredEdges, Outputs, Counterpart,
      Mirrored, IsName;
    var h := StoreNameAt(r.calls[..k], w, a);
    var h' := StoreNameAt(r.calls'[..k'], w, a);
    assert StoreNames(r.calls'[..k'], w)[a] in StoreNames(r.calls'[..k'], w);
    MirrorOfName(r, h, h');
  }

  // ---------------------------------------------------------------- the same arguments

  /** What a slice parameter receives is determined by what is stored of its element type; it
      cannot be provided in one store and be unavailable in the same. */
  lemma SliceByOutputs(implements: Implements, before: seq<Call>, before': seq<Call>, t: Type, arg: Arg, arg': Arg)
    requires t.Slice? && !t.elem.Interface?
    requires Outputs(before, t.elem) == Outputs(before', t.elem) && Provided(implements, before, t, arg)
    ensures Provided(implements, before', t, arg') ==> arg == arg'
    ensures forall e :: !Unavailable(implements, before', t, e)
  {
    hide Outputs, Dedup, StoredValue;
  }

  lemma CallProvides(implements: Implements, before: seq<Call>, c: Call, j: nat)
    requires CallOk(Self, implements, before, c) && j < |c.args|
    ensures j < |c.comp.consumes| && Provided(implements, before, c.comp.consumes[j], c.args[j])
  {
    hide Provided, Unavailable;
  }

  lemma CallEndsAs(implements: Implements, before: seq<Call>, c: Call)
    requires CallOk(Self, implements, before, c) && |c.args| == |c.comp.consumes|
    ensures match c.comp.apply(c.args)
            case Success(v) => c.outcome == Returned(v)
            case Error(code) => c.outcome == Failed(ApplyFailed(code))
  {
    hide ArgsProvided;
  }

  /** If the calls before it are mirrored, so is the call. */
  lemma SameArguments(r: Runs, k: nat, k': nat, pos: nat)
    requires Comparison(r) && SamePlace(r, k, k', pos) && |r.calls[k].args| == |r.calls[k].comp.consumes|
    requires forall m | 0 <= m < k' :: Mirrored(r.comps, r.comps', r.b, r.calls, r.calls'[m])
    ensures r.calls[k].args == r.calls'[k'].args
  {
    ComparedRegistrations(r);
    InRange(r.comps, r.comps', r.b, pos);
    hide Comparison, FreshRun, Matched, DistinctNames;
    CallsInOrder(r.comps', r.implements, r.calls', r.err');
    hide DependenciesFirst, CallOk, Mirrored, InferredEdges, Distinct, Unavailable;
    CallStopsAtMissing(r.implements, r.calls'[..k'], r.calls'[k']);
    if |r.calls'[k'].args| < |r.calls'[k'].comp.consumes| {
      SameParameter(r, k, k', pos, |r.calls'[k'].args|);
    }
    forall j | 0 <= j < |r.calls'[k'].args|
      ensures j < |r.calls[k].args| && r.calls[k].args[j] == r.calls'[k'].args[j] {
      SameParameter(r, k, k', pos, j);
    }
  }

  lemma SameParameter(r: Runs, k: nat, k': nat, pos: nat, j: nat)
    requires Comparison(r) && SamePlace(r, k, k', pos) && |r.calls[k].args| == |r.calls[k].comp.consumes|
    requires forall m | 0 <= m < k' :: Mirrored(r.comps, r.comps', r.b, r.calls, r.calls'[m])
    requires j < |r.calls'[k'].comp.consumes|
    ensures j < |r.calls[k].args|
    ensures j < |r.calls'[k'].args| ==> r.calls[k].args[j] == r.calls'[k'].args[j]
    ensures forall e :: !Unavailable(r.implements, r.calls'[..k'], r.calls'[k'].comp.consumes[j], e)
  {
    ComparedRegistrations(r);
    ComparedParameters(r);
    InRange(r.comps, r.comps', r.b, pos);
    var t := r.calls'[k'].comp.consumes[j];
    ProperAt(r.comps, r.b.to[pos], t);
    hide Comparison, FreshRun, Matched, DistinctNames, ProperParameters, InterfacesSettled, SlicesOrdered, Mirrored,
      Unavailable;
    if t.Slice? {
      SameSlice(r, k, k', pos, j);
    } else {
      forall e ensures !Unavailable(r.implements, r.calls'[..k'], t, e) {
        SingleAvailable(r, k', pos, t, e);
      }
      if j < |r.calls'[k'].args| {
        SameSingle(r, k, k', pos, j);
      }
    }
  }

  lemma SameSlice(r: Runs, k: nat, k': nat, pos: nat, j: nat)
    requires Comparison(r) && SamePlace(r, k, k', pos)
    requires forall m | 0 <= m < k' :: Mirrored(r.comps, r.comps', r.b, r.calls, r.calls'[m])
    requires j < |r.calls'[k'].comp.consumes| && j < |r.calls[k].args|
    requires var t := r.calls'[k'].comp.consumes[j]; t.Slice? && !t.elem.Interface?
    ensures j < |r.calls'[k'].args| ==> r.calls[k].args[j] == r.calls'[k'].args[j]
    ensures forall e :: !Unavailable(r.implements, r.calls'[..k'], r.calls'[k'].comp.consumes[j], e)
  {
    ComparedRegistrations(r);
    InRange(r.comps, r.comps', r.b, pos);
    CallsInOrder(r.comps, r.implements, r.calls, None);
    CallsInOrder(r.comps', r.implements, r.calls', r.err');
    hide Comparison, FreshRun, Matched, DistinctNames, DependenciesFirst, CallOk, Mirrored, InferredEdges, Distinct,
      Unavailable, Provided;
    var c, c' := r.calls[k], r.calls'[k'];
    var t := c'.comp.consumes[j];
    SameOutputs(r, k, k', pos, t);
    CallProvides(r.implements, r.calls[..k], c, j);
    if j < |c'.args| {
      CallProvides(r.implements, r.calls'[..k'], c', j);
      SliceByOutputs(r.implements, r.calls[..k], r.calls'[..k'], t, c.args[j], c'.args[j]);
    } else {
      SliceByOutputs(r.implements, r.calls[..k], r.calls'[..k'], t, c.args[j], c.args[j]);
    }
  }

  lemma SingleAvailable(r: Runs, k': nat, pos: nat, t: Type, e: ExecError)
    requires Comparison(r) && k' < |r.calls'| && pos < |r.comps'| && r.calls'[k'].comp == r.comps'[pos]
    requires t in r.calls'[k'].comp.consumes && !t.Slice?
    requires forall m | 0 <= m < k' :: Mirrored(r.comps, r.comps', r.b, r.calls, r.calls'[m])
    ensures !Unavailable(r.implements, r.calls'[..k'], t, e)
  {
    ComparedRegistrations(r);
    ComparedParameters(r);
    OtherIsCompared(r);
    assert ConsumesInterface(r.comps'[pos]) || !IsInterface(t);
    if ConsumesInterface(r.comps'[pos]) {
      NoNilMirrored(r, k', pos);
    }
    hide Comparison, FreshRun, Matched, DistinctNames, ProperParameters, WellTyped, InterfacesSettled, SlicesOrdered,
      UniqueSingles, NoCycle, Unavailable, HeadFirst, KeepsHead, ConsumesInterface, StoredValue, Mirrored;
    ProperInterfacesProduced(r.comps);
    SuccessIsViable(r.comps, r.implements, r.calls);
    UniqueSinglesCarries(r.comps, r.comps', r.b);
    assert r.comps'[pos] in r.comps';
    UniqueAt(r.comps', r.comps'[pos], t);
    AlwaysAvailable(r.comps', r.implements, r.calls', r.err', k', t, e);
  }

  lemma OtherIsCompared(r: Runs)
    requires Comparison(r)
    ensures DistinctNames(r.comps') && ProperParameters(r.comps') && WellTyped(r.comps', r.implements)
    ensures InterfacesSettled(r.comps', r.implements)
  {
    hide FreshRun, SlicesOrdered, ProperParameters, WellTyped, HeadFirst, NilsSafe, ImplementersSafe, InterfacesSettled,
      Rearranged, KeepsHead;
    InterchangeableBack(r.comps, r.comps', r.b, r.h, r.implements);
    OtherIsProper(r.comps, r.comps', r.b, r.h, r.implements);
  }

  /** No nil that the other order stores early enough to do harm. */
  lemma NoNilMirrored(r: Runs, k': nat, pos: nat)
    requires Comparison(r) && k' < |r.calls'| && pos < |r.comps'| && r.calls'[k'].comp == r.comps'[pos]
    requires ConsumesInterface(r.comps'[pos]) && Matched(r.comps, r.comps', r.b)
    requires forall m | 0 <= m < k' :: Mirrored(r.comps, r.comps', r.b, r.calls, r.calls'[m])
    ensures !StoredValue(r.calls'[..k'], Nil)
  {
    hide FreshRun, SlicesOrdered, Interchangeable, Matched, ConsumesInterface, StoredValue, Mirrored;
    if StoredValue(r.calls'[..k'], Nil) {
      var m' := StoredIsOutput(r.calls', k', Nil);
      var m, q := MirrorPlace(r.comps, r.comps', r.b, r.calls, r.calls'[m']);
      NilIsTooLate(r.comps, r.comps', r.b, r.h, r.implements, r.calls, r.calls', r.err', m', k', q, pos);
    }
  }

  lemma MirrorPlace(comps: seq<Component>, comps': seq<Component>, b: Bijection, calls: seq<Call>, c': Call)
      returns (k: nat, q: nat)
    requires Matched(comps, comps', b) && Mirrored(comps, comps', b, calls, c')
    ensures k < |calls| && q < |comps'| && b.to[q] < |comps| && calls[k].outcome == c'.outcome
    ensures calls[k].comp == comps[b.to[q]] && c'.comp == comps'[q]
  {
    var m :| 0 <= m < |calls| && Mirrors(comps, comps', b, calls[m], c');
    var i :| 0 <= i < |comps'| && calls[m].comp == comps[b.to[i]] && c'.comp == comps'[i];
    InRange(comps, comps', b, i);
    k, q := m, i;
  }

  lemma SameSingle(r: Runs, k: nat, k': nat, pos: nat, j: nat)
    requires Comparison(r) && SamePlace(r, k, k', pos)
    requires forall m | 0 <= m < k' :: Mirrored(r.comps, r.comps', r.b, r.calls, r.calls'[m])
    requires j < |r.calls'[k'].comp.consumes| && j < |r.calls[k].args| && j < |r.calls'[k'].args|
    requires !r.calls'[k'].comp.consumes[j].Slice?
    ensures r.calls[k].args[j] == r.calls'[k'].args[j]
  {
    ComparedRegistrations(r);
    ComparedParameters(r);
    OtherIsCompared(r);
    InRange(r.comps, r.comps', r.b, pos);
    hide Comparison, FreshRun, Matched, DistinctNames, ProperParameters, InterfacesSettled, SlicesOrdered;
    var m := SingleArgument(r.comps, r.implements, r.calls, None, k, j);
    var m' := SingleArgument(r.comps', r.implements, r.calls', r.err', k', j);
    CallsInOrder(r.comps', r.implements, r.calls', r.err');
    hide DependenciesFirst, CallOk, Distinct, OtherProducer;
    var i :| 0 <= i < |r.comps'| && r.comps'[i] == r.calls'[m'].comp;
    ProducerMoves(r.comps, r.comps', r.b, pos, r.calls'[k'].comp.consumes[j], i);
    assert r.comps[r.b.to[i]] in r.comps;
    CounterpartAt(r.comps, r.comps', r.b, i);
    hide Mirrored;
    MirrorOfName(r, m, m');
  }

  /** Every call of the other run is the mirror of a call of the successful one. */
  lemma {:induction false} CallsMirror(r: Runs, k': nat)
    requires Comparison(r) && k' < |r.calls'|
    ensures Mirrored(r.comps, r.comps', r.b, r.calls, r.calls'[k'])
    decreases k'
  {
    forall m | 0 <= m < k' ensures Mirrored(r.comps, r.comps', r.b, r.calls, r.calls'[m]) {
      CallsMirror(r, m);
    }
    ComparedRegistrations(r);
    CallsInOrder(r.comps', r.implements, r.calls', r.err');
    var pos :| 0 <= pos < |r.comps'| && r.comps'[pos] == r.calls'[k'].comp;
    InRange(r.comps, r.comps', r.b, pos);
    ComparedBehaviour(r, pos);
    assert r.comps[r.b.to[pos]] in r.comps;
    hide Comparison, FreshRun, Matched, DistinctNames, DependenciesFirst, CallOk, InferredEdges, Distinct;
    var k := CallOfComponent(r.comps, r.implements, r.calls, r.comps[r.b.to[pos]]);
    SameArguments(r, k, k', pos);
    CallEndsAs(r.implements, r.calls'[..k'], r.calls'[k']);
    assert Mirrors(r.comps, r.comps', r.b, r.calls[k], r.calls'[k']);
  }

  lemma ComparedBehaviour(r: Runs, pos: nat)
    requires Comparison(r) && pos < |r.comps'|
    ensures r.comps[r.b.to[pos]].apply == r.comps'[pos].apply
  {
    hide FreshRun, SlicesOrdered, ProperParameters, InterfacesSettled, Matched;
  }

  /** Where the producers of every slice are ordered by need, all orders of registration
      succeed alike, call every component with the same arguments and end with the same values. */
  lemma OrderedSlicesFixCalls(r: Runs)
    requires Comparison(r)
    ensures r.err'.None?
    ensures forall k' | 0 <= k' < |r.calls'| :: Mirrored(r.comps, r.comps', r.b, r.calls, r.calls'[k'])
    ensures SameValues(r.comps, r.comps', r.b, ValuesOf(r.calls), ValuesOf(r.calls'))
  {
    ComparedRegistrations(r);
    ComparedParameters(r);
    ProperCarries(r.comps, r.comps', r.b);
    OtherIsCompared(r);
    hide Comparison, FreshRun, Matched, DistinctNames, ProperParameters, InterfacesSettled, SlicesOrdered, Mirrors,
      ValuesOf, Solves, Agrees;
    forall k' | 0 <= k' < |r.calls'|
      ensures Mirrored(r.comps, r.comps', r.b, r.calls, r.calls'[k']) && r.calls'[k'].outcome.Returned?
    {
      CallsMirror(r, k');
      MirrorReturned(r, k');
    }
    OtherRunSucceeds(r.comps, r.comps', r.b, r.implements, r.calls, r.calls', r.err');
    forall i | 0 <= i < |r.comps'|
      ensures r.comps'[i].name in ValuesOf(r.calls') && r.b.to[i] < |r.comps|
      ensures r.comps[r.b.to[i]].name in ValuesOf(r.calls)
      ensures ValuesOf(r.calls')[r.comps'[i].name] == ValuesOf(r.calls)[r.comps[r.b.to[i]].name]
    {
      InRange(r.comps, r.comps', r.b, i);
      SameValueAt(r, i);
    }
  }

  lemma MirrorReturned(r: Runs, k': nat)
    requires Comparison(r) && k' < |r.calls'| && Mirrored(r.comps, r.comps', r.b, r.calls, r.calls'[k'])
    ensures r.calls'[k'].outcome.Returned?
  {
    ComparedRegistrations(r);
    var k :| 0 <= k < |r.calls| && Mirrors(r.comps, r.comps', r.b, r.calls[k], r.calls'[k']);
    ComparedParameters(r);
    hide Comparison, FreshRun, Matched, DistinctNames, ProperParameters, InterfacesSettled;
    SuccessfulRunSolves(r.comps, r.implements, r.calls);
    assert Agrees(ValuesOf(r.calls), r.calls[k]);
  }

  lemma SameValueAt(r: Runs, i: nat)
    requires Comparison(r) && r.err'.None? && i < |r.comps'|
    requires forall k' | 0 <= k' < |r.calls'| :: Mirrored(r.comps, r.comps', r.b, r.calls, r.calls'[k'])
    ensures r.comps'[i].name in ValuesOf(r.calls') && r.comps[r.b.to[i]].name in ValuesOf(r.calls)
    ensures ValuesOf(r.calls')[r.comps'[i].name] == ValuesOf(r.calls)[r.comps[r.b.to[i]].name]
  {
    ComparedRegistrations(r);
    ComparedParameters(r);
    ProperCarries(r.comps, r.comps', r.b);
    OtherIsCompared(r);
    hide Comparison, FreshRun, DistinctNames, ProperParameters, InterfacesSettled, ValuesOf, Solves, Counterpart;
    assert r.comps'[i] in r.comps';
    var k' := CallOfComponent(r.comps', r.implements, r.calls', r.comps'[i]);
    SuccessfulRunSolves(r.comps, r.implements, r.calls);
    SuccessfulRunSolves(r.comps', r.implements, r.calls');
    var k :| 0 <= k < |r.calls| && Mirrors(r.comps, r.comps', r.b, r.calls[k], r.calls'[k']);
    MirrorIsCounterpart(r.comps, r.comps', r.b, r.calls[k], r.calls'[k']);
    CounterpartAt(r.comps, r.comps', r.b, i);
    assert Agrees(ValuesOf(r.calls), r.calls[k]) && Agrees(ValuesOf(r.calls'), r.calls'[k']);
  }
}
