/** Components registered in another order, and so under other names: what the two
    registrations have in common. */
module CompositeRearrangement {
  import opened Options
  import opened Graph
  import opened CompositeModel
  import opened CompositeValues
  import opened CompositeSuccess

  /** Where each component of a second list stands in the first, and the reverse. */
  datatype Bijection = Bijection(to: seq<nat>, from: seq<nat>)

  ghost predicate IsBijection(b: Bijection, n: nat) {
    && |b.to| == n && |b.from| == n
    && (forall i | 0 <= i < n :: b.to[i] < n && b.from[b.to[i]] == i)
    && forall i | 0 <= i < n :: b.from[i] < n && b.to[b.from[i]] == i
  }

  function Inverse(b: Bijection): Bijection {
    Bijection(b.from, b.to)
  }

  /** The same signature. */
  predicate Alike(c: Component, c': Component) {
    c.consumes == c'.consumes && c.produces == c'.produces
  }

  /** The second list holds components with the signatures of the first, at other positions. */
  ghost predicate Matched(comps: seq<Component>, comps': seq<Component>, b: Bijection) {
    && DistinctNames(comps) && DistinctNames(comps') && |comps| == |comps'| && IsBijection(b, |comps|)
    && forall i | 0 <= i < |comps'| :: Alike(comps[b.to[i]], comps'[i])
  }

  /** The same components at other positions, whatever they are called. */
  ghost predicate Rearranged(comps: seq<Component>, comps': seq<Component>, b: Bijection) {
    && Matched(comps, comps', b)
    && forall i | 0 <= i < |comps'| :: comps[b.to[i]].apply == comps'[i].apply
  }

  lemma InverseMatches(comps: seq<Component>, comps': seq<Component>, b: Bijection)
    requires Matched(comps, comps', b)
    ensures Matched(comps', comps, Inverse(b))
    ensures Rearranged(comps, comps', b) ==> Rearranged(comps', comps, Inverse(b))
  {
    hide DistinctNames;
    forall i | 0 <= i < |comps| ensures Alike(comps'[b.from[i]], comps[i]) {
      assert Alike(comps[b.to[b.from[i]]], comps'[b.from[i]]);
    }
    if Rearranged(comps, comps', b) {
      forall i | 0 <= i < |comps| ensures comps'[b.from[i]].apply == comps[i].apply {
        assert comps[b.to[b.from[i]]].apply == comps'[b.from[i]].apply;
      }
    }
  }

  // ---------------------------------------------------------------- counterparts

  ghost function PositionOf(comps: seq<Component>, n: string): (i: nat)
    requires IsName(comps, n)
    ensures i < |comps| && comps[i].name == n
  {
    var i :| 0 <= i < |comps| && comps[i].name == n;
    i
  }

  /** The name under which the first list knows a component of the second. */
  ghost function Counterpart(comps: seq<Component>, comps': seq<Component>, b: Bijection, n: string): string
    requires Matched(comps, comps', b) && IsName(comps', n)
  {
    comps[b.to[PositionOf(comps', n)]].name
  }

  lemma CounterpartAt(comps: seq<Component>, comps': seq<Component>, b: Bijection, i: nat)
    requires Matched(comps, comps', b) && i < |comps'|
    ensures IsName(comps', comps'[i].name) && Counterpart(comps, comps', b, comps'[i].name) == comps[b.to[i]].name
  {
  }

  /** Another producer of a type, for the component at a position. */
  ghost predicate Feeds(comps: seq<Component>, i: int, j: int, t: Type) {
    0 <= i < |comps| && 0 <= j < |comps| && i != j && comps[i].produces == Some(t)
  }

  lemma FeedsIsOtherProducer(comps: seq<Component>, i: nat, j: nat, t: Type)
    requires DistinctNames(comps) && i < |comps| && j < |comps|
    ensures Feeds(comps, i, j, t) <==> OtherProducer(comps[i], comps[j].name, t)
  {
  }

  lemma FeedsCarries(comps: seq<Component>, comps': seq<Component>, b: Bijection, i: nat, j: nat, t: Type)
    requires Matched(comps, comps', b) && i < |comps'| && j < |comps'|
    ensures Feeds(comps', i, j, t) <==> Feeds(comps, b.to[i], b.to[j], t)
  {
    hide DistinctNames;
    assert Alike(comps[b.to[i]], comps'[i]);
  }

  // ---------------------------------------------------------------- edges, paths, cycles

  lemma EdgeOfPosition(comps: seq<Component>, j: nat, d: string) returns (i: nat, t: Type)
    requires DistinctNames(comps) && j < |comps| && d in Deps(InferredEdges(comps), comps[j].name)
    ensures i < |comps| && comps[i].name == d && t in comps[j].consumes && Feeds(comps, i, j, Wanted(t))
  {
    InferredEdge(comps, comps[j], d);
    hide InferredEdges;
    var p, u :| p in comps && u in comps[j].consumes && OtherProducer(p, comps[j].name, Wanted(u)) && p.name == d;
    i :| 0 <= i < |comps| && comps[i] == p;
    t := u;
  }

  lemma FeedsIsEdge(comps: seq<Component>, i: nat, j: nat, t: Type)
    requires DistinctNames(comps) && Feeds(comps, i, j, Wanted(t)) && t in comps[j].consumes
    ensures comps[i].name in Deps(InferredEdges(comps), comps[j].name)
  {
    FeedsIsOtherProducer(comps, i, j, Wanted(t));
    InferredEdge(comps, comps[j], comps[i].name);
    hide InferredEdges;
    assert comps[i] in comps;
  }

  lemma EdgeCarries(comps: seq<Component>, comps': seq<Component>, b: Bijection, n: string, d: string)
    requires Matched(comps, comps', b) && IsName(comps', n) && d in Deps(InferredEdges(comps'), n)
    ensures IsName(comps', d)
    ensures Counterpart(comps, comps', b, d) in Deps(InferredEdges(comps), Counterpart(comps, comps', b, n))
  {
    hide InferredEdges, DistinctNames, Feeds;
    var j := PositionOf(comps', n);
    var i, t := EdgeOfPosition(comps', j, d);
    FeedsCarries(comps, comps', b, i, j, Wanted(t));
    assert Alike(comps[b.to[j]], comps'[j]);
    FeedsIsEdge(comps, b.to[i], b.to[j], t);
    CounterpartAt(comps, comps', b, i);
    CounterpartAt(comps, comps', b, j);
  }

  /** A path from a registered name has a counterpart. */
  lemma {:induction false} PathCarries(comps: seq<Component>, comps': seq<Component>, b: Bijection, p: seq<string>)
      returns (q: seq<string>)
    requires Matched(comps, comps', b) && IsPath(InferredEdges(comps'), p) && IsName(comps', p[0])
    ensures |q| == |p| && IsPath(InferredEdges(comps), q)
    ensures IsName(comps', p[|p| - 1]) && q[0] == Counterpart(comps, comps', b, p[0])
    ensures q[|q| - 1] == Counterpart(comps, comps', b, p[|p| - 1])
    decreases |p|
  {
    hide InferredEdges, DistinctNames, IsBijection, Alike, Counterpart, IsName;
    if |p| == 1 {
      q := [Counterpart(comps, comps', b, p[0])];
    } else {
      assert p[1] in Deps(InferredEdges(comps'), p[0]);
      EdgeCarries(comps, comps', b, p[0], p[1]);
      assert IsPath(InferredEdges(comps'), p[1..]) by {
        forall i | 0 <= i < |p[1..]| - 1 ensures p[1..][i + 1] in Deps(InferredEdges(comps'), p[1..][i]) {
          assert p[i + 2] in Deps(InferredEdges(comps'), p[i + 1]);
        }
      }
      var rest := PathCarries(comps, comps', b, p[1..]);
      q := [Counterpart(comps, comps', b, p[0])] + rest;
    }
  }

  lemma ReachCarries(comps: seq<Component>, comps': seq<Component>, b: Bijection, n: string, m: string)
    requires Matched(comps, comps', b) && IsName(comps', n) && Reaches(InferredEdges(comps'), n, m)
    ensures IsName(comps', m)
    ensures Reaches(InferredEdges(comps), Counterpart(comps, comps', b, n), Counterpart(comps, comps', b, m))
  {
    hide InferredEdges, DistinctNames, IsBijection, Alike, Counterpart, IsName;
    var p :| PathFromTo(InferredEdges(comps'), p, n, m);
    var q := PathCarries(comps, comps', b, p);
    assert PathFromTo(InferredEdges(comps), q, Counterpart(comps, comps', b, n), Counterpart(comps, comps', b, m));
  }

  lemma CycleCarries(comps: seq<Component>, comps': seq<Component>, b: Bijection, n: string)
    requires Matched(comps, comps', b) && IsName(comps', n) && ReachesCycle(InferredEdges(comps'), n)
    ensures ReachesCycle(InferredEdges(comps), Counterpart(comps, comps', b, n))
  {
    hide InferredEdges, DistinctNames, IsBijection, Alike, Counterpart, IsName, Reaches;
    var c :| Reaches(InferredEdges(comps'), n, c) && OnCycle(InferredEdges(comps'), c);
    ReachCarries(comps, comps', b, n, c);
    var p :| PathFromTo(InferredEdges(comps'), p, c, c) && |p| >= 2;
    var q := PathCarries(comps, comps', b, p);
    assert PathFromTo(InferredEdges(comps), q, Counterpart(comps, comps', b, c), Counterpart(comps, comps', b, c));
  }

  /** One component needs another, directly or not, exactly when its counterpart does. */
  lemma NeedsCarries(comps: seq<Component>, comps': seq<Component>, b: Bijection, i: nat, j: nat)
    requires Matched(comps, comps', b) && i < |comps'| && j < |comps'|
    requires Reaches(InferredEdges(comps'), comps'[i].name, comps'[j].name)
    ensures Reaches(InferredEdges(comps), comps[b.to[i]].name, comps[b.to[j]].name)
  {
    CounterpartAt(comps, comps', b, i);
    CounterpartAt(comps, comps', b, j);
    hide InferredEdges, Counterpart, Reaches;
    ReachCarries(comps, comps', b, comps'[i].name, comps'[j].name);
  }

  lemma NoCycleCarries(comps: seq<Component>, comps': seq<Component>, b: Bijection)
    requires Matched(comps, comps', b) && NoCycle(comps)
    ensures NoCycle(comps')
  {
    hide InferredEdges, Counterpart, ReachesCycle;
    forall c | c in comps' ensures !ReachesCycle(InferredEdges(comps'), c.name) {
      var i :| 0 <= i < |comps'| && comps'[i] == c;
      CounterpartAt(comps, comps', b, i);
      assert comps[b.to[i]] in comps;
      if ReachesCycle(InferredEdges(comps'), c.name) {
        CycleCarries(comps, comps', b, c.name);
      }
    }
  }

  // ---------------------------------------------------------------- producers

  lemma {:induction false} ProducersDistinct(comps: seq<Component>, consumer: string, t: Type)
    requires DistinctNames(comps)
    ensures Distinct(Producers(comps, consumer, t))
  {
    if comps != [] {
      var front, last := comps[..|comps| - 1], comps[|comps| - 1];
      ProducersDistinct(front, consumer, t);
      ProducersAre(front, consumer, t, last.name);
    }
  }

  lemma ProducerAt(comps: seq<Component>, j: nat, t: Type, k: nat) returns (i: nat)
    requires DistinctNames(comps) && j < |comps| && k < |Producers(comps, comps[j].name, t)|
    ensures Feeds(comps, i, j, t) && comps[i].name == Producers(comps, comps[j].name, t)[k]
  {
    var n := Producers(comps, comps[j].name, t)[k];
    ProducersAre(comps, comps[j].name, t, n);
    hide Producers;
    var p :| p in comps && OtherProducer(p, comps[j].name, t) && p.name == n;
    i :| 0 <= i < |comps| && comps[i] == p;
    FeedsIsOtherProducer(comps, i, j, t);
  }

  /** Position i is the only other producer of the type for position j. */
  ghost predicate OnlyFeeds(comps: seq<Component>, i: int, j: int, t: Type) {
    Feeds(comps, i, j, t) && forall k | Feeds(comps, k, j, t) :: k == i
  }

  lemma FeederIsProducer(comps: seq<Component>, i: int, j: int, t: Type)
    requires DistinctNames(comps) && Feeds(comps, i, j, t)
    ensures comps[i].name in Producers(comps, comps[j].name, t)
  {
    FeedsIsOtherProducer(comps, i, j, t);
    ProducersAre(comps, comps[j].name, t, comps[i].name);
    hide Producers;
    assert comps[i] in comps;
  }

  lemma OneProducer(comps: seq<Component>, j: nat, t: Type) returns (i: nat)
    requires DistinctNames(comps) && j < |comps| && |Producers(comps, comps[j].name, t)| == 1
    ensures i < |comps| && OnlyFeeds(comps, i, j, t)
  {
    i := ProducerAt(comps, j, t, 0);
    hide Producers;
    forall k | Feeds(comps, k, j, t) ensures k == i {
      FeederIsProducer(comps, k, j, t);
    }
  }

  lemma OnlyProducerIsOne(comps: seq<Component>, i: nat, j: nat, t: Type)
    requires DistinctNames(comps) && OnlyFeeds(comps, i, j, t)
    ensures |Producers(comps, comps[j].name, t)| == 1
  {
    var ps := Producers(comps, comps[j].name, t);
    FeederIsProducer(comps, i, j, t);
    ProducersDistinct(comps, comps[j].name, t);
    hide Producers;
    assert |ps| > 1 ==> ps[0] != ps[1];
    if |ps| > 1 {
      var k := ProducerAt(comps, j, t, 0);
      var l := ProducerAt(comps, j, t, 1);
    }
  }

  lemma OnlyFeedsCarries(comps: seq<Component>, comps': seq<Component>, b: Bijection, i: nat, j: nat, t: Type)
    requires Matched(comps, comps', b) && i < |comps'| && j < |comps'| && OnlyFeeds(comps, b.to[i], b.to[j], t)
    ensures OnlyFeeds(comps', i, j, t)
  {
    FeedsCarries(comps, comps', b, i, j, t);
    hide Feeds, DistinctNames;
    forall k | Feeds(comps', k, j, t) ensures k == i {
      FeedsInRange(comps', k, j, t);
      FeedsCarries(comps, comps', b, k, j, t);
      assert b.to[k] == b.to[i];
    }
  }

  lemma FeedsInRange(comps: seq<Component>, i: int, j: int, t: Type)
    requires Feeds(comps, i, j, t)
    ensures 0 <= i < |comps| && 0 <= j < |comps|
  {
  }

  lemma UniqueSinglesCarries(comps: seq<Component>, comps': seq<Component>, b: Bijection)
    requires Matched(comps, comps', b) && UniqueSingles(comps)
    ensures UniqueSingles(comps')
  {
    hide Producers, OnlyFeeds, DistinctNames;
    forall c, t | c in comps' && t in c.consumes && !t.Slice? ensures |Producers(comps', c.name, t)| == 1 {
      var j :| 0 <= j < |comps'| && comps'[j] == c;
      assert Alike(comps[b.to[j]], comps'[j]) && comps[b.to[j]] in comps;
      var x := OneProducer(comps, b.to[j], t);
      OnlyFeedsCarries(comps, comps', b, b.from[x], j, t);
      OnlyProducerIsOne(comps', b.from[x], j, t);
    }
  }

  lemma ProducedCarries(comps: seq<Component>, comps': seq<Component>, b: Bijection, j: nat, t: Type)
    requires Matched(comps, comps', b) && j < |comps'| && |Producers(comps, comps[b.to[j]].name, t)| >= 1
    ensures |Producers(comps', comps'[j].name, t)| >= 1
  {
    hide Producers, DistinctNames;
    var i := ProducerAt(comps, b.to[j], t, 0);
    FeedsInRange(comps, i, b.to[j], t);
    FeedsCarries(comps, comps', b, b.from[i], j, t);
    FeederIsProducer(comps', b.from[i], j, t);
  }

  lemma ProperCarries(comps: seq<Component>, comps': seq<Component>, b: Bijection)
    requires Matched(comps, comps', b) && ProperParameters(comps)
    ensures ProperParameters(comps')
  {
    hide DistinctNames, Producers;
    forall c, t | c in comps' && t in c.consumes ensures ProperParameter(comps', c, t) {
      var i :| 0 <= i < |comps'| && comps'[i] == c;
      assert Alike(comps[b.to[i]], comps'[i]) && comps[b.to[i]] in comps;
      assert ProperParameter(comps, comps[b.to[i]], t);
      if t.Interface? {
        ProducedCarries(comps, comps', b, i, t);
      }
    }
  }

  /** The component of which another is a copy under another name. */
  lemma OriginalOf(comps: seq<Component>, comps': seq<Component>, b: Bijection, c: Component) returns (d: Component)
    requires Rearranged(comps, comps', b) && c in comps'
    ensures d in comps && Alike(d, c) && d.apply == c.apply
  {
    hide DistinctNames;
    var i :| 0 <= i < |comps'| && comps'[i] == c;
    d := comps[b.to[i]];
  }

  lemma WellTypedCarries(comps: seq<Component>, comps': seq<Component>, b: Bijection, implements: Implements)
    requires Rearranged(comps, comps', b) && WellTyped(comps, implements)
    ensures WellTyped(comps', implements)
  {
    hide Rearranged, ResultFits;
    forall c, args | c in comps' && c.produces.Some? && c.apply(args).Success?
      ensures ResultFits(implements, c.apply(args).value, c.produces.value)
    {
      var d := OriginalOf(comps, comps', b, c);
      assert d.apply(args).Success?;
    }
  }

  lemma InRange(comps: seq<Component>, comps': seq<Component>, b: Bijection, i: nat)
    requires Matched(comps, comps', b) && i < |comps'|
    ensures b.to[i] < |comps| && Alike(comps[b.to[i]], comps'[i]) && i < |b.from| && b.from[b.to[i]] == i
  {
  }

  lemma RearrangedMatches(comps: seq<Component>, comps': seq<Component>, b: Bijection)
    requires Rearranged(comps, comps', b)
    ensures Matched(comps, comps', b)
  {
    hide Matched;
  }
}
