/** The order of the elements of an injected slice: it is the order in which the producers
    were called, so it depends on registration wherever the graph leaves that order open. */
module CompositeSlices {
  import opened Options
  import opened Graph
  import opened DepthFirst
  import opened CompositeModel
  import opened CompositeSearch
  import opened CompositeOrder
  import opened CompositeValues
  import opened CompositeSuccess
  import opened CompositeRearrangement
  import opened CompositePrecedence

  lemma {:induction false} DedupPrefix(vs: seq<Value>, n: nat)
    requires n <= |vs|
    ensures Dedup(vs[..n]) <= Dedup(vs)
    decreases |vs|
  {
    if n < |vs| {
      assert vs[..|vs| - 1][..n] == vs[..n];
      DedupPrefix(vs[..|vs| - 1], n);
    } else {
      assert vs[..n] == vs;
    }
  }

  lemma {:induction false} OutputsPrefix(calls: seq<Call>, n: nat, t: Type)
    requires n <= |calls|
    ensures Outputs(calls[..n], t) <= Outputs(calls, t)
    decreases |calls|
  {
    if n < |calls| {
      assert calls[..|calls| - 1][..n] == calls[..n];
      OutputsPrefix(calls[..|calls| - 1], n, t);
    } else {
      assert calls[..n] == calls;
    }
  }

  ghost predicate KeyPrecedes(vs: seq<Value>, v: Value, w: Value) {
    exists a, b :: 0 <= a < b < |vs| && UniqueKey(vs[a]) == UniqueKey(v) && UniqueKey(vs[b]) == UniqueKey(w)
  }

  lemma NewKeyIsKept(vs: seq<Value>, w: Value)
    requires forall u | u in vs :: UniqueKey(u) != UniqueKey(w)
    ensures Dedup(vs + [w]) == Dedup(vs) + [w]
  {
    assert (vs + [w])[..|vs|] == vs;
    DedupKeeps(vs);
    forall i | 0 <= i < |Dedup(vs)| ensures UniqueKey(Dedup(vs)[i]) != UniqueKey(w) {
      assert Dedup(vs)[i] in Dedup(vs);
    }
  }

  lemma StoredExtendsOutputs(calls: seq<Call>, t: Type, k: nat, w: Value)
    requires StoredBy(calls, k, t, w)
    ensures Outputs(calls[..k + 1], t) == Outputs(calls[..k], t) + [w]
  {
    assert calls[..k + 1][..k] == calls[..k];
  }

  lemma PrecedesInExtension(before: seq<Value>, all: seq<Value>, v: Value, w: Value)
    requires HasKey(before, UniqueKey(v)) && before + [w] <= all
    ensures KeyPrecedes(all, v, w)
  {
    var a :| 0 <= a < |before| && UniqueKey(before[a]) == UniqueKey(v);
    assert (before + [w])[a] == all[a] && (before + [w])[|before|] == all[|before|];
  }

  /** An output whose key is new when it is stored comes after all outputs stored before it. */
  lemma DedupInOrder(calls: seq<Call>, t: Type, h: nat, k: nat, v: Value, w: Value)
    requires h < k && StoredBy(calls, h, t, v) && StoredBy(calls, k, t, w)
    requires forall m, u | 0 <= m < k && StoredBy(calls, m, t, u) :: UniqueKey(u) != UniqueKey(w)
    ensures KeyPrecedes(Dedup(Outputs(calls, t)), v, w)
  {
    hide Outputs, Dedup, KeyPrecedes;
    var before, all := Outputs(calls[..k], t), Outputs(calls, t);
    forall u | u in before ensures UniqueKey(u) != UniqueKey(w) {
      OutputsAre(calls[..k], t, u);
      var m :| StoredBy(calls[..k], m, t, u);
      assert StoredBy(calls, m, t, u);
    }
    assert StoredBy(calls[..k], h, t, v);
    OutputsAre(calls[..k], t, v);
    DedupKeeps(before);
    NewKeyIsKept(before, w);
    StoredExtendsOutputs(calls, t, k, w);
    OutputsPrefix(calls, k + 1, t);
    assert all[..|before| + 1] == before + [w];
    DedupPrefix(all, |before| + 1);
    PrecedesInExtension(Dedup(before), Dedup(all), v, w);
  }

  /** Slices list outputs in call order: when p was called before q, the entry for p's
      output stands before the entry for q's output, provided q's output has a key of its own. */
  lemma SliceInCallOrder(comps: seq<Component>, implements: Implements, calls: seq<Call>, err: Option<CompositeError>,
                         i: nat, j: nat, h: nat, k: nat, v: Value, w: Value)
    requires FreshRun(comps, implements, calls, err)
    requires h < k < i < |calls| && j < |calls[i].args| && j < |calls[i].comp.consumes|
    requires calls[i].comp.consumes[j].Slice? && !calls[i].comp.consumes[j].elem.Interface?
    requires StoredBy(calls, h, calls[i].comp.consumes[j].elem, v)
    requires StoredBy(calls, k, calls[i].comp.consumes[j].elem, w)
    requires forall m, u | 0 <= m < k && StoredBy(calls, m, calls[i].comp.consumes[j].elem, u) ::
      UniqueKey(u) != UniqueKey(w)
    ensures calls[i].args[j].Many? && KeyPrecedes(calls[i].args[j].values, v, w)
  {
    var t := calls[i].comp.consumes[j].elem;
    SliceIsDedup(comps, implements, calls, err, i, j);
    hide FreshRun, DependenciesFirst, CallOk, InferredEdges, KeyPrecedes, Dedup, Outputs;
    assert StoredBy(calls[..i], h, t, v) && StoredBy(calls[..i], k, t, w);
    forall m, u | 0 <= m < k && StoredBy(calls[..i], m, t, u) ensures UniqueKey(u) != UniqueKey(w) {
      assert StoredBy(calls, m, t, u);
    }
    DedupInOrder(calls[..i], t, h, k, v, w);
  }

  lemma SliceIsDedup(comps: seq<Component>, implements: Implements, calls: seq<Call>, err: Option<CompositeError>,
                     i: nat, j: nat)
    requires FreshRun(comps, implements, calls, err) && i < |calls|
    requires j < |calls[i].args| && j < |calls[i].comp.consumes|
    requires calls[i].comp.consumes[j].Slice? && !calls[i].comp.consumes[j].elem.Interface?
    ensures calls[i].args[j] == Many(Dedup(Outputs(calls[..i], calls[i].comp.consumes[j].elem)))
  {
    CallsInOrder(comps, implements, calls, err);
    hide FreshRun, DependenciesFirst, Dedup, Outputs;
    assert Provided(implements, calls[..i], calls[i].comp.consumes[j], calls[i].args[j]);
  }

  /** Of two producers that feed the same slice, the one that the schedule has first comes
      first in the slice, if the key of the other's output is new when it is stored. */
  lemma ScheduledFirstInSlice(comps: seq<Component>, implements: Implements, calls: seq<Call>,
                              err: Option<CompositeError>,
                              i: nat, j: nat, p: Component, q: Component) returns (k: nat, v: Value, w: Value)
    requires FreshRun(comps, implements, calls, err)
    requires i < |calls| && j < |calls[i].args| && j < |calls[i].comp.consumes|
    requires calls[i].comp.consumes[j].Slice? && !calls[i].comp.consumes[j].elem.Interface?
    requires p in comps && OtherProducer(p, calls[i].comp.name, calls[i].comp.consumes[j].elem)
    requires q in comps && OtherProducer(q, calls[i].comp.name, calls[i].comp.consumes[j].elem)
    requires Before(Schedule(comps), p.name, q.name)
    ensures k < i && OutputOf(calls, i, p, v) && calls[k].comp == q && calls[k].outcome == Returned(w)
    ensures calls[i].args[j].Many?
    ensures (forall m, u | 0 <= m < k && StoredBy(calls, m, calls[i].comp.consumes[j].elem, u) ::
      UniqueKey(u) != UniqueKey(w)) ==>
              KeyPrecedes(calls[i].args[j].values, v, w)
  {
    var t := calls[i].comp.consumes[j];
    FreshIsDistinct(comps, implements, calls, err);
    hide FreshRun, Schedule, Before, DistinctNames;
    var h := ProducerHasReturned(comps, implements, calls, err, i, p, t);
    k := ProducerHasReturned(comps, implements, calls, err, i, q, t);
    v, w := calls[h].outcome.value, calls[k].outcome.value;
    assert OutputOf(calls, i, p, v);
    SliceArgument(comps, implements, calls, err, i, j);
    hide DistinctKeys, HasKey, KeyPrecedes;
    CalledWhenBefore(comps, implements, calls, err, h, k);
    if forall m, u | 0 <= m < k && StoredBy(calls, m, t.elem, u) :: UniqueKey(u) != UniqueKey(w) {
      SliceInCallOrder(comps, implements, calls, err, i, j, h, k, v, w);
    }
  }

  lemma RegisteredName(comps: seq<Component>, c: Component)
    requires c in comps
    ensures IsName(comps, c.name)
  {
    var i :| 0 <= i < |comps| && comps[i] == c;
  }

  lemma CalledOnce(comps: seq<Component>, implements: Implements, calls: seq<Call>, err: Option<CompositeError>, h: nat,
                   k: nat)
    requires FreshRun(comps, implements, calls, err) && h < |calls| && k < |calls|
    requires calls[h].comp.name == calls[k].comp.name
    ensures h == k
  {
    CallsInOrder(comps, implements, calls, err);
    hide FreshRun, DependenciesFirst, CallOk, InferredEdges;
    assert Names(calls)[h] == Names(calls)[k];
  }
}
