/** What the store holds and what a search for implementers of an interface finds in it. */
module CompositeSearch {
  import opened Options
  import opened Graph
  import opened CompositeModel

  // ---------------------------------------------------------------- keys

  lemma HasKeyExtends(vs: seq<Value>, v: Value)
    ensures forall k :: HasKey(vs + [v], k) <==> HasKey(vs, k) || k == UniqueKey(v)
  {
    var longer := vs + [v];
    forall k ensures HasKey(longer, k) <==> HasKey(vs, k) || k == UniqueKey(v) {
      assert longer[|vs|] == v;
      if HasKey(vs, k) {
        var i :| 0 <= i < |vs| && UniqueKey(vs[i]) == k;
        assert UniqueKey(longer[i]) == k;
      }
    }
  }

  lemma {:induction false} DedupKeeps(vs: seq<Value>)
    ensures DistinctKeys(Dedup(vs))
    ensures forall v | v in Dedup(vs) :: v in vs
    ensures forall v | v in vs :: HasKey(Dedup(vs), UniqueKey(v))
  {
    if vs != [] {
      var front, last := vs[..|vs| - 1], vs[|vs| - 1];
      DedupKeeps(front);
      var kept, all := Dedup(front), Dedup(vs);
      forall v | v in vs ensures HasKey(all, UniqueKey(v)) {
        if v == last && !HasKey(kept, UniqueKey(v)) {
          assert all[|kept|] == v;
        } else {
          assert v in front || HasKey(kept, UniqueKey(v));
          var i :| 0 <= i < |kept| && UniqueKey(kept[i]) == UniqueKey(v);
          assert all[i] == kept[i];
        }
      }
    }
  }

  lemma OneMoreDistinct(vs: seq<Value>, v: Value)
    ensures Dedup(vs + [v]) == if HasKey(Dedup(vs), UniqueKey(v)) then Dedup(vs) else Dedup(vs) + [v]
  {
    assert (vs + [v])[..|vs|] == vs;
  }

  /** The first value is the first of its key. */
  lemma {:induction false} DedupKeepsFirst(vs: seq<Value>)
    requires vs != []
    ensures Dedup(vs) != [] && Dedup(vs)[0] == vs[0]
  {
    if |vs| > 1 {
      DedupKeepsFirst(vs[..|vs| - 1]);
    }
  }

  /** No earlier value has the same key. */
  ghost predicate FirstOfKey(vs: seq<Value>, i: nat) {
    i < |vs| && forall j | 0 <= j < i :: UniqueKey(vs[j]) != UniqueKey(vs[i])
  }

  /** The kept values stand at these positions, which increase. */
  ghost predicate KeptAt(vs: seq<Value>, positions: seq<nat>, kept: seq<Value>) {
    && |positions| == |kept| && (forall m, n | 0 <= m < n < |positions| :: positions[m] < positions[n])
    && forall m | 0 <= m < |positions| :: positions[m] < |vs| && vs[positions[m]] == kept[m]
  }

  /** De-duplication keeps exactly the first value of every key, in order. */
  lemma {:induction false} DedupExactly(vs: seq<Value>) returns (positions: seq<nat>)
    ensures KeptAt(vs, positions, Dedup(vs))
    ensures forall i: nat :: i in positions <==> FirstOfKey(vs, i)
  {
    positions := [];
    if vs != [] {
      var front, last := vs[..|vs| - 1], |vs| - 1;
      positions := DedupExactly(front);
      KeyIsKept(front, vs[last]);
      LastIsFirst(vs);
      KeptMore(vs, positions, Dedup(front));
      hide Dedup, HasKey, FirstOfKey, KeptAt;
      assert Dedup(vs) == if FirstOfKey(vs, last) then Dedup(front) + [vs[last]] else Dedup(front) by {
        OneMoreDistinct(front, vs[last]);
        assert front + [vs[last]] == vs;
      }
      if FirstOfKey(vs, last) {
        positions := positions + [last];
      }
    }
  }

  lemma KeptMore(vs: seq<Value>, positions: seq<nat>, kept: seq<Value>)
    requires vs != [] && KeptAt(vs[..|vs| - 1], positions, kept)
    ensures KeptAt(vs, positions, kept) && KeptAt(vs, positions + [|vs| - 1], kept + [vs[|vs| - 1]])
  {
    var front := vs[..|vs| - 1];
    assert forall m | 0 <= m < |positions| :: front[positions[m]] == kept[m];
  }

  lemma LastIsFirst(vs: seq<Value>)
    requires vs != []
    ensures var front, last := vs[..|vs| - 1], |vs| - 1;
            && (FirstOfKey(vs, last) <==> !exists j :: 0 <= j < |front| && UniqueKey(front[j]) == UniqueKey(vs[last]))
            && forall i: nat :: FirstOfKey(vs, i) <==> if i == last then FirstOfKey(vs, last) else FirstOfKey(front, i)
  {
    var front, last := vs[..|vs| - 1], |vs| - 1;
    assert forall j | 0 <= j < |front| :: front[j] == vs[j];
  }

  lemma KeyIsKept(vs: seq<Value>, v: Value)
    ensures HasKey(Dedup(vs), UniqueKey(v)) <==> exists j :: 0 <= j < |vs| && UniqueKey(vs[j]) == UniqueKey(v)
  {
    DedupKeeps(vs);
    if HasKey(Dedup(vs), UniqueKey(v)) {
      var i :| 0 <= i < |Dedup(vs)| && UniqueKey(Dedup(vs)[i]) == UniqueKey(v);
      assert Dedup(vs)[i] in vs;
    }
    if j :| 0 <= j < |vs| && UniqueKey(vs[j]) == UniqueKey(v) {
      assert vs[j] in vs;
    }
  }

  // ---------------------------------------------------------------- stored values

  ghost predicate StoredBy(calls: seq<Call>, k: int, t: Type, v: Value) {
    0 <= k < |calls| && calls[k].comp.produces == Some(t) && calls[k].outcome == Returned(v)
  }

  lemma {:induction false} OutputsAre(calls: seq<Call>, t: Type, v: Value)
    ensures v in Outputs(calls, t) <==> exists k :: StoredBy(calls, k, t, v)
  {
    if calls != [] {
      var front, n := calls[..|calls| - 1], |calls| - 1;
      OutputsAre(front, t, v);
      forall k | StoredBy(front, k, t, v) ensures StoredBy(calls, k, t, v) {}
      forall k | StoredBy(calls, k, t, v) && k < n ensures StoredBy(front, k, t, v) {}
      if Stores(calls[n]) && calls[n].comp.produces.value == t && calls[n].outcome.value == v {
        assert StoredBy(calls, n, t, v);
      }
    }
  }

  lemma {:induction false} AllOfHas(calls: seq<Call>, types: seq<Type>, v: Value)
    ensures v in AllOf(calls, types) <==> exists t :: t in types && v in Outputs(calls, t)
  {
    hide Outputs;
    if types != [] {
      var front, last := types[..|types| - 1], types[|types| - 1];
      AllOfHas(calls, front, v);
      assert types == front + [last];
      if t :| t in types && v in Outputs(calls, t) {
        assert t in front || t == last;
      }
    }
  }

  lemma {:induction false} LastsAreStored(calls: seq<Call>, types: seq<Type>)
    ensures forall v | v in LastsOf(calls, types) :: StoredValue(calls, v)
  {
    hide Outputs;
    if types != [] {
      LastsAreStored(calls, types[..|types| - 1]);
    }
  }

  lemma OneMoreImplementing(implements: Implements, iface: Type, vs: seq<Value>, v: Value)
    ensures Implementing(implements, iface, vs + [v])
         == Implementing(implements, iface, vs) + if Satisfies(implements, v, iface) then [v] else []
  {
    assert (vs + [v])[..|vs|] == vs;
  }

  lemma {:induction false} ImplementingAre(implements: Implements, iface: Type, vs: seq<Value>, v: Value)
    ensures v in Implementing(implements, iface, vs) <==> v in vs && Satisfies(implements, v, iface)
  {
    if vs != [] {
      ImplementingAre(implements, iface, vs[..|vs| - 1], v);
      assert vs == vs[..|vs| - 1] + [vs[|vs| - 1]];
    }
  }

  /** A search finds implementers that are stored, one for every key of such a value. */
  lemma ImplementersAre(implements: Implements, calls: seq<Call>, iface: Type, vs: seq<Value>)
    requires Implementers(implements, calls, iface, vs)
    ensures forall v | v in vs :: Satisfies(implements, v, iface) && StoredValue(calls, v)
    ensures DistinctKeys(vs)
    ensures forall v | StoredValue(calls, v) && Satisfies(implements, v, iface) :: HasKey(vs, UniqueKey(v))
  {
    var types, types' :| MapOrder(calls, types) && MapOrder(calls, types')
      && vs == Dedup(Implementing(implements, iface, LastsOf(calls, types) + AllOf(calls, types')));
    var searched := LastsOf(calls, types) + AllOf(calls, types');
    LastsAreStored(calls, types);
    hide Outputs, LastsOf, AllOf, Dedup, Implementing, Satisfies, HasKey, DistinctKeys;
    DedupKeeps(Implementing(implements, iface, searched));
    forall v ensures v in searched <==> StoredValue(calls, v) {
      AllOfHas(calls, types', v);
    }
    forall v | v in vs ensures Satisfies(implements, v, iface) && StoredValue(calls, v) {
      ImplementingAre(implements, iface, searched, v);
    }
    forall v | StoredValue(calls, v) && Satisfies(implements, v, iface) ensures HasKey(vs, UniqueKey(v)) {
      ImplementingAre(implements, iface, searched, v);
    }
  }

  lemma FirstIsStored(implements: Implements, calls: seq<Call>, iface: Type, v: Value)
    requires FirstImplementer(implements, calls, iface, v)
    ensures Satisfies(implements, v, iface) && StoredValue(calls, v)
  {
    hide Implementers, Satisfies, StoredValue;
    var vs :| Implementers(implements, calls, iface, vs) && vs != [] && vs[0] == v;
    ImplementersAre(implements, calls, iface, vs);
    assert v in vs;
  }

  // ---------------------------------------------------------------- some search

  /** The types of stored values, in the order in which they were first stored. */
  ghost function StoredTypes(calls: seq<Call>): seq<Type> {
    if calls == [] then []
    else
      var before, c := StoredTypes(calls[..|calls| - 1]), calls[|calls| - 1];
      if Stores(c) && c.comp.produces.value !in before then before + [c.comp.produces.value] else before
  }

  lemma {:induction false} StoredTypesAreOrder(calls: seq<Call>)
    ensures MapOrder(calls, StoredTypes(calls))
  {
    if calls != [] {
      StoredTypesAreOrder(calls[..|calls| - 1]);
    }
  }

  lemma ImplementersExist(implements: Implements, before: seq<Call>, iface: Type) returns (vs: seq<Value>)
    ensures Implementers(implements, before, iface, vs)
  {
    StoredTypesAreOrder(before);
    var types := StoredTypes(before);
    vs := Dedup(Implementing(implements, iface, LastsOf(before, types) + AllOf(before, types)));
  }

  lemma FirstImplementerExists(implements: Implements, before: seq<Call>, iface: Type, v: Value) returns (w: Value)
    requires StoredValue(before, v) && Satisfies(implements, v, iface)
    ensures FirstImplementer(implements, before, iface, w)
  {
    hide Implementers, Satisfies, StoredValue;
    var vs := ImplementersExist(implements, before, iface);
    ImplementersAre(implements, before, iface, vs);
    w := vs[0];
  }

  // ---------------------------------------------------------------- a search that begins with a given type

  ghost function Remove(types: seq<Type>, t: Type): seq<Type> {
    if types == [] then []
    else
      var u := types[|types| - 1];
      Remove(types[..|types| - 1], t) + if u == t then [] else [u]
  }

  lemma {:induction false} RemovedAre(types: seq<Type>, t: Type)
    ensures forall u :: u in Remove(types, t) <==> u in types && u != t
    ensures Distinct(types) ==> Distinct(Remove(types, t))
  {
    if types != [] {
      var front := types[..|types| - 1];
      RemovedAre(front, t);
      assert types == front + [types[|types| - 1]];
      assert Distinct(types) ==> Distinct(front) && types[|types| - 1] !in front;
    }
  }

  lemma {:induction false} LastsBegin(calls: seq<Call>, types: seq<Type>)
    requires types != [] && Outputs(calls, types[0]) != []
    ensures var outputs := Outputs(calls, types[0]);
            LastsOf(calls, types) != [] && LastsOf(calls, types)[0] == outputs[|outputs| - 1]
  {
    hide Outputs;
    if |types| > 1 {
      LastsBegin(calls, types[..|types| - 1]);
    } else {
      assert LastsOf(calls, types[..0]) == [];
    }
  }

  lemma {:induction false} ImplementingBegins(implements: Implements, iface: Type, vs: seq<Value>)
    requires vs != [] && Satisfies(implements, vs[0], iface)
    ensures Implementing(implements, iface, vs) != [] && Implementing(implements, iface, vs)[0] == vs[0]
  {
    if |vs| > 1 {
      ImplementingBegins(implements, iface, vs[..|vs| - 1]);
    } else {
      assert Implementing(implements, iface, vs[..0]) == [];
    }
  }

  /** The last value of a type may be found first. */
  lemma LastMayBeFirst(implements: Implements, calls: seq<Call>, iface: Type, t: Type)
    requires Outputs(calls, t) != [] && Satisfies(implements, Outputs(calls, t)[|Outputs(calls, t)| - 1], iface)
    ensures FirstImplementer(implements, calls, iface, Outputs(calls, t)[|Outputs(calls, t)| - 1])
  {
    var stored := StoredTypes(calls);
    var types := [t] + Remove(stored, t);
    StoredTypesAreOrder(calls);
    RemovedAre(stored, t);
    hide Outputs, StoredTypes, Remove, LastsOf, AllOf, Dedup, Implementing, Satisfies;
    assert MapOrder(calls, types) by { PutInFront(calls, stored, t); }
    LastsBegin(calls, types);
    var searched := LastsOf(calls, types) + AllOf(calls, stored);
    ImplementingBegins(implements, iface, searched);
    DedupKeepsFirst(Implementing(implements, iface, searched));
    assert Implementers(implements, calls, iface, Dedup(Implementing(implements, iface, searched)));
  }

  lemma PutInFront(calls: seq<Call>, stored: seq<Type>, t: Type)
    requires MapOrder(calls, stored) && Outputs(calls, t) != []
    ensures MapOrder(calls, [t] + Remove(stored, t))
  {
    RemovedAre(stored, t);
    hide Outputs, Remove;
    assert forall u :: u in [t] + Remove(stored, t) <==> u == t || u in Remove(stored, t);
  }
}
