/** Merging ConfigMap components that share a name and a namespace: a later component is
    folded into the first of its group unless they define the same key. */
module ConfigMapMapper {

  class Component {
    var name: string
    var namespace: string
    var data: map<string, string>
    var appName: string
    var appInstance: string

    ghost function Contents(): Entry
      reads this
    {
      Entry(Identifier(name, namespace), data, appName, appInstance)
    }
  }

  datatype Identifier = Identifier(name: string, namespace: string)

  /** What a component holds. */
  datatype Entry = Entry(id: Identifier, data: map<string, string>, appName: string, appInstance: string)

  datatype Conflict = Conflict(id: Identifier, keys: set<string>)

  datatype Mapped = Components(components: seq<Component>) | Failed(conflicts: seq<Conflict>)

  // ---------------------------------------------------------------- the fold

  function NonEmpty(s: string, otherwise: string): string {
    if s != "" then s else otherwise
  }

  /** Merging with override: the data of both, the later one's other fields if not empty. */
  function Merge(into: Entry, e: Entry): Entry {
    Entry(into.id, into.data + e.data, NonEmpty(e.appName, into.appName), NonEmpty(e.appInstance, into.appInstance))
  }

  function Clash(into: Entry, e: Entry): set<string> {
    into.data.Keys * e.data.Keys
  }

  function Take(groups: map<Identifier, Entry>, e: Entry): map<Identifier, Entry> {
    if e.id !in groups then groups[e.id := e]
    else if Clash(groups[e.id], e) != {} then groups
    else groups[e.id := Merge(groups[e.id], e)]
  }

  function ConflictsOf(groups: map<Identifier, Entry>, e: Entry): seq<Conflict> {
    if e.id in groups && Clash(groups[e.id], e) != {} then [Conflict(e.id, Clash(groups[e.id], e))] else []
  }

  /** The groups after the first n components. */
  function Groups(es: seq<Entry>, n: nat): map<Identifier, Entry>
    requires n <= |es|
  {
    if n == 0 then map[] else Take(Groups(es, n - 1), es[n - 1])
  }

  function Conflicts(es: seq<Entry>, n: nat): seq<Conflict>
    requires n <= |es|
  {
    if n == 0 then [] else Conflicts(es, n - 1) + ConflictsOf(Groups(es, n - 1), es[n - 1])
  }

  /** The identifiers in the order in which they first occur. */
  function Order(es: seq<Entry>, n: nat): seq<Identifier>
    requires n <= |es|
  {
    if n == 0 then []
    else
      var before := Order(es, n - 1);
      if es[n - 1].id in before then before else before + [es[n - 1].id]
  }

  /** The place at which an identifier first occurs, or n. */
  function First(es: seq<Entry>, n: nat, id: Identifier): (i: nat)
    requires n <= |es|
    ensures i <= n && (i < n ==> es[i].id == id)
    ensures forall j | 0 <= j < i :: es[j].id != id
  {
    if n == 0 then 0
    else
      var i := First(es, n - 1, id);
      if i < n - 1 || es[n - 1].id == id then i else n
  }

  // ---------------------------------------------------------------- what the fold computes

  predicate SharesNoKey(a: Entry, b: Entry) {
    forall k | k in a.data :: k !in b.data
  }

  /** Components with the same name and namespace never define the same key. */
  ghost predicate PairwiseDisjoint(es: seq<Entry>, n: nat)
    requires n <= |es|
  {
    forall i, j | 0 <= i < j < n && es[i].id == es[j].id :: SharesNoKey(es[i], es[j])
  }

  lemma {:induction false} GroupsAreTheOrder(es: seq<Entry>, n: nat)
    requires n <= |es|
    ensures forall id :: id in Groups(es, n) <==> id in Order(es, n)
    ensures forall id | id in Groups(es, n) :: Groups(es, n)[id].id == id
  {
    if n > 0 {
      GroupsAreTheOrder(es, n - 1);
    }
  }

  predicate Defines(e: Entry, id: Identifier, k: string, v: string) {
    e.id == id && k in e.data && e.data[k] == v
  }

  ghost predicate HasAll(groups: map<Identifier, Entry>, es: seq<Entry>) {
    forall i, k | 0 <= i < |es| && k in es[i].data ::
      es[i].id in groups && Defines(groups[es[i].id], es[i].id, k, es[i].data[k])
  }

  ghost predicate HasOnly(groups: map<Identifier, Entry>, es: seq<Entry>) {
    forall id, k | id in groups && k in groups[id].data ::
      exists i :: 0 <= i < |es| && Defines(es[i], id, k, groups[id].data[k])
  }

  /** A group holds a value under a key exactly when one of its components does. */
  ghost predicate UnionOf(groups: map<Identifier, Entry>, es: seq<Entry>) {
    HasAll(groups, es) && HasOnly(groups, es)
  }

  ghost predicate DisjointFrom(es: seq<Entry>, e: Entry) {
    forall i | 0 <= i < |es| && es[i].id == e.id :: SharesNoKey(es[i], e)
  }

  lemma ClashMeansShared(groups: map<Identifier, Entry>, es: seq<Entry>, e: Entry)
    requires HasOnly(groups, es) && ConflictsOf(groups, e) != []
    ensures !DisjointFrom(es, e)
  {
    var group := groups[e.id];
    var k :| k in Clash(group, e);
    var i :| 0 <= i < |es| && Defines(es[i], e.id, k, group.data[k]);
    assert k in es[i].data && k in e.data;
  }

  lemma SharedMeansClash(groups: map<Identifier, Entry>, es: seq<Entry>, e: Entry, i: nat)
    requires HasAll(groups, es) && i < |es| && es[i].id == e.id && !SharesNoKey(es[i], e)
    ensures ConflictsOf(groups, e) != []
  {
    var k :| k in es[i].data && k in e.data;
    assert Defines(groups[es[i].id], es[i].id, k, es[i].data[k]);
    hide HasAll;
    assert k in Clash(groups[e.id], e);
  }

  lemma NoClash(groups: map<Identifier, Entry>, es: seq<Entry>, e: Entry)
    requires HasAll(groups, es) && ConflictsOf(groups, e) == []
    ensures DisjointFrom(es, e)
  {
    hide HasAll, SharesNoKey, ConflictsOf;
    forall i | 0 <= i < |es| && es[i].id == e.id ensures SharesNoKey(es[i], e) {
      if !SharesNoKey(es[i], e) {
        SharedMeansClash(groups, es, e, i);
      }
    }
  }

  lemma HasOnlyKept(groups: map<Identifier, Entry>, es: seq<Entry>, e: Entry)
    requires HasOnly(groups, es) && ConflictsOf(groups, e) == []
    requires e.id in groups ==> groups[e.id].id == e.id
    ensures HasOnly(Take(groups, e), es + [e])
  {
    var after := Take(groups, e);
    forall id, k | id in after && k in after[id].data
      ensures exists i :: 0 <= i < |es + [e]| && Defines((es + [e])[i], id, k, after[id].data[k])
    {
      if id == e.id && k in e.data {
        assert Defines((es + [e])[|es|], id, k, after[id].data[k]);
      } else {
        assert id in groups && k in groups[id].data;
        var i :| 0 <= i < |es| && Defines(es[i], id, k, groups[id].data[k]);
        assert Defines((es + [e])[i], id, k, after[id].data[k]);
      }
    }
  }

  lemma HasAllKept(groups: map<Identifier, Entry>, es: seq<Entry>, e: Entry)
    requires HasAll(groups, es) && ConflictsOf(groups, e) == []
    requires e.id in groups ==> groups[e.id].id == e.id
    ensures HasAll(Take(groups, e), es + [e])
  {
    var after := Take(groups, e);
    forall i, k | 0 <= i < |es + [e]| && k in (es + [e])[i].data
      ensures (es + [e])[i].id in after && Defines(after[(es + [e])[i].id], (es + [e])[i].id, k, (es + [e])[i].data[k])
    {
      if i < |es| {
        assert Defines(groups[es[i].id], es[i].id, k, es[i].data[k]);
        NoClash(groups, es, e);
        hide HasAll;
        ValueKept(groups, es[i].id, k, es[i].data[k], e);
      }
    }
  }

  lemma ValueKept(groups: map<Identifier, Entry>, id: Identifier, k: string, v: string, e: Entry)
    requires id in groups && Defines(groups[id], id, k, v) && ConflictsOf(groups, e) == []
    ensures id in Take(groups, e) && Defines(Take(groups, e)[id], id, k, v)
  {
    if id == e.id && k in e.data {
      assert k in Clash(groups[id], e);
    }
  }

  lemma DisjointSplits(es: seq<Entry>, n: nat)
    requires 0 < n <= |es|
    ensures PairwiseDisjoint(es, n) <==> PairwiseDisjoint(es, n - 1) && DisjointFrom(es[..n - 1], es[n - 1])
  {
    hide SharesNoKey;
    var before := es[..n - 1];
    assert forall i | 0 <= i < n - 1 :: before[i] == es[i];
  }

  lemma MergedByOne(groups: map<Identifier, Entry>, es: seq<Entry>, e: Entry)
    requires UnionOf(groups, es) && (e.id in groups ==> groups[e.id].id == e.id)
    ensures ConflictsOf(groups, e) == [] <==> DisjointFrom(es, e)
    ensures DisjointFrom(es, e) ==> UnionOf(Take(groups, e), es + [e])
  {
    hide ConflictsOf, Take, DisjointFrom, HasAll, HasOnly;
    if ConflictsOf(groups, e) != [] {
      ClashMeansShared(groups, es, e);
    } else {
      NoClash(groups, es, e);
      HasAllKept(groups, es, e);
      HasOnlyKept(groups, es, e);
    }
  }

  lemma GroupHasItsId(es: seq<Entry>, n: nat, id: Identifier)
    requires n <= |es| && id in Groups(es, n)
    ensures Groups(es, n)[id].id == id
  {
    GroupsAreTheOrder(es, n);
  }

  lemma OneMore(es: seq<Entry>, n: nat)
    requires 0 < n <= |es|
    ensures Groups(es, n) == Take(Groups(es, n - 1), es[n - 1])
    ensures Conflicts(es, n) == [] <==> Conflicts(es, n - 1) == [] && ConflictsOf(Groups(es, n - 1), es[n - 1]) == []
  {
    hide Take, ConflictsOf;
  }

  /** There are no conflicts exactly when the components of a group are disjoint, and then
      each group is the union of its components. */
  lemma {:induction false} MergedExactly(es: seq<Entry>, n: nat)
    requires n <= |es|
    ensures Conflicts(es, n) == [] <==> PairwiseDisjoint(es, n)
    ensures PairwiseDisjoint(es, n) ==> UnionOf(Groups(es, n), es[..n])
  {
    hide *;
    if n == 0 {
      NoneMerged(es);
    } else {
      MergedExactly(es, n - 1);
      DisjointSplits(es, n);
      OneMore(es, n);
      if PairwiseDisjoint(es, n - 1) {
        MergedOneMore(es, n);
      }
    }
  }

  lemma MergedOneMore(es: seq<Entry>, n: nat)
    requires 0 < n <= |es| && UnionOf(Groups(es, n - 1), es[..n - 1])
    ensures ConflictsOf(Groups(es, n - 1), es[n - 1]) == [] <==> DisjointFrom(es[..n - 1], es[n - 1])
    ensures DisjointFrom(es[..n - 1], es[n - 1]) ==> UnionOf(Groups(es, n), es[..n])
  {
    hide *;
    var groups, e := Groups(es, n - 1), es[n - 1];
    assert es[..n] == es[..n - 1] + [e];
    OneMore(es, n);
    if e.id in groups {
      GroupHasItsId(es, n - 1, e.id);
    }
    MergedByOne(groups, es[..n - 1], e);
  }

  lemma NoneMerged(es: seq<Entry>)
    ensures Conflicts(es, 0) == [] && PairwiseDisjoint(es, 0) && UnionOf(Groups(es, 0), es[..0])
  {
  }

  // ---------------------------------------------------------------- the order of the components

  /** The same components in another order: `to` says where each of fs stands in es, `from` the reverse. */
  ghost predicate Rearranged(es: seq<Entry>, fs: seq<Entry>, to: seq<nat>, from: seq<nat>) {
    && |es| == |fs| == |to| == |from|
    && (forall i | 0 <= i < |fs| :: to[i] < |es| && fs[i] == es[to[i]] && from[to[i]] == i)
    && forall i | 0 <= i < |es| :: from[i] < |fs| && es[i] == fs[from[i]] && to[from[i]] == i
  }

  lemma SharingIsMutual(a: Entry, b: Entry)
    ensures SharesNoKey(a, b) <==> SharesNoKey(b, a)
  {
  }

  lemma DisjointInAnyOrder(es: seq<Entry>, fs: seq<Entry>, to: seq<nat>, from: seq<nat>)
    requires Rearranged(es, fs, to, from) && PairwiseDisjoint(es, |es|)
    ensures PairwiseDisjoint(fs, |fs|)
  {
    hide SharesNoKey;
    forall i, j | 0 <= i < j < |fs| && fs[i].id == fs[j].id ensures SharesNoKey(fs[i], fs[j]) {
      var x, y := to[i], to[j];
      assert x != y;
      SharingIsMutual(es[x], es[y]);
    }
  }

  lemma DataInAnyOrder(g: map<Identifier, Entry>, h: map<Identifier, Entry>, es: seq<Entry>, fs: seq<Entry>,
                       from: seq<nat>, id: Identifier)
    requires UnionOf(g, es) && UnionOf(h, fs) && id in g && id in h
    requires |from| == |es| && forall i | 0 <= i < |es| :: from[i] < |fs| && es[i] == fs[from[i]]
    ensures forall k | k in g[id].data :: k in h[id].data && h[id].data[k] == g[id].data[k]
  {
    forall k | k in g[id].data ensures k in h[id].data && h[id].data[k] == g[id].data[k] {
      var i :| 0 <= i < |es| && Defines(es[i], id, k, g[id].data[k]);
      var e := fs[from[i]];
      assert Defines(h[e.id], e.id, k, e.data[k]);
    }
  }

  lemma GroupedInAnyOrder(es: seq<Entry>, fs: seq<Entry>, from: seq<nat>, id: Identifier)
    requires |from| == |es| && forall i | 0 <= i < |es| :: from[i] < |fs| && es[i] == fs[from[i]]
    requires id in Groups(es, |es|)
    ensures id in Groups(fs, |fs|)
  {
    GroupedExactly(es, |es|, id);
    GroupedExactly(fs, |fs|, id);
  }

  /** Whether merging succeeds, and the data of every merged component, do not depend on the
      order of the components. */
  lemma OrderIrrelevantForData(es: seq<Entry>, fs: seq<Entry>, to: seq<nat>, from: seq<nat>)
    requires Rearranged(es, fs, to, from)
    ensures PairwiseDisjoint(es, |es|) <==> PairwiseDisjoint(fs, |fs|)
    ensures forall id :: id in Groups(es, |es|) <==> id in Groups(fs, |fs|)
    ensures PairwiseDisjoint(es, |es|) ==>
              forall id | id in Groups(es, |es|) :: Groups(es, |es|)[id].data == Groups(fs, |fs|)[id].data
  {
    hide PairwiseDisjoint, Groups, UnionOf;
    var g, h := Groups(es, |es|), Groups(fs, |fs|);
    forall id ensures id in g <==> id in h {
      if id in g { GroupedInAnyOrder(es, fs, from, id); }
      if id in h { GroupedInAnyOrder(fs, es, to, id); }
    }
    if PairwiseDisjoint(fs, |fs|) { DisjointInAnyOrder(fs, es, from, to); }
    if PairwiseDisjoint(es, |es|) {
      DisjointInAnyOrder(es, fs, to, from);
      MergedExactly(es, |es|);
      MergedExactly(fs, |fs|);
      assert es[..|es|] == es && fs[..|fs|] == fs;
      forall id | id in g ensures g[id].data == h[id].data {
        DataInAnyOrder(g, h, es, fs, from, id);
        DataInAnyOrder(h, g, fs, es, to, id);
      }
    }
  }

  // ---------------------------------------------------------------- conservation

  function EntriesIn(es: seq<Entry>, n: nat): nat
    requires n <= |es|
  {
    if n == 0 then 0 else EntriesIn(es, n - 1) + |es[n - 1].data|
  }

  function EntriesUnder(groups: map<Identifier, Entry>, order: seq<Identifier>): nat {
    if order == [] then 0
    else
      var id := order[|order| - 1];
      EntriesUnder(groups, order[..|order| - 1]) + if id in groups then |groups[id].data| else 0
  }

  lemma {:induction false} OtherGroupChanged(groups: map<Identifier, Entry>, order: seq<Identifier>, id: Identifier,
                                             e: Entry)
    requires id !in order
    ensures EntriesUnder(groups[id := e], order) == EntriesUnder(groups, order)
  {
    if order != [] {
      OtherGroupChanged(groups, order[..|order| - 1], id, e);
    }
  }

  ghost predicate Distinct(order: seq<Identifier>) {
    forall i, j | 0 <= i < j < |order| :: order[i] != order[j]
  }

  lemma {:induction false} OneGroupChanged(groups: map<Identifier, Entry>, order: seq<Identifier>, id: Identifier,
                                           e: Entry)
    requires id in order && id in groups && Distinct(order)
    ensures EntriesUnder(groups[id := e], order) + |groups[id].data| == EntriesUnder(groups, order) + |e.data|
  {
    var front, last := order[..|order| - 1], order[|order| - 1];
    if last == id {
      OtherGroupChanged(groups, front, id, e);
    } else {
      OneGroupChanged(groups, front, id, e);
    }
  }

  lemma DisjointUnionSize(a: map<string, string>, b: map<string, string>)
    requires a.Keys * b.Keys == {}
    ensures |a + b| == |a| + |b|
  {
    assert (a + b).Keys == a.Keys + b.Keys;
    assert |(a + b).Keys| == |a.Keys| + |b.Keys|;
  }

  lemma ConservedByOne(groups: map<Identifier, Entry>, order: seq<Identifier>, e: Entry)
    requires e.id in groups <==> e.id in order
    requires Distinct(order) && ConflictsOf(groups, e) == []
    ensures EntriesUnder(Take(groups, e), if e.id in order then order else order + [e.id])
         == EntriesUnder(groups, order) + |e.data|
  {
    if e.id in order {
      DisjointUnionSize(groups[e.id].data, e.data);
      OneGroupChanged(groups, order, e.id, Merge(groups[e.id], e));
    } else {
      OtherGroupChanged(groups, order, e.id, e);
      assert (order + [e.id])[..|order|] == order;
    }
  }

  /** Without conflicts no data entry is lost and none is made up. */
  lemma {:induction false} EntriesAreConserved(es: seq<Entry>, n: nat)
    requires n <= |es| && Conflicts(es, n) == []
    ensures EntriesUnder(Groups(es, n), Order(es, n)) == EntriesIn(es, n)
  {
    hide Groups, Order, Conflicts, ConflictsOf, Take, Distinct;
    if n == 0 {
      NothingGroupedYet(es);
    } else {
      hide EntriesUnder;
      OneMore(es, n);
      EntriesAreConserved(es, n - 1);
      InOrderExactly(es, n - 1, es[n - 1].id);
      OneMoreInOrder(es, n);
      ConservedByOne(Groups(es, n - 1), Order(es, n - 1), es[n - 1]);
    }
  }

  lemma NothingGroupedYet(es: seq<Entry>)
    ensures Groups(es, 0) == map[] && Order(es, 0) == []
  {
  }

  lemma InOrderExactly(es: seq<Entry>, n: nat, id: Identifier)
    requires n <= |es|
    ensures id in Groups(es, n) <==> id in Order(es, n)
    ensures Distinct(Order(es, n))
  {
    GroupsAreTheOrder(es, n);
  }

  lemma OneMoreInOrder(es: seq<Entry>, n: nat)
    requires 0 < n <= |es|
    ensures var order, id := Order(es, n - 1), es[n - 1].id;
            Order(es, n) == if id in order then order else order + [id]
  {
  }

  // ---------------------------------------------------------------- the other fields

  /** The fields that a merge overrides unless the new value is empty. */
  datatype Field = AppName | AppInstance

  function FieldOf(field: Field, e: Entry): string {
    match field
    case AppName => e.appName
    case AppInstance => e.appInstance
  }

  /** The last component of the group in which the field is not empty. */
  ghost predicate LastWith(es: seq<Entry>, n: nat, id: Identifier, field: Field, i: nat)
    requires n <= |es|
  {
    && i < n && es[i].id == id && FieldOf(field, es[i]) != ""
    && forall j | i < j < n && es[j].id == id :: FieldOf(field, es[j]) == ""
  }

  lemma FieldAfterTake(groups: map<Identifier, Entry>, e: Entry, id: Identifier, field: Field)
    requires ConflictsOf(groups, e) == [] && (id in groups || e.id == id)
    ensures id in Take(groups, e)
    ensures FieldOf(field, Take(groups, e)[id]) ==
            if e.id != id then FieldOf(field, groups[id])
            else NonEmpty(FieldOf(field, e), if id in groups then FieldOf(field, groups[id]) else "")
  {
    hide Clash;
  }

  /** The last component of a group that sets such a field decides it. */
  lemma {:induction false} LastSetWins(es: seq<Entry>, n: nat, id: Identifier, field: Field, i: nat)
    requires n <= |es| && Conflicts(es, n) == [] && LastWith(es, n, id, field, i)
    ensures id in Groups(es, n) && FieldOf(field, Groups(es, n)[id]) == FieldOf(field, es[i])
  {
    hide Groups, Conflicts, Take, ConflictsOf, FieldOf;
    OneMore(es, n);
    if i < n - 1 {
      LastSetWins(es, n - 1, id, field, i);
    }
    FieldAfterTake(Groups(es, n - 1), es[n - 1], id, field);
  }

  // ---------------------------------------------------------------- in place

  /** The identifier of a component. */
  function IdOf(c: Component): Identifier
    reads c
  {
    Identifier(c.name, c.namespace)
  }

  ghost function AllContents(cs: seq<Component>): (es: seq<Entry>)
    reads cs
    ensures |es| == |cs| && forall i | 0 <= i < |cs| :: es[i] == cs[i].Contents()
  {
    seq(|cs|, i requires 0 <= i < |cs| reads cs => cs[i].Contents())
  }

  ghost predicate NoRepeats(cs: seq<Component>) {
    forall i, j | 0 <= i < j < |cs| :: cs[i] != cs[j]
  }

  /** What component i holds after the first n were grouped: the first of a group holds the
      group, the others are as they were. */
  ghost function After(es: seq<Entry>, n: nat, i: nat): Entry
    requires n <= |es| && i < |es|
  {
    if First(es, n, es[i].id) == i && es[i].id in Groups(es, n) then Groups(es, n)[es[i].id] else es[i]
  }

  method MergeInto(existing: Component, c: Component)
    requires existing != c
    modifies existing
    ensures existing.Contents() == Merge(old(existing.Contents()), c.Contents())
  {
    existing.data := existing.data + c.data;
    existing.appName := NonEmpty(c.appName, existing.appName);
    existing.appInstance := NonEmpty(c.appInstance, existing.appInstance);
  }

  lemma {:induction false} GroupedExactly(es: seq<Entry>, n: nat, id: Identifier)
    requires n <= |es|
    ensures id in Groups(es, n) <==> First(es, n, id) < n
  {
    if n > 0 {
      GroupedExactly(es, n - 1, id);
    }
  }

  lemma FirstStays(es: seq<Entry>, n: nat, id: Identifier)
    requires n < |es|
    ensures First(es, n, id) < n ==> First(es, n + 1, id) == First(es, n, id)
    ensures First(es, n, id) == n ==> First(es, n + 1, id) == if es[n].id == id then n else n + 1
  {
  }

  /** One more component changes what the first of its group holds and nothing else. */
  lemma AfterOne(es: seq<Entry>, n: nat, i: nat)
    requires n < |es| && i < |es|
    ensures n <= i ==> After(es, n, i) == es[i]
    ensures var (groups, e) := (Groups(es, n), es[n]);
            After(es, n + 1, i) == if i == First(es, n, e.id)
              && e.id in groups then Take(groups, e)[e.id] else After(es, n, i)
    ensures es[n].id in Groups(es, n) ==> After(es, n, First(es, n, es[n].id)) == Groups(es, n)[es[n].id]
  {
    OneMore(es, n + 1);
    GroupedExactly(es, n, es[n].id);
    GroupedExactly(es, n, es[i].id);
    GroupedExactly(es, n + 1, es[i].id);
    FirstStays(es, n, es[i].id);
    FirstStays(es, n, es[n].id);
    hide Groups, First, Merge, Clash;
  }

  /** The step on the contents of all components: merging, or not. */
  lemma AfterStep(es: seq<Entry>, n: nat, i: nat)
    requires n < |es| && i < |es|
    ensures var (groups, e) := (Groups(es, n), es[n]);
            After(es, n + 1, i) ==
              if e.id in groups && i == First(es, n, e.id)
                && Clash(groups[e.id], e) == {} then Merge(After(es, n, i), e)
              else After(es, n, i)
  {
    AfterOne(es, n, i);
    hide Groups, First, Merge, Clash, After;
  }

  lemma AfterHasItsId(es: seq<Entry>, n: nat, i: nat)
    requires n <= |es| && i < |es|
    ensures After(es, n, i).id == es[i].id
  {
    if es[i].id in Groups(es, n) {
      GroupHasItsId(es, n, es[i].id);
    }
  }

  /** The map points at the first component of every group. */
  ghost predicate PointsAtFirst(componentMap: map<Identifier, Component>, components: seq<Component>, es: seq<Entry>,
                                n: nat)
    requires n <= |es| == |components|
  {
    && (forall id :: id in componentMap <==> id in Groups(es, n))
    && forall id | id in componentMap :: PointsAtOne(componentMap[id], components, es, n, id)
  }

  ghost predicate PointsAtOne(c: Component, components: seq<Component>, es: seq<Entry>, n: nat, id: Identifier)
    requires n <= |es| == |components|
  {
    First(es, n, id) < n && c == components[First(es, n, id)]
  }

  lemma PointsAtOneMore(componentMap: map<Identifier, Component>, components: seq<Component>, es: seq<Entry>, n: nat)
    requires n < |es| == |components| && PointsAtFirst(componentMap, components, es, n)
    ensures var id := es[n].id;
            PointsAtFirst(if id in componentMap then componentMap else componentMap[id := components[n]], components,
                          es, n + 1)
  {
    var id := es[n].id;
    var next := if id in componentMap then componentMap else componentMap[id := components[n]];
    hide Groups, First, Take, PointsAtOne;
    forall x ensures x in next <==> x in Groups(es, n + 1) {
      KeysOneMore(es, n, x);
    }
    forall x | x in next ensures PointsAtOne(next[x], components, es, n + 1, x) {
      if x in componentMap {
        PointsStill(componentMap[x], components, es, n, x);
      } else {
        PointsAtNew(components, es, n);
      }
    }
  }

  lemma PointsStill(c: Component, components: seq<Component>, es: seq<Entry>, n: nat, id: Identifier)
    requires n < |es| == |components| && PointsAtOne(c, components, es, n, id)
    ensures PointsAtOne(c, components, es, n + 1, id)
  {
    hide First;
    FirstStays(es, n, id);
  }

  lemma PointsAtNew(components: seq<Component>, es: seq<Entry>, n: nat)
    requires n < |es| == |components| && es[n].id !in Groups(es, n)
    ensures PointsAtOne(components[n], components, es, n + 1, es[n].id)
  {
    hide First, Groups, Take;
    GroupedExactly(es, n, es[n].id);
    FirstStays(es, n, es[n].id);
  }

  lemma KeysOneMore(es: seq<Entry>, n: nat, x: Identifier)
    requires n < |es|
    ensures x in Groups(es, n + 1) <==> x in Groups(es, n) || x == es[n].id
  {
  }

  lemma PointsAtGroup(componentMap: map<Identifier, Component>, components: seq<Component>, es: seq<Entry>, n: nat,
                      id: Identifier)
    requires n <= |es| == |components| && PointsAtFirst(componentMap, components, es, n)
    ensures id in componentMap <==> id in Groups(es, n)
    ensures id in componentMap ==> First(es, n, id) < n && componentMap[id] == components[First(es, n, id)]
  {
    hide Groups, First;
  }

  lemma ConflictsOneMore(es: seq<Entry>, n: nat)
    requires n < |es|
    ensures Conflicts(es, n + 1) == Conflicts(es, n) + ConflictsOf(Groups(es, n), es[n])
  {
  }

  /** Each component holds what it should after the first n were grouped. */
  ghost predicate Grouped(components: seq<Component>, es: seq<Entry>, n: nat)
    requires n <= |es| == |components|
    reads components
  {
    forall i | 0 <= i < |es| :: components[i].Contents() == After(es, n, i)
  }

  lemma GroupedAt(components: seq<Component>, es: seq<Entry>, n: nat, i: nat)
    requires i < |es| == |components| && n <= |es| && Grouped(components, es, n)
    ensures components[i].Contents() == After(es, n, i)
  {
  }

  lemma GroupedByAll(components: seq<Component>, es: seq<Entry>, n: nat)
    requires n <= |es| == |components|
    requires forall i | 0 <= i < |es| :: components[i].Contents() == After(es, n, i)
    ensures Grouped(components, es, n)
  {
  }

  /** Folds one component into its group, or reports the keys it shares with the group. */
  method GroupOne(components: seq<Component>, i: nat, componentMap: map<Identifier, Component>, ghost es: seq<Entry>)
    returns (next: map<Identifier, Component>, errs: seq<Conflict>)
    requires NoRepeats(components) && i < |es| == |components|
    requires PointsAtFirst(componentMap, components, es, i) && Grouped(components, es, i)
    modifies components
    ensures PointsAtFirst(next, components, es, i + 1) && Grouped(components, es, i + 1)
    ensures errs == ConflictsOf(Groups(es, i), es[i])
  {
    hide Grouped, Groups, First, After, Take, Merge, PointsAtFirst;
    var c := components[i];
    var id := IdOf(c);
    ghost var was := AllContents(components);
    forall j | 0 <= j < |es| ensures was[j] == After(es, i, j) {
      GroupedAt(components, es, i, j);
    }
    AfterOne(es, i, i);
    PointsAtOneMore(componentMap, components, es, i);
    PointsAtGroup(componentMap, components, es, i, es[i].id);
    errs, next := [], componentMap;
    if id !in componentMap {
      next := componentMap[id := c];
    } else {
      var existing := componentMap[id];
      AfterOne(es, i, First(es, i, id));
      var clash := existing.data.Keys * c.data.Keys;
      if clash != {} {
        errs := [Conflict(id, clash)];
      } else {
        MergeInto(existing, c);
      }
    }
    forall j | 0 <= j < |es| ensures components[j].Contents() == After(es, i + 1, j) {
      AfterStep(es, i, j);
    }
    GroupedByAll(components, es, i + 1);
  }

  /** Folds the components into the first of each group. */
  method MergeGroups(components: seq<Component>) returns (componentMap: map<Identifier, Component>, errs: seq<Conflict>)
    requires NoRepeats(components)
    modifies components
    ensures var es := old(AllContents(components)); var n := |components|;
            && errs == Conflicts(es, n)
            && PointsAtFirst(componentMap, components, es, n) && Grouped(components, es, n)
  {
    hide Grouped, PointsAtFirst, After, Groups, Conflicts;
    ghost var es := AllContents(components);
    Starts(components, es);
    componentMap, errs := map[], [];
    for i := 0 to |components|
      invariant errs == Conflicts(es, i)
      invariant PointsAtFirst(componentMap, components, es, i) && Grouped(components, es, i)
    {
      var more;
      componentMap, more := GroupOne(components, i, componentMap, es);
      ConflictsOneMore(es, i);
      errs := errs + more;
    }
  }

  lemma Starts(components: seq<Component>, es: seq<Entry>)
    requires es == AllContents(components)
    ensures Grouped(components, es, 0) && PointsAtFirst(map[], components, es, 0) && Conflicts(es, 0) == []
  {
  }

  ghost predicate FirstAt(c: Component, components: seq<Component>, es: seq<Entry>, id: Identifier)
    requires |es| == |components|
  {
    First(es, |es|, id) < |es| && c == components[First(es, |es|, id)]
  }

  /** The first component of every group, in the order in which the groups begin. */
  ghost predicate FirstOfEach(r: seq<Component>, components: seq<Component>, es: seq<Entry>, n: nat)
    requires n <= |es| == |components|
  {
    && |r| == |Order(es, n)|
    && forall i | 0 <= i < |r| :: FirstAt(r[i], components, es, Order(es, n)[i])
  }

  /** The components hold the groups, in the order in which the groups begin. */
  ghost predicate HoldGroups(r: seq<Component>, es: seq<Entry>)
    reads r
  {
    var n := |es|;
    && |r| == |Order(es, n)|
    && forall i | 0 <= i < |r| :: Order(es, n)[i] in Groups(es, n) && r[i].Contents() == Groups(es, n)[Order(es, n)[i]]
  }

  /** Merges components by name and namespace: fails exactly when two of one group define
      the same key. */
  method MapComponents(components: seq<Component>) returns (r: Mapped)
    requires NoRepeats(components)
    modifies components
    ensures var es := old(AllContents(components)); var n := |components|;
            && Grouped(components, es, n)
            && (r.Components? <==> PairwiseDisjoint(es, n))
            && (r.Components? ==> FirstOfEach(r.components, components, es, n) && HoldGroups(r.components, es))
            && (r.Failed? ==> r.conflicts == Conflicts(es, n))
  {
    hide Grouped, PointsAtFirst, After, Groups, Conflicts, First, PairwiseDisjoint, UnionOf, Order, FirstOfEach;
    ghost var es := AllContents(components);
    var componentMap, errs := MergeGroups(components);
    MergedExactly(es, |es|);
    if errs != [] {
      return Failed(errs);
    }
    var ret, seen := [], {};
    NoneOrdered(components, es);
    for i := 0 to |components|
      invariant forall id :: id in seen <==> id in Order(es, i)
      invariant FirstOfEach(ret, components, es, i)
      invariant Grouped(components, es, |es|)
    {
      var id := IdOf(components[i]);
      GroupedAt(components, es, |es|, i);
      AfterHasItsId(es, |es|, i);
      OneMoreInOrder(es, i + 1);
      PointsAt(componentMap, components, es, i);
      if id !in seen {
        OneMoreFirst(ret, components, es, i);
        seen := seen + {id};
        ret := ret + [componentMap[id]];
      } else {
        SameFirsts(ret, components, es, i);
      }
    }
    FirstsHoldGroups(ret, components, es);
    r := Components(ret);
  }

  lemma FirstsHoldGroups(r: seq<Component>, components: seq<Component>, es: seq<Entry>)
    requires |es| == |components| && FirstOfEach(r, components, es, |es|) && Grouped(components, es, |es|)
    ensures HoldGroups(r, es)
  {
    hide Groups, First, Order, Grouped, After;
    var n := |es|;
    forall i | 0 <= i < |r|
      ensures Order(es, n)[i] in Groups(es, n) && r[i].Contents() == Groups(es, n)[Order(es, n)[i]]
    {
      var id := Order(es, n)[i];
      assert FirstAt(r[i], components, es, id);
      FirstHoldsGroup(es, id);
      GroupedAt(components, es, n, First(es, n, id));
    }
  }

  lemma FirstHoldsGroup(es: seq<Entry>, id: Identifier)
    requires First(es, |es|, id) < |es|
    ensures id in Groups(es, |es|) && After(es, |es|, First(es, |es|, id)) == Groups(es, |es|)[id]
  {
    GroupedExactly(es, |es|, id);
  }

  lemma NoneOrdered(components: seq<Component>, es: seq<Entry>)
    requires |es| == |components|
    ensures FirstOfEach([], components, es, 0) && Order(es, 0) == []
  {
  }

  lemma PointsAt(componentMap: map<Identifier, Component>, components: seq<Component>, es: seq<Entry>, i: nat)
    requires i < |es| == |components| && PointsAtFirst(componentMap, components, es, |es|)
    ensures var id := es[i].id;
            First(es, |es|, id) < |es| && id in componentMap && componentMap[id] == components[First(es, |es|, id)]
  {
    GroupedExactly(es, |es|, es[i].id);
  }

  lemma OneMoreFirst(r: seq<Component>, components: seq<Component>, es: seq<Entry>, i: nat)
    requires i < |es| == |components| && FirstOfEach(r, components, es, i) && es[i].id !in Order(es, i)
    ensures First(es, |es|, es[i].id) < |es|
    ensures FirstOfEach(r + [components[First(es, |es|, es[i].id)]], components, es, i + 1)
  {
    OneMoreInOrder(es, i + 1);
    hide First, Order;
    FirstIsNoLater(es, i);
    var r' := r + [components[First(es, |es|, es[i].id)]];
    forall x | 0 <= x < |r'| ensures FirstAt(r'[x], components, es, Order(es, i + 1)[x]) {
      assert x < |r| ==> FirstAt(r[x], components, es, Order(es, i)[x]);
    }
  }

  lemma FirstIsNoLater(es: seq<Entry>, i: nat)
    requires i < |es|
    ensures First(es, |es|, es[i].id) <= i
  {
  }

  lemma SameFirsts(r: seq<Component>, components: seq<Component>, es: seq<Entry>, i: nat)
    requires i < |es| == |components| && FirstOfEach(r, components, es, i) && es[i].id in Order(es, i)
    ensures FirstOfEach(r, components, es, i + 1)
  {
  }

  // ---------------------------------------------------------------- which conflicts are reported

  /** The n-th component shares no key with an accepted one before it of the same name and namespace. */
  ghost predicate Accepted(es: seq<Entry>, n: nat)
    requires n < |es|
    decreases n
  {
    forall m | 0 <= m < n && es[m].id == es[n].id && Accepted(es, m) :: SharesNoKey(es[m], es[n])
  }

  /** An accepted component before the n-th has that name and namespace, and the key. */
  ghost predicate Taken(es: seq<Entry>, n: nat, id: Identifier, k: string)
    requires n <= |es|
  {
    exists m | 0 <= m < n :: es[m].id == id && Accepted(es, m) && k in es[m].data
  }

  ghost predicate Occurs(es: seq<Entry>, n: nat, id: Identifier)
    requires n <= |es|
  {
    exists m | 0 <= m < n :: es[m].id == id
  }

  /** A group has the keys of its accepted components. */
  ghost predicate KeysTaken(es: seq<Entry>, n: nat, groups: map<Identifier, Entry>)
    requires n <= |es|
  {
    (forall id :: id in groups <==> Occurs(es, n, id)) && forall id | id in groups ::
      HasTaken(es, n, groups[id].data, id)
  }

  ghost predicate HasTaken(es: seq<Entry>, n: nat, data: map<string, string>, id: Identifier)
    requires n <= |es|
  {
    forall k :: k in data <==> Taken(es, n, id, k)
  }

  lemma {:induction false} GroupKeys(es: seq<Entry>, n: nat)
    requires n <= |es|
    ensures KeysTaken(es, n, Groups(es, n))
    ensures n < |es| ==> (Accepted(es, n) <==> ConflictsOf(Groups(es, n), es[n]) == [])
  {
    if n > 0 {
      GroupKeys(es, n - 1);
      KeysTakenNext(es, n, Groups(es, n - 1));
    } else {
      assert KeysTaken(es, 0, map[]);
    }
    hide KeysTaken, Taken, Accepted;
    if n < |es| {
      ClashExactly(es, n, Groups(es, n));
    }
  }

  lemma TakenIds(groups: map<Identifier, Entry>, e: Entry)
    ensures forall id :: id in Take(groups, e) <==> id in groups || id == e.id
  {
  }

  lemma TakenKeys(groups: map<Identifier, Entry>, e: Entry)
    ensures var now := Take(groups, e);
            && (forall id :: id in now <==> id in groups || id == e.id)
            && forall id, k | id in now ::
                 k in now[id].data <==>
                     (id in groups && k in groups[id].data)
                     || (id == e.id && ConflictsOf(groups, e) == [] && k in e.data)
  {
  }

  lemma KeysTakenNext(es: seq<Entry>, n: nat, groups: map<Identifier, Entry>)
    requires 0 < n <= |es| && KeysTaken(es, n - 1, groups)
    requires Accepted(es, n - 1) <==> ConflictsOf(groups, es[n - 1]) == []
    ensures KeysTaken(es, n, Take(groups, es[n - 1]))
  {
    var e := es[n - 1];
    TakenIds(groups, e);
    OccursNext(es, n);
    hide Accepted, ConflictsOf, Take, Occurs, HasTaken;
    forall id | id in Take(groups, e) ensures HasTaken(es, n, Take(groups, e)[id].data, id) {
      HasTakenNext(es, n, groups, id);
    }
  }

  lemma HasTakenNext(es: seq<Entry>, n: nat, groups: map<Identifier, Entry>, id: Identifier)
    requires 0 < n <= |es| && KeysTaken(es, n - 1, groups)
    requires Accepted(es, n - 1) <==> ConflictsOf(groups, es[n - 1]) == []
    requires id in Take(groups, es[n - 1])
    ensures HasTaken(es, n, Take(groups, es[n - 1])[id].data, id)
  {
    TakenKeys(groups, es[n - 1]);
    hide Taken, Accepted, ConflictsOf, Take, Occurs;
    if id !in groups {
      NothingTaken(es, n - 1, id);
    } else {
      assert HasTaken(es, n - 1, groups[id].data, id);
    }
    forall k ensures k in Take(groups, es[n - 1])[id].data <==> Taken(es, n, id, k) {
      TakenNext(es, n, id, k);
    }
  }

  lemma OccursNext(es: seq<Entry>, n: nat)
    requires 0 < n <= |es|
    ensures forall id :: Occurs(es, n, id) <==> Occurs(es, n - 1, id) || id == es[n - 1].id
  {
  }

  lemma TakenNext(es: seq<Entry>, n: nat, id: Identifier, k: string)
    requires 0 < n <= |es|
    ensures Taken(es, n, id, k) <==>
            Taken(es, n - 1, id, k) || (id == es[n - 1].id && Accepted(es, n - 1) && k in es[n - 1].data)
  {
    hide Accepted;
  }

  lemma NothingTaken(es: seq<Entry>, n: nat, id: Identifier)
    requires n <= |es| && !Occurs(es, n, id)
    ensures forall k :: !Taken(es, n, id, k)
  {
    hide Accepted;
  }

  lemma ClashExactly(es: seq<Entry>, n: nat, groups: map<Identifier, Entry>)
    requires n < |es| && KeysTaken(es, n, groups)
    ensures Accepted(es, n) <==> ConflictsOf(groups, es[n]) == []
  {
    var e := es[n];
    if e.id in groups {
      if k :| k in Clash(groups[e.id], e) {
        assert Taken(es, n, e.id, k);
        assert !Accepted(es, n);
      } else {
        forall m, k | 0 <= m < n && es[m].id == e.id && Accepted(es, m) && k in es[m].data ensures k !in e.data {
          assert Taken(es, n, e.id, k);
          assert k in groups[e.id].data && k !in Clash(groups[e.id], e);
        }
      }
    } else {
      assert !Occurs(es, n, e.id);
    }
  }

  /** A conflict of the i-th component with the accepted ones before it. */
  ghost predicate Reported(es: seq<Entry>, i: nat, c: Conflict) {
    && i < |es| && !Accepted(es, i) && c.id == es[i].id
    && forall key :: key in c.keys <==> key in es[i].data && Taken(es, i, es[i].id, key)
  }

  lemma ConflictIsReported(es: seq<Entry>, i: nat)
    requires i < |es|
    ensures var conflicts := ConflictsOf(Groups(es, i), es[i]);
            if Accepted(es, i) then conflicts == [] else |conflicts| == 1 && Reported(es, i, conflicts[0])
  {
    GroupKeys(es, i);
    hide Groups, Accepted, Taken;
  }

  /** The conflicts are those of the components at these positions, which increase. */
  ghost predicate ReportedAt(es: seq<Entry>, positions: seq<nat>, conflicts: seq<Conflict>) {
    && |positions| == |conflicts| && (forall k, l | 0 <= k < l < |positions| :: positions[k] < positions[l])
    && forall k | 0 <= k < |positions| :: Reported(es, positions[k], conflicts[k])
  }

  /** The positions are those of the components that are not accepted. */
  ghost predicate AllRefused(es: seq<Entry>, n: nat, positions: seq<nat>)
    requires n <= |es|
  {
    forall i: nat :: i in positions <==> i < n && !Accepted(es, i)
  }

  lemma RefusedNext(es: seq<Entry>, n: nat, positions: seq<nat>)
    requires 0 < n <= |es| && AllRefused(es, n - 1, positions)
    ensures forall p | p in positions :: p < n - 1
    ensures AllRefused(es, n, if Accepted(es, n - 1) then positions else positions + [n - 1])
  {
    hide Accepted;
  }

  lemma ReportedMore(es: seq<Entry>, positions: seq<nat>, conflicts: seq<Conflict>, i: nat, c: Conflict)
    requires ReportedAt(es, positions, conflicts) && Reported(es, i, c)
    requires forall p | p in positions :: p < i
    ensures ReportedAt(es, positions + [i], conflicts + [c])
  {
    hide Reported;
    assert forall k | 0 <= k < |positions| :: positions[k] in positions;
  }

  /** The conflicts reported are those of the components that are not accepted, in order, each with
      the keys that accepted components before it have taken. */
  lemma {:induction false} ConflictsExactly(es: seq<Entry>, n: nat) returns (positions: seq<nat>)
    requires n <= |es|
    ensures ReportedAt(es, positions, Conflicts(es, n)) && AllRefused(es, n, positions)
  {
    hide *;
    positions := [];
    NoConflicts(es);
    if n > 0 {
      positions := ConflictsExactly(es, n - 1);
      ConflictIsReported(es, n - 1);
      RefusedNext(es, n, positions);
      ConflictsUnfold(es, n);
      var more := ConflictsOf(Groups(es, n - 1), es[n - 1]);
      if !Accepted(es, n - 1) {
        ReportedMore(es, positions, Conflicts(es, n - 1), n - 1, more[0]);
        assert more == [more[0]];
        positions := positions + [n - 1];
      } else {
        assert Conflicts(es, n - 1) + more == Conflicts(es, n - 1);
      }
    }
  }

  lemma NoConflicts(es: seq<Entry>)
    ensures Conflicts(es, 0) == [] && ReportedAt(es, [], []) && AllRefused(es, 0, [])
  {
    hide Accepted, Reported;
  }

  lemma ConflictsUnfold(es: seq<Entry>, n: nat)
    requires 0 < n <= |es|
    ensures Conflicts(es, n) == Conflicts(es, n - 1) + ConflictsOf(Groups(es, n - 1), es[n - 1])
  {
  }
}
