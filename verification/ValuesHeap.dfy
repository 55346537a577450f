/** Setting a value at a path in place, in maps and arrays that are objects. A ghost shape
    names the object behind every part of a nested value; on shapes in which no object
    occurs twice, the update in place does what ValuesPath.Set says. */
module ValuesHeap {
  import opened Text
  import opened ValuesPath

  class MapObject {
    var entries: map<string, Any>
    constructor ()
      ensures entries == map[]
    {
      entries := map[];
    }
  }

  class SliceObject {
    var elems: seq<Any>
    constructor (elems: seq<Any>)
      ensures this.elems == elems
    {
      this.elems := elems;
    }
  }

  datatype Any = Nothing | Scalar(value: int) | MapRef(m: MapObject) | SliceRef(s: SliceObject)

  /** The objects a value is made of; `repr` are all the objects that belong to a part. */
  datatype Shape =
    | OfNothing
    | OfScalar(value: int)
    | OfMap(m: MapObject, kids: map<string, Shape>, repr: set<object>)
    | OfSlice(s: SliceObject, items: seq<Shape>, repr: set<object>)

  ghost function Ref(s: Shape): Any {
    match s
    case OfNothing => Nothing
    case OfScalar(v) => Scalar(v)
    case OfMap(m, _, _) => MapRef(m)
    case OfSlice(a, _, _) => SliceRef(a)
  }

  ghost function Refs(kids: map<string, Shape>): map<string, Any> {
    map k | k in kids :: Ref(kids[k])
  }

  ghost function RefSeq(items: seq<Shape>): seq<Any> {
    seq(|items|, i requires 0 <= i < |items| => Ref(items[i]))
  }

  ghost function Tree(s: Shape): Node {
    match s
    case OfNothing => Null
    case OfScalar(v) => Leaf(v)
    case OfMap(_, kids, _) => Obj(map k | k in kids :: Tree(kids[k]))
    case OfSlice(_, items, _) => Arr(seq(|items|, i requires 0 <= i < |items| => Tree(items[i])))
  }

  ghost function Objects(s: Shape): set<object> {
    if s.OfMap? || s.OfSlice? then s.repr else {}
  }

  ghost predicate KidsApart(kids: map<string, Shape>) {
    forall j, k | j in kids && k in kids && j != k :: Objects(kids[j]) !! Objects(kids[k])
  }

  ghost predicate ItemsApart(items: seq<Shape>) {
    forall i, j | 0 <= i < |items| && 0 <= j < |items| && i != j :: Objects(items[i]) !! Objects(items[j])
  }

  /** The objects hold what the shape says, and no object belongs to two parts. */
  ghost predicate Owned(s: Shape)
    reads Objects(s)
    decreases s
  {
    match s
    case OfNothing => true
    case OfScalar(_) => true
    case OfMap(m, kids, repr) =>
      && m in repr && m.entries == Refs(kids) && KidsApart(kids)
      && forall k | k in kids :: Objects(kids[k]) <= repr - {m} && Owned(kids[k])
    case OfSlice(a, items, repr) =>
      && a in repr && a.elems == RefSeq(items) && ItemsApart(items)
      && forall i | 0 <= i < |items| :: Objects(items[i]) <= repr - {a} && Owned(items[i])
  }

  ghost predicate MapParts(m: MapObject, kids: map<string, Shape>, repr: set<object>)
    reads repr + {m}
  {
    && m in repr && m.entries == Refs(kids) && KidsApart(kids)
    && forall k | k in kids :: Objects(kids[k]) <= repr - {m} && Owned(kids[k])
  }

  ghost predicate SliceParts(a: SliceObject, items: seq<Shape>, repr: set<object>)
    reads repr + {a}
  {
    && a in repr && a.elems == RefSeq(items) && ItemsApart(items)
    && forall i | 0 <= i < |items| :: Objects(items[i]) <= repr - {a} && Owned(items[i])
  }

  lemma OwnedMap(m: MapObject, kids: map<string, Shape>, repr: set<object>)
    ensures Owned(OfMap(m, kids, repr)) <==> MapParts(m, kids, repr)
  {
    hide Refs, KidsApart;
  }

  lemma OwnedSlice(a: SliceObject, items: seq<Shape>, repr: set<object>)
    ensures Owned(OfSlice(a, items, repr)) <==> SliceParts(a, items, repr)
  {
    hide RefSeq, ItemsApart;
  }

  // ---------------------------------------------------------------- single writes

  /** A map whose other keys were left alone, with a new value under one key. */
  lemma KidPut(m: MapObject, kids: map<string, Shape>, k: string, sub: Shape, repr: set<object>)
    requires m in repr && m.entries == Refs(kids)[k := Ref(sub)] && KidsApart(kids)
    requires forall j | j in kids && j != k ::
               Objects(kids[j]) <= repr - {m} && Owned(kids[j]) && Objects(kids[j]) !! Objects(sub)
    requires Owned(sub) && Objects(sub) <= repr - {m}
    ensures Owned(OfMap(m, kids[k := sub], repr))
  {
    hide Owned, Ref, Objects;
    assert Refs(kids[k := sub]) == m.entries;
    OwnedMap(m, kids[k := sub], repr);
  }

  lemma ItemPut(a: SliceObject, items: seq<Shape>, i: nat, sub: Shape, repr: set<object>)
    requires i < |items| && a in repr && a.elems == RefSeq(items)[i := Ref(sub)] && ItemsApart(items)
    requires forall j | 0 <= j < |items| && j != i ::
               Objects(items[j]) <= repr - {a} && Owned(items[j]) && Objects(items[j]) !! Objects(sub)
    requires Owned(sub) && Objects(sub) <= repr - {a}
    ensures Owned(OfSlice(a, items[i := sub], repr))
  {
    hide Owned, Ref, Objects;
    assert RefSeq(items[i := sub]) == a.elems;
    OwnedSlice(a, items[i := sub], repr);
  }

  /** Stores a value under a key. */
  method PutKey(current: MapObject, k: string, value: Any, ghost shape: Shape, ghost sub: Shape)
    returns (ghost shape': Shape)
    requires shape.OfMap? && shape.m == current && Owned(shape)
    requires Ref(sub) == value && Owned(sub) && Objects(shape) !! Objects(sub)
    modifies current
    ensures shape' == OfMap(current, shape.kids[k := sub], shape.repr + Objects(sub)) && Owned(shape')
  {
    hide Owned, KidsApart, Refs;
    OwnedMap(current, shape.kids, shape.repr);
    current.entries := current.entries[k := value];
    shape' := OfMap(current, shape.kids[k := sub], shape.repr + Objects(sub));
    KidPut(current, shape.kids, k, sub, shape.repr + Objects(sub));
  }

  /** Stores a value at an index that exists. */
  method PutElem(arr: SliceObject, i: nat, value: Any, ghost shape: Shape, ghost sub: Shape)
    returns (ghost shape': Shape)
    requires shape.OfSlice? && shape.s == arr && Owned(shape) && i < |shape.items|
    requires Ref(sub) == value && Owned(sub) && Objects(shape) !! Objects(sub)
    modifies arr
    ensures shape' == OfSlice(arr, shape.items[i := sub], shape.repr + Objects(sub)) && Owned(shape')
  {
    hide Owned, ItemsApart;
    OwnedSlice(arr, shape.items, shape.repr);
    arr.elems := arr.elems[i := value];
    shape' := OfSlice(arr, shape.items[i := sub], shape.repr + Objects(sub));
    ItemPut(arr, shape.items, i, sub, shape.repr + Objects(sub));
  }

  // ---------------------------------------------------------------- intermediate maps and arrays

  /** Gets the map under a key, or creates it in place of whatever is there. */
  method MapUnder(current: MapObject, k: string, ghost shape: Shape) returns (next: MapObject, ghost shape': Shape)
    requires shape.OfMap? && shape.m == current && Owned(shape)
    modifies current
    ensures shape'.OfMap? && shape'.m == current && Owned(shape') && fresh(Objects(shape') - Objects(shape))
    ensures k in shape'.kids && shape'.kids == shape.kids[k := shape'.kids[k]]
    ensures var child := shape'.kids[k];
            child.OfMap? && child.m == next && Tree(child) == Obj(FieldsOf(Get(Tree(shape).fields, k)))
  {
    if k in current.entries && current.entries[k].MapRef? {
      next := current.entries[k].m;
      shape' := shape;
    } else {
      next := new MapObject();
      shape' := PutKey(current, k, MapRef(next), shape, OfMap(next, map[], {next}));
    }
  }

  /** The array that one step of a path asks for. */
  ghost predicate HoldsExtended(child: Shape, arr: SliceObject, before: Node, i: nat) {
    child.OfSlice? && child.s == arr && |child.items| > i && Tree(child) == Arr(Extend(ItemsOf(before), i))
  }

  ghost function Nothings(n: nat): seq<Shape> {
    seq(n, _ => OfNothing)
  }

  /** A longer array with the same elements. */
  ghost function Longer(child: Shape, longer: SliceObject, i: nat): Shape
    requires child.OfSlice? && |child.items| <= i
  {
    OfSlice(longer, child.items + Nothings(i + 1 - |child.items|), child.repr - {child.s} + {longer})
  }

  lemma LongerIsOwned(child: Shape, longer: SliceObject, i: nat)
    requires child.OfSlice? && |child.items| <= i && Owned(child) && longer !in child.repr
    requires longer.elems == child.s.elems + seq(i + 1 - |child.items|, _ => Nothing)
    ensures Owned(Longer(child, longer, i))
  {
    hide Owned;
    var longest := Longer(child, longer, i);
    OwnedSlice(child.s, child.items, child.repr);
    assert longer.elems == RefSeq(longest.items);
    assert forall n: nat | n < |longest.items| ::
      longest.items[n] == if n < |child.items| then child.items[n] else OfNothing;
    assert Owned(OfNothing) by { NothingIsOwned(); }
    OwnedSlice(longer, longest.items, longest.repr);
  }

  lemma NothingIsOwned()
    ensures Owned(OfNothing)
  {
  }

  lemma LongerTree(child: Shape, longer: SliceObject, i: nat)
    requires child.OfSlice? && |child.items| <= i
    ensures HoldsExtended(Longer(child, longer, i), longer, Tree(child), i)
  {
    assert Tree(Longer(child, longer, i)).items == Extend(ItemsOf(Tree(child)), i);
  }

  lemma NewArray(arr: SliceObject, i: nat)
    requires arr.elems == seq(i + 1, _ => Nothing)
    ensures Owned(OfSlice(arr, Nothings(i + 1), {arr}))
  {
    assert arr.elems == RefSeq(Nothings(i + 1));
  }

  lemma NewArrayTree(arr: SliceObject, before: Node, i: nat)
    requires !before.Arr?
    ensures HoldsExtended(OfSlice(arr, Nothings(i + 1), {arr}), arr, before, i)
  {
    assert Tree(OfSlice(arr, Nothings(i + 1), {arr})).items == Extend([], i);
  }

  /** What a map holds under a key. */
  ghost function Under(shape: Shape, k: string): (n: Node)
    requires shape.OfMap?
    ensures n == Get(Tree(shape).fields, k)
    ensures n == if k in shape.kids then Tree(shape.kids[k]) else Null
  {
    Get(Tree(shape).fields, k)
  }

  /** Gets the array under a key, or creates or extends it so that the index exists. */
  method ArrayUnder(current: MapObject, k: string, i: nat, ghost shape: Shape)
    returns (arr: SliceObject, ghost shape': Shape)
    requires shape.OfMap? && shape.m == current && Owned(shape)
    modifies current
    ensures shape'.OfMap? && shape'.m == current && Owned(shape') && fresh(Objects(shape') - Objects(shape))
    ensures k in shape'.kids && shape'.kids == shape.kids[k := shape'.kids[k]]
    ensures HoldsExtended(shape'.kids[k], arr, Get(Tree(shape).fields, k), i)
  {
    hide Owned, KidsApart, HoldsExtended;
    OwnedMap(current, shape.kids, shape.repr);
    ghost var before := Under(shape, k);
    if k in current.entries && current.entries[k].SliceRef? {
      arr := current.entries[k].s;
      shape' := shape;
      ghost var child := shape.kids[k];
      if |arr.elems| <= i {
        arr, shape' := Extended(current, k, arr, i, shape);
      } else {
        LongEnough(child, i);
      }
    } else {
      arr := new SliceObject(seq(i + 1, _ => Nothing));
      assert unchanged(Objects(shape));
      assert Owned(shape);
      NewArray(arr, i);
      NewArrayTree(arr, before, i);
      shape' := PutKey(current, k, SliceRef(arr), shape, OfSlice(arr, Nothings(i + 1), {arr}));
    }
  }

  lemma LongEnough(child: Shape, i: nat)
    requires child.OfSlice? && Owned(child) && i < |child.s.elems|
    ensures HoldsExtended(child, child.s, Tree(child), i)
  {
    hide Owned;
    OwnedSlice(child.s, child.items, child.repr);
  }

  /** Replaces the array under a key by a longer one with the same elements. */
  method Extended(current: MapObject, k: string, arr: SliceObject, i: nat, ghost shape: Shape)
    returns (longer: SliceObject, ghost shape': Shape)
    requires shape.OfMap? && shape.m == current && Owned(shape)
    requires k in current.entries && current.entries[k] == SliceRef(arr) && |arr.elems| <= i
    modifies current
    ensures shape'.OfMap? && shape'.m == current && Owned(shape') && fresh(Objects(shape') - Objects(shape))
    ensures k in shape'.kids && shape'.kids == shape.kids[k := shape'.kids[k]]
    ensures HoldsExtended(shape'.kids[k], longer, Get(Tree(shape).fields, k), i)
  {
    hide Owned, HoldsExtended;
    OwnedMap(current, shape.kids, shape.repr);
    ghost var child := shape.kids[k];
    OwnedSlice(arr, child.items, child.repr);
    longer := new SliceObject(arr.elems + seq(i + 1 - |arr.elems|, _ => Nothing));
    ghost var child' := Longer(child, longer, i);
    LongerIsOwned(child, longer, i);
    LongerTree(child, longer, i);
    assert current !in Objects(child');
    assert Owned(child');
    current.entries := current.entries[k := SliceRef(longer)];
    shape' := OfMap(current, shape.kids[k := child'], shape.repr + {longer});
    KidPut(current, shape.kids, k, child', shape.repr + {longer});
  }

  /** Gets the map at an index that exists, or creates it in place of whatever is there. */
  method MapAt(arr: SliceObject, i: nat, ghost shape: Shape) returns (next: MapObject, ghost shape': Shape)
    requires shape.OfSlice? && shape.s == arr && Owned(shape) && i < |shape.items|
    modifies arr
    ensures shape'.OfSlice? && shape'.s == arr && Owned(shape') && fresh(Objects(shape') - Objects(shape))
    ensures |shape'.items| == |shape.items| && shape'.items == shape.items[i := shape'.items[i]]
    ensures var child := shape'.items[i];
            child.OfMap? && child.m == next && Tree(child) == Obj(FieldsOf(Tree(shape.items[i])))
  {
    if arr.elems[i].MapRef? {
      next := arr.elems[i].m;
      shape' := shape;
    } else {
      next := new MapObject();
      shape' := PutElem(arr, i, MapRef(next), shape, OfMap(next, map[], {next}));
    }
  }

  // ---------------------------------------------------------------- the way back to the root

  /** What surrounds the part that is being worked on, innermost first. */
  datatype Around =
    | Root
    | InMap(outer: Around, m: MapObject, kids: map<string, Shape>, k: string, own: set<object>)
    | InSlice(outer: Around, s: SliceObject, items: seq<Shape>, i: nat, own: set<object>)

  ghost function Surrounding(c: Around): set<object> {
    match c
    case Root => {}
    case InMap(outer, _, _, _, own) => own + Surrounding(outer)
    case InSlice(outer, _, _, _, own) => own + Surrounding(outer)
  }

  /** The surroundings hold what they say, except for the part that is being worked on. */
  ghost predicate Holds(c: Around, part: Any)
    reads Surrounding(c)
    decreases c
  {
    match c
    case Root => true
    case InMap(outer, m, kids, k, own) =>
      && MapHole(m, kids, k, own, part)
      && own !! Surrounding(outer) && Holds(outer, MapRef(m))
    case InSlice(outer, a, items, i, own) =>
      && i < |items| && SliceHole(a, items, i, own, part)
      && own !! Surrounding(outer) && Holds(outer, SliceRef(a))
  }

  ghost predicate MapHole(m: MapObject, kids: map<string, Shape>, k: string, own: set<object>, part: Any)
    reads own
  {
    && m in own && k in kids && Ref(kids[k]) == part && m.entries == Refs(kids) && KidsApart(kids)
    && forall j | j in kids && j != k :: Objects(kids[j]) <= own - {m} && Owned(kids[j])
  }

  ghost predicate SliceHole(a: SliceObject, items: seq<Shape>, i: nat, own: set<object>, part: Any)
    reads own
  {
    && a in own && i < |items| && Ref(items[i]) == part && a.elems == RefSeq(items) && ItemsApart(items)
    && forall j | 0 <= j < |items| && j != i :: Objects(items[j]) <= own - {a} && Owned(items[j])
  }

  lemma MapFilled(m: MapObject, kids: map<string, Shape>, k: string, own: set<object>, s: Shape)
    requires MapHole(m, kids, k, own, Ref(s)) && Owned(s) && Objects(s) !! own
    ensures var s' := OfMap(m, kids[k := s], own + Objects(s));
            Owned(s') && Tree(s') == Obj(Trees(kids)[k := Tree(s)])
  {
    hide Owned;
    KidPut(m, kids, k, s, own + Objects(s));
    TreeOfMap(OfMap(m, kids[k := s], own + Objects(s)));
    TreesPut(kids, k, s);
  }

  lemma SliceFilled(a: SliceObject, items: seq<Shape>, i: nat, own: set<object>, s: Shape)
    requires SliceHole(a, items, i, own, Ref(s)) && Owned(s) && Objects(s) !! own
    ensures var s' := OfSlice(a, items[i := s], own + Objects(s));
            Owned(s') && Tree(s') == Arr(TreeSeq(items)[i := Tree(s)])
  {
    hide Owned;
    ItemPut(a, items, i, s, own + Objects(s));
    TreeOfSlice(OfSlice(a, items[i := s], own + Objects(s)));
    TreeSeqPut(items, i, s);
  }

  ghost function Plug(c: Around, s: Shape): Shape
    decreases c
  {
    match c
    case Root => s
    case InMap(outer, m, kids, k, own) => Plug(outer, OfMap(m, kids[k := s], own + Objects(s)))
    case InSlice(outer, a, items, i, own) =>
      Plug(outer, OfSlice(a, if i < |items| then items[i := s] else items, own + Objects(s)))
  }

  ghost function Trees(kids: map<string, Shape>): map<string, Node> {
    map k | k in kids :: Tree(kids[k])
  }

  ghost function TreeSeq(items: seq<Shape>): seq<Node> {
    seq(|items|, i requires 0 <= i < |items| => Tree(items[i]))
  }

  lemma TreeOfMap(s: Shape)
    requires s.OfMap?
    ensures Tree(s) == Obj(Trees(s.kids))
  {
    assert Tree(s).fields == Trees(s.kids);
  }

  lemma TreeOfSlice(s: Shape)
    requires s.OfSlice?
    ensures Tree(s) == Arr(TreeSeq(s.items))
  {
    assert Tree(s).items == TreeSeq(s.items);
  }

  lemma TreesPut(kids: map<string, Shape>, k: string, sub: Shape)
    ensures Trees(kids[k := sub]) == Trees(kids)[k := Tree(sub)]
  {
    hide Tree;
  }

  lemma TreeSeqPut(items: seq<Shape>, i: nat, sub: Shape)
    requires i < |items|
    ensures TreeSeq(items[i := sub]) == TreeSeq(items)[i := Tree(sub)]
  {
    hide Tree;
  }

  ghost function PlugTree(c: Around, n: Node): Node
    decreases c
  {
    match c
    case Root => n
    case InMap(outer, _, kids, k, _) => PlugTree(outer, Obj(Trees(kids)[k := n]))
    case InSlice(outer, _, items, i, _) =>
      PlugTree(outer, Arr(if i < |items| then TreeSeq(items)[i := n] else TreeSeq(items)))
  }

  /** Putting an owned part back into its surroundings gives an owned whole. */
  lemma {:induction false} PlugIsOwned(c: Around, s: Shape)
    requires Holds(c, Ref(s)) && Owned(s) && Objects(s) !! Surrounding(c)
    ensures Owned(Plug(c, s)) && Objects(Plug(c, s)) == Objects(s) + Surrounding(c)
    ensures Tree(Plug(c, s)) == PlugTree(c, Tree(s))
    ensures Ref(Plug(c, s)) == Whole(c, Ref(s))
    decreases c
  {
    hide Owned, MapHole, SliceHole, Tree;
    match c
    case Root =>
    case InMap(outer, m, kids, k, own) =>
      MapFilled(m, kids, k, own, s);
      PlugIsOwned(outer, OfMap(m, kids[k := s], own + Objects(s)));
    case InSlice(outer, a, items, i, own) =>
      SliceFilled(a, items, i, own, s);
      PlugIsOwned(outer, OfSlice(a, items[i := s], own + Objects(s)));
  }

  ghost function Whole(c: Around, part: Any): Any
    decreases c
  {
    match c
    case Root => part
    case InMap(outer, m, _, _, _) => Whole(outer, MapRef(m))
    case InSlice(outer, a, _, _, _) => Whole(outer, SliceRef(a))
  }

  // ---------------------------------------------------------------- going down

  lemma IntoMap(c: Around, s: Shape, k: string)
    requires s.OfMap? && k in s.kids && Owned(s) && Holds(c, Ref(s)) && Objects(s) !! Surrounding(c)
    ensures var child := s.kids[k];
            var c' := InMap(c, s.m, s.kids, k, Objects(s) - Objects(child));
            && Holds(c', Ref(child)) && Owned(child) && Objects(child) !! Surrounding(c')
            && Surrounding(c') + Objects(child) == Surrounding(c) + Objects(s)
  {
  }

  lemma IntoSlice(c: Around, s: Shape, i: nat)
    requires s.OfSlice? && i < |s.items| && Owned(s) && Holds(c, Ref(s)) && Objects(s) !! Surrounding(c)
    ensures var child := s.items[i];
            var c' := InSlice(c, s.s, s.items, i, Objects(s) - Objects(child));
            && Holds(c', Ref(child)) && Owned(child) && Objects(child) !! Surrounding(c')
            && Surrounding(c') + Objects(child) == Surrounding(c) + Objects(s)
  {
  }

  // ---------------------------------------------------------------- one step down

  /** The walk stands at a map inside its surroundings. */
  ghost predicate At(c: Around, s: Shape, current: MapObject)
    reads Surrounding(c) + Objects(s)
  {
    s.OfMap? && s.m == current && Owned(s) && Holds(c, MapRef(current)) && Objects(s) !! Surrounding(c)
  }

  /** Filling the lower place is filling the upper one with a map in which one step was set. */
  ghost predicate Below(c': Around, c: Around, fields: map<string, Node>, step: Step) {
    forall n :: PlugTree(c', n) == PlugTree(c, Obj(SetStep(fields, step, n)))
  }

  lemma BelowKey(c: Around, s: Shape, k: string, s1: Shape, own: set<object>)
    requires s.OfMap? && s1.OfMap? && k in s1.kids && s1.kids == s.kids[k := s1.kids[k]]
    ensures Below(InMap(c, s1.m, s1.kids, k, own), c, Tree(s).fields, Key(k))
  {
    TreeOfMap(s);
    TreesPut(s.kids, k, s1.kids[k]);
    hide PlugTree, Tree, Trees;
    forall n ensures PlugTree(InMap(c, s1.m, s1.kids, k, own), n) == PlugTree(c, Obj(Tree(s).fields[k := n])) {
      assert Trees(s1.kids)[k := n] == Tree(s).fields[k := n];
      PlugMap(c, s1.m, s1.kids, k, own, n);
    }
  }

  lemma BelowIndex(c: Around, s: Shape, k: string, i: nat, s1: Shape, s2: Shape, own: set<object>, own': set<object>)
    requires s.OfMap? && s1.OfMap? && k in s1.kids && s1.kids == s.kids[k := s1.kids[k]]
    requires s2.OfSlice? && HoldsExtended(s1.kids[k], s2.s, Under(s, k), i)
    requires |s2.items| == |s1.kids[k].items| && s2.items == s1.kids[k].items[i := s2.items[i]]
    ensures Below(InSlice(InMap(c, s1.m, s1.kids, k, own), s2.s, s2.items, i, own'), c, Tree(s).fields, Index(k, i))
  {
    var extended := Extend(ItemsOf(Under(s, k)), i);
    var c1 := InMap(c, s1.m, s1.kids, k, own);
    TreeOfSlice(s1.kids[k]);
    TreeSeqPut(s1.kids[k].items, i, s2.items[i]);
    BelowKey(c, s, k, s1, own);
    hide PlugTree, Tree, TreeSeq, Extend, ItemsOf, Under, Get;
    forall n ensures PlugTree(InSlice(c1, s2.s, s2.items, i, own'), n)
      == PlugTree(c, Obj(SetStep(Tree(s).fields, Index(k, i), n))) {
      assert TreeSeq(s2.items)[i := n] == extended[i := n];
      PlugSlice(c1, s2.s, s2.items, i, own', n);
      assert PlugTree(c1, Arr(extended[i := n]))
        == PlugTree(c, Obj(SetStep(Tree(s).fields, Key(k), Arr(extended[i := n]))));
    }
  }

  lemma PlugMap(c: Around, m: MapObject, kids: map<string, Shape>, k: string, own: set<object>, n: Node)
    ensures PlugTree(InMap(c, m, kids, k, own), n) == PlugTree(c, Obj(Trees(kids)[k := n]))
  {
  }

  lemma PlugSlice(c: Around, a: SliceObject, items: seq<Shape>, i: nat, own: set<object>, n: Node)
    requires i < |items|
    ensures PlugTree(InSlice(c, a, items, i, own), n) == PlugTree(c, Arr(TreeSeq(items)[i := n]))
  {
  }

  /** Goes down one key, creating the map if there is none. */
  method DescendKey(current: MapObject, k: string, ghost c: Around, ghost s: Shape)
    returns (next: MapObject, ghost c': Around, ghost s': Shape)
    requires At(c, s, current)
    modifies current
    ensures At(c', s', next) && Whole(c', MapRef(next)) == Whole(c, MapRef(current))
    ensures fresh(Surrounding(c') + Objects(s') - Surrounding(c) - Objects(s))
    ensures Tree(s') == Obj(FieldsOf(GetStep(Tree(s).fields, Key(k))))
    ensures Below(c', c, Tree(s).fields, Key(k))
  {
    hide Owned, Holds, Below;
    InOwnObjects(s);
    ghost var before := Under(s, k);
    AllAllocated(c);
    ghost var s1;
    next, s1 := MapUnder(current, k, s);
    assert Holds(c, MapRef(current));
    s' := s1.kids[k];
    c' := InMap(c, current, s1.kids, k, Objects(s1) - Objects(s'));
    IntoMap(c, s1, k);
    BelowKey(c, s, k, s1, Objects(s1) - Objects(s'));
  }

  lemma AllAllocated(c: Around)
    ensures allocated(Surrounding(c))
  {
  }

  lemma InOwnObjects(s: Shape)
    requires s.OfMap? && Owned(s)
    ensures s.m in Objects(s)
  {
  }

  lemma ExtendedAt(child: Shape, arr: SliceObject, before: Node, i: nat)
    requires HoldsExtended(child, arr, before, i)
    ensures Tree(child.items[i]) == if i < |ItemsOf(before)| then ItemsOf(before)[i] else Null
  {
    assert Tree(child.items[i]) == Tree(child).items[i];
  }

  /** Goes down one key and one index, creating and extending what is not there. */
  method DescendIndex(current: MapObject, k: string, i: nat, ghost c: Around, ghost s: Shape)
    returns (next: MapObject, ghost c': Around, ghost s': Shape)
    requires At(c, s, current)
    modifies Objects(s)
    ensures At(c', s', next) && Whole(c', MapRef(next)) == Whole(c, MapRef(current))
    ensures fresh(Surrounding(c') + Objects(s') - Surrounding(c) - Objects(s))
    ensures Tree(s') == Obj(FieldsOf(GetStep(Tree(s).fields, Index(k, i))))
    ensures Below(c', c, Tree(s).fields, Index(k, i))
  {
    hide Owned, Holds, Below, Tree, Extend;
    InOwnObjects(s);
    TreeOfMap(s);
    ghost var before := Under(s, k);
    ghost var s1, s2;
    var arr;
    AllAllocated(c);
    arr, s1 := ArrayUnder(current, k, i, s);
    assert Holds(c, MapRef(current));
    ghost var child := s1.kids[k];
    ExtendedAt(child, arr, before, i);
    ghost var own := Objects(s1) - Objects(child);
    ghost var c1 := InMap(c, current, s1.kids, k, own);
    IntoMap(c, s1, k);
    AllAllocated(c1);
    next, s2 := MapAt(arr, i, child);
    assert Holds(c1, SliceRef(arr));
    s' := s2.items[i];
    c' := InSlice(c1, arr, s2.items, i, Objects(s2) - Objects(s'));
    IntoSlice(c1, s2, i);
    BelowIndex(c, s, k, i, s1, s2, own, Objects(s2) - Objects(s'));
  }

  /** Stores the value at the last step. */
  method Place(current: MapObject, step: Step, value: Any, ghost s: Shape, ghost sub: Shape) returns (ghost s': Shape)
    requires !step.Bad? && s.OfMap? && s.m == current && Owned(s)
    requires Ref(sub) == value && Owned(sub) && Objects(s) !! Objects(sub)
    modifies Objects(s)
    ensures s'.OfMap? && s'.m == current && Owned(s')
    ensures fresh(Objects(s') - Objects(s) - Objects(sub))
    ensures Tree(s') == Obj(SetStep(Tree(s).fields, step, Tree(sub)))
  {
    InOwnObjects(s);
    if step.Key? {
      s' := PutKey(current, step.key, value, s, sub);
      KeyPlaced(s, step.key, sub, s');
    } else {
      s' := PlaceAt(current, step.key, step.index, value, s, sub);
    }
  }

  lemma KeyPlaced(s: Shape, k: string, sub: Shape, s': Shape)
    requires s.OfMap? && s'.OfMap? && s'.kids == s.kids[k := sub]
    ensures Tree(s') == Obj(Tree(s).fields[k := Tree(sub)])
  {
    TreeOfMap(s);
    TreeOfMap(s');
    TreesPut(s.kids, k, sub);
    hide Tree, Trees;
  }

  /** Stores the value at an index of the array under a key. */
  method PlaceAt(current: MapObject, k: string, i: nat, value: Any, ghost s: Shape, ghost sub: Shape)
    returns (ghost s': Shape)
    requires s.OfMap? && s.m == current && Owned(s)
    requires Ref(sub) == value && Owned(sub) && Objects(s) !! Objects(sub)
    modifies Objects(s)
    ensures s'.OfMap? && s'.m == current && Owned(s')
    ensures fresh(Objects(s') - Objects(s) - Objects(sub))
    ensures Tree(s') == Obj(SetStep(Tree(s).fields, Index(k, i), Tree(sub)))
  {
    hide Owned, MapHole, Tree, Trees, TreeSeq, Extend;
    InOwnObjects(s);
    ghost var before := Under(s, k);
    ghost var s1, after;
    var arr;
    arr, s1 := ArrayUnder(current, k, i, s);
    assert Owned(sub);
    ghost var child := s1.kids[k];
    ghost var own := Objects(s1) - Objects(child);
    IntoMap(Root, s1, k);
    HoldsHole(Root, current, s1.kids, k, own, SliceRef(arr));
    after := PutElem(arr, i, value, child, sub);
    MapFilled(current, s1.kids, k, own, after);
    s' := OfMap(current, s1.kids[k := after], own + Objects(after));
    TreeOfSlice(child);
    TreeOfSlice(after);
    TreeOfMap(s);
    TreeOfMap(s1);
    TreeSeqPut(child.items, i, sub);
    TreesPut(s.kids, k, child);
  }

  lemma HoldsHole(c: Around, m: MapObject, kids: map<string, Shape>, k: string, own: set<object>, part: Any)
    requires Holds(InMap(c, m, kids, k, own), part)
    ensures MapHole(m, kids, k, own, part)
  {
    hide MapHole;
  }

  // ---------------------------------------------------------------- the whole path

  lemma OneMoreStep(c': Around, c: Around, fields: map<string, Node>, steps: seq<Step>, v: Node)
    requires |steps| > 1 && !steps[0].Bad? && Below(c', c, fields, steps[0])
    ensures PlugTree(c', Obj(Set(FieldsOf(GetStep(fields, steps[0])), steps[1..], v)))
      == PlugTree(c, Obj(Set(fields, steps, v)))
  {
    hide PlugTree;
  }

  /** Sets a value at a path of a map in place. */
  method SetValueAtPath(m: MapObject, path: string, value: Any, ghost shape: Shape, ghost sub: Shape)
    returns (r: MapObject, ghost shape': Shape)
    requires PathOk(path)
    requires shape.OfMap? && shape.m == m && Owned(shape)
    requires Ref(sub) == value && Owned(sub) && Objects(shape) !! Objects(sub)
    modifies Objects(shape)
    ensures r == m && Ref(shape') == MapRef(m) && Owned(shape')
    ensures fresh(Objects(shape') - Objects(shape) - Objects(sub))
    ensures Tree(shape') == Obj(Set(Tree(shape).fields, Steps(path), Tree(sub)))
  {
    hide Owned, Holds, Below, Steps, Set, PathOk, Split;
    var parts := Split(path, '.');
    var current := m;
    ghost var c, s := Root, shape;
    ghost var steps := StepsAre(path);
    ghost var goal := Obj(Set(Tree(shape).fields, steps, Tree(sub)));
    AtRoot(shape, m);
    r := m;
    for i := 0 to |parts| - 1
      invariant At(c, s, current) && Whole(c, MapRef(current)) == MapRef(m)
      invariant fresh(Surrounding(c) + Objects(s) - Objects(shape))
      invariant Owned(sub)
      invariant PlugTree(c, Obj(Set(Tree(s).fields, steps[i..], Tree(sub)))) == goal
    {
      var step := ParsePart(parts[i]);
      ghost var rest := steps[i..];
      if step.Bad? {
        BadEnds(Tree(s).fields, rest, Tree(sub));
        shape' := Plug(c, s);
        PlugIsOwned(c, s);
        return;
      }
      InOwnObjects(s);
      ghost var c0, fields := c, Tree(s).fields;
      if step.Key? {
        current, c, s := DescendKey(current, step.key, c, s);
      } else {
        current, c, s := DescendIndex(current, step.key, step.index, c, s);
      }
      forall o | o in Surrounding(c) + Objects(s) && o !in Objects(shape) ensures fresh(o) {
      }
      OneMoreStep(c, c0, fields, rest, Tree(sub));
      assert rest[1..] == steps[i + 1..];
    }
    var step := ParsePart(parts[|parts| - 1]);
    ghost var rest := steps[|parts| - 1..];
    LastStep(Tree(s).fields, rest, Tree(sub));
    if !step.Bad? {
      AllAllocated(c);
      s := Place(current, step, value, s, sub);
    }
    shape' := Plug(c, s);
    PlugIsOwned(c, s);
  }

  ghost function StepsAre(path: string): (steps: seq<Step>)
    requires PathOk(path)
    ensures steps == Steps(path) && |steps| == |Split(path, '.')| > 0
    ensures forall i | 0 <= i < |steps| :: PartOk(Split(path, '.')[i]) && steps[i] == ParsePart(Split(path, '.')[i])
  {
    Steps(path)
  }

  lemma AtRoot(shape: Shape, m: MapObject)
    requires shape.OfMap? && shape.m == m && Owned(shape)
    ensures At(Root, shape, m)
  {
  }

  lemma BadEnds(fields: map<string, Node>, steps: seq<Step>, v: Node)
    requires steps != [] && steps[0].Bad?
    ensures Set(fields, steps, v) == fields
  {
  }

  lemma LastStep(fields: map<string, Node>, steps: seq<Step>, v: Node)
    requires |steps| == 1
    ensures Set(fields, steps, v) == SetStep(fields, steps[0], v)
  {
  }
}
