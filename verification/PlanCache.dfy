/** The results of a plan run: every component in the order in which it was added, and an
    index of the same components by name. */
module PlanCache {
  import opened Options
  import opened Text
  import opened Resources
  import ResourceLaws

  /** A construct with its identifier and its path in the tree; `tag` tells constructs apart. */
  datatype Construct = Construct(id: Option<string>, path: Option<string>, tag: int)

  datatype Node = Node(id: string, parentID: string, idStr: string, data: Construct)

  // ---------------------------------------------------------------- what is asked for

  /** The nodes with a name, in order. */
  function WithId(nodes: seq<Node>, id: string): (r: seq<Node>)
    ensures forall n :: n in r <==> n in nodes && n.id == id
  {
    if nodes == [] then []
    else
      var front, last := nodes[..|nodes| - 1], nodes[|nodes| - 1];
      if last.id == id then WithId(front, id) + [last] else WithId(front, id)
  }

  function WithParent(nodes: seq<Node>, id: string): (r: seq<Node>)
    ensures forall n :: n in r <==> n in nodes && n.parentID == id
  {
    if nodes == [] then []
    else
      var front, last := nodes[..|nodes| - 1], nodes[|nodes| - 1];
      if last.parentID == id then WithParent(front, id) + [last] else WithParent(front, id)
  }

  /** The parts of a path that are not empty. */
  function Fields(parts: seq<string>): seq<string> {
    if parts == [] then []
    else if parts[0] == "" then Fields(parts[1..])
    else [parts[0]] + Fields(parts[1..])
  }

  /** The field before the first that equals the current one, or the last field. */
  function FieldBefore(fields: seq<string>, current: string): string {
    if fields == [] || fields[0] == current then ""
    else if |fields| == 1 || fields[1] == current then fields[0]
    else FieldBefore(fields[1..], current)
  }

  function ParentName(field: string): string {
    if field == "" then "" else ExtractResource(field)
  }

  /** The name under which the parent of a construct is known; empty for a root. */
  function ParentOf(c: Construct): string {
    if c.id.None? || c.path.None? then ""
    else ParentName(FieldBefore(Fields(Split(c.path.value, '/')), c.id.value))
  }

  function NodeOf(c: Construct): Node
    requires c.id.Some?
  {
    Node(ExtractResource(c.id.value), ParentOf(c), ExtractResource(c.id.value), c)
  }

  // ---------------------------------------------------------------- the index

  class Results {
    var nodes: map<string, seq<Node>>
    var roots: seq<Node>

    /** The index and the list agree. */
    ghost predicate Valid()
      reads this
    {
      && (forall id :: Listed(id) == WithId(roots, id))
      && forall n | n in roots :: n.data.id.Some? && n == NodeOf(n.data)
    }

    function Listed(id: string): seq<Node>
      reads this
    {
      if id in nodes then nodes[id] else []
    }

    constructor ()
      ensures Valid() && roots == []
    {
      nodes, roots := map[], [];
    }

    /** Adds a construct to the list and to the index; one without identifier is skipped. */
    method Add(c: Option<Construct>)
      requires Valid()
      modifies this
      ensures Valid()
      ensures roots == old(roots) + if c.Some? && c.value.id.Some? then [NodeOf(c.value)] else []
    {
      if c.None? || c.value.id.None? {
        return;
      }
      var id := ExtractResource(c.value.id.value);
      var parent := ParentID(c.value);
      var node := Node(id, parent, id, c.value);
      nodes := nodes[id := Listed(id) + [node]];
      roots := roots + [node];
    }

    /** The nodes with a name, in the order in which they were added. */
    method Get(resource: string) returns (r: seq<Node>)
      requires Valid()
      ensures r == WithId(roots, resource)
    {
      r := Listed(resource);
    }

    /** Looks constructs up by a name or by a full identifier. */
    method ComponentByName(id: string) returns (r: seq<Construct>)
      requires Valid()
      ensures r == Data(WithId(roots, ExtractResource(id)))
    {
      var found := Get(ExtractResource(id));
      r := Data(found);
    }

    /** All constructs in the order in which they were added. */
    method Components() returns (r: seq<Construct>)
      requires Valid()
      ensures |r| == |roots| && forall i | 0 <= i < |roots| :: r[i] == roots[i].data
    {
      r := Data(roots);
    }

    /** The nodes whose parent has the name of a node. */
    method Children(parent: Node) returns (children: seq<Node>)
      ensures children == WithParent(roots, parent.id)
    {
      children := [];
      for i := 0 to |roots|
        invariant children == WithParent(roots[..i], parent.id)
      {
        assert roots[..i + 1][..i] == roots[..i];
        if roots[i].parentID == parent.id {
          children := children + [roots[i]];
        }
      }
      assert roots[..|roots|] == roots;
    }

    method RootNodes() returns (r: seq<Node>)
      ensures r == WithParent(roots, "")
    {
      r := [];
      for i := 0 to |roots|
        invariant r == WithParent(roots[..i], "")
      {
        assert roots[..i + 1][..i] == roots[..i];
        if roots[i].parentID == "" {
          r := r + [roots[i]];
        }
      }
      assert roots[..|roots|] == roots;
    }
  }

  function Data(nodes: seq<Node>): (r: seq<Construct>)
    ensures |r| == |nodes| && forall i | 0 <= i < |nodes| :: r[i] == nodes[i].data
  {
    seq(|nodes|, i requires 0 <= i < |nodes| => nodes[i].data)
  }

  /** Walks the path down to the construct and keeps the field before it. */
  method ParentID(c: Construct) returns (r: string)
    ensures r == ParentOf(c)
  {
    if c.id.None? || c.path.None? {
      return "";
    }
    var fields, currentID := Fields(Split(c.path.value, '/')), c.id.value;
    var parentID, i := "", 0;
    while i < |fields| && fields[i] != currentID
      invariant i <= |fields|
      invariant i == 0 ==> parentID == ""
      invariant i > 0 ==> FieldBefore(fields, currentID) == FieldBefore(fields[i - 1..], currentID)
      invariant i > 0 ==> parentID == fields[i - 1] != currentID
    {
      parentID := fields[i];
      i := i + 1;
    }
    r := if parentID == "" then "" else ExtractResource(parentID);
  }

  // ---------------------------------------------------------------- selections

  /** The nodes picked stand at these positions of the list, in order. */
  ghost predicate PickedAt(nodes: seq<Node>, positions: seq<nat>, picked: seq<Node>) {
    && |positions| == |picked| && (forall k, l | 0 <= k < l < |positions| :: positions[k] < positions[l])
    && forall k | 0 <= k < |positions| :: positions[k] < |nodes| && nodes[positions[k]] == picked[k]
  }

  lemma PickedMore(nodes: seq<Node>, positions: seq<nat>, picked: seq<Node>)
    requires nodes != [] && PickedAt(nodes[..|nodes| - 1], positions, picked)
    ensures PickedAt(nodes, positions, picked)
    ensures PickedAt(nodes, positions + [|nodes| - 1], picked + [nodes[|nodes| - 1]])
  {
    var front := nodes[..|nodes| - 1];
    assert forall k | 0 <= k < |positions| :: front[positions[k]] == picked[k];
  }

  /** The positions are those of all nodes that are selected. */
  ghost predicate Where(nodes: seq<Node>, positions: seq<nat>, selected: Node -> bool) {
    forall i: nat :: i in positions <==> i < |nodes| && selected(nodes[i])
  }

  function HasId(id: string): Node -> bool {
    (n: Node) => n.id == id
  }

  function HasParent(id: string): Node -> bool {
    (n: Node) => n.parentID == id
  }

  lemma WhereMore(nodes: seq<Node>, positions: seq<nat>, selected: Node -> bool)
    requires nodes != [] && Where(nodes[..|nodes| - 1], positions, selected)
    ensures Where(nodes, if selected(nodes[|nodes| - 1]) then positions + [|nodes| - 1] else positions, selected)
  {
    assert forall i: nat | i < |nodes| - 1 :: nodes[..|nodes| - 1][i] == nodes[i];
  }

  /** The nodes with a name are all of them, each once and in the order of the list. */
  lemma {:induction false} WithIdExactly(nodes: seq<Node>, id: string) returns (positions: seq<nat>)
    ensures PickedAt(nodes, positions, WithId(nodes, id))
    ensures Where(nodes, positions, HasId(id))
  {
    positions := [];
    if nodes != [] {
      var front, last := nodes[..|nodes| - 1], |nodes| - 1;
      positions := WithIdExactly(front, id);
      PickedMore(nodes, positions, WithId(front, id));
      WhereMore(nodes, positions, HasId(id));
      hide PickedAt, Where;
      if nodes[last].id == id {
        positions := positions + [last];
      }
    }
  }

  lemma {:induction false} WithParentExactly(nodes: seq<Node>, id: string) returns (positions: seq<nat>)
    ensures PickedAt(nodes, positions, WithParent(nodes, id))
    ensures Where(nodes, positions, HasParent(id))
  {
    positions := [];
    if nodes != [] {
      var front, last := nodes[..|nodes| - 1], |nodes| - 1;
      positions := WithParentExactly(front, id);
      PickedMore(nodes, positions, WithParent(front, id));
      WhereMore(nodes, positions, HasParent(id));
      hide PickedAt, Where;
      if nodes[last].parentID == id {
        positions := positions + [last];
      }
    }
  }

  // ---------------------------------------------------------------- what a lookup finds

  /** Every node of the list is what adding its construct made. */
  ghost predicate Added(nodes: seq<Node>) {
    forall n | n in nodes :: n.data.id.Some? && n == NodeOf(n.data)
  }

  /** A construct is found under its full identifier, whatever that is. */
  lemma FoundByFullId(nodes: seq<Node>, c: Construct)
    requires Added(nodes) && c.id.Some? && NodeOf(c) in nodes
    ensures c in Data(WithId(nodes, ExtractResource(c.id.value)))
  {
    var found := WithId(nodes, ExtractResource(c.id.value));
    var i :| 0 <= i < |found| && found[i] == NodeOf(c);
    assert Data(found)[i] == c;
  }

  /** What a lookup finds has the name that was asked for. */
  lemma FoundHasName(nodes: seq<Node>, c: Construct, id: string)
    requires Added(nodes) && c in Data(WithId(nodes, id))
    ensures c.id.Some? && ExtractResource(c.id.value) == id && NodeOf(c) in nodes
  {
    var found := WithId(nodes, id);
    var i :| 0 <= i < |found| && found[i].data == c;
    assert found[i] in found;
  }

  /** The identifier of the construct was generated from the prefix. */
  ghost predicate IsGenerated(c: Construct, prefix: string, encoded: seq<bv8>) {
    c.id == Some(ResourceID(prefix, encoded))
  }

  /** The name of an identifier that was generated from a prefix. */
  function GeneratedName(prefix: string): string {
    if TrimSpace(prefix) == "" then UNKNOWN else TrimSpace(prefix)
  }

  lemma SpaceAtAnEnd(s: string)
    requires s != "" && TrimSpace(s) != s
    ensures IsSpace(s[0]) || IsSpace(s[|s| - 1])
  {
    hide Trim, IsSpace;
    if !IsSpace(s[0]) && !IsSpace(s[|s| - 1]) {
      TrimKeeps(s, IsSpace);
    }
  }

  lemma GeneratedNameStartsPlain(prefix: string)
    ensures GeneratedName(prefix) != "" && !IsSpace(GeneratedName(prefix)[0])
  {
    TrimEnds(prefix, IsSpace);
    hide TrimLeft, TrimRight;
  }

  lemma HashEndsPlain(s: string)
    requires ResourceLaws.TailHash(s)
    ensures !IsSpace(s[|s| - 1]) && s[..|s| - 9] != s
  {
    assert s[|s| - 8..][7] == s[|s| - 1] && s[|s| - 8..][7] in s[|s| - 8..];
  }

  /** A prefix is looked up under the name that it generates exactly when it has no space at
      its ends and no hash at its end. */
  lemma ExtractIsGeneratedName(prefix: string)
    ensures ExtractResource(prefix) == GeneratedName(prefix) <==>
            prefix == TrimSpace(prefix) && !ResourceLaws.TailHash(prefix)
  {
    ResourceLaws.ExtractCases(prefix);
    GeneratedNameStartsPlain(prefix);
    var e, name := ExtractResource(prefix), GeneratedName(prefix);
    if prefix == "" {
      assert TrimSpace("") == "";
    } else if TrimSpace(prefix) != prefix {
      SpaceAtAnEnd(prefix);
      if ResourceLaws.TailHash(prefix) {
        HashEndsPlain(prefix);
      } else {
        PaddedIsNotItsName(prefix);
      }
    } else if ResourceLaws.TailHash(prefix) {
      HashEndsPlain(prefix);
    }
    hide ExtractResource, ResourceLaws.TailHash, TrimSpace;
  }

  lemma PaddedIsNotItsName(prefix: string)
    requires prefix != "" && TrimSpace(prefix) != prefix && !ResourceLaws.TailHash(prefix)
    ensures prefix != GeneratedName(prefix)
  {
    SpaceAtAnEnd(prefix);
    hide TrimSpace, ResourceLaws.TailHash;
  }

  /** A construct whose identifier was generated from a prefix is found under that prefix
      exactly when the prefix has no space at its ends and does not itself end in a hash. */
  lemma FoundByPrefixExactly(nodes: seq<Node>, c: Construct, prefix: string, encoded: seq<bv8>)
    requires Added(nodes) && IsGenerated(c, prefix, encoded) && NodeOf(c) in nodes
    ensures c in Data(WithId(nodes, ExtractResource(prefix))) <==>
            prefix == TrimSpace(prefix) && !ResourceLaws.TailHash(prefix)
  {
    hide TrimSpace, ExtractResource, ResourceID, ResourceLaws.TailHash;
    ResourceLaws.RoundTrip(prefix, encoded);
    ExtractIsGeneratedName(prefix);
    if ExtractResource(prefix) == GeneratedName(prefix) {
      FoundByFullId(nodes, c);
    }
    if c in Data(WithId(nodes, ExtractResource(prefix))) {
      FoundHasName(nodes, c, ExtractResource(prefix));
    }
  }

  lemma WitnessIsHashed()
    ensures ResourceLaws.TailHash("app-deadbeef")
  {
    var s, h := "app-deadbeef", "deadbeef";
    assert s[4..] == h;
    assert |h| == 8 && forall i | 0 <= i < |h| :: IsHexDigit(h[i]);
  }

  lemma WitnessIsPadded()
    ensures TrimSpace(" app") != " app"
  {
    var s := " app";
    assert IsSpace(s[0]);
    hide TrimLeft, TrimRight, IsSpace;
    TrimEnds(s, IsSpace);
  }

  /** Neither a prefix that ends in a hash nor one that is padded with a space finds what it generated. */
  lemma PrefixesThatFindNothing(nodes: seq<Node>, c: Construct, prefix: string, encoded: seq<bv8>)
    requires Added(nodes) && IsGenerated(c, prefix, encoded) && NodeOf(c) in nodes
    requires prefix == "app-deadbeef" || prefix == " app"
    ensures c !in Data(WithId(nodes, ExtractResource(prefix)))
  {
    WitnessIsHashed();
    WitnessIsPadded();
    hide TrimSpace, ExtractResource, ResourceID, ResourceLaws.TailHash, WithId;
    FoundByPrefixExactly(nodes, c, prefix, encoded);
  }

  // ---------------------------------------------------------------- the tree

  lemma {:induction false} FieldsOfNames(parts: seq<string>)
    requires "" !in parts
    ensures Fields(parts) == parts
  {
    if parts != [] {
      FieldsOfNames(parts[1..]);
    }
  }

  lemma {:induction false} FieldBeforeLast(names: seq<string>, current: string)
    requires current !in names
    ensures FieldBefore(names + [current], current) == if names == [] then "" else names[|names| - 1]
  {
    if |names| > 1 {
      assert (names + [current])[1..] == names[1..] + [current];
      FieldBeforeLast(names[1..], current);
    }
  }

  /** Where no ancestor has the identifier of the construct, its parent is the last
      ancestor, and it is a root when there is none. */
  lemma ParentIsLastAncestor(c: Construct, ancestors: seq<string>, id: string)
    requires c.id == Some(id) && c.path == Some(Join(ancestors + [id], '/'))
    requires id !in ancestors && forall n | n in ancestors + [id] :: n != "" && '/' !in n
    ensures ParentOf(c) == if ancestors == [] then "" else ExtractResource(ancestors[|ancestors| - 1])
  {
    SplitOfJoin(ancestors + [id], '/');
    FieldsOfNames(ancestors + [id]);
    FieldBeforeLast(ancestors, id);
    hide Split, Join, Fields, FieldBefore, ExtractResource;
    if ancestors != [] {
      assert ancestors[|ancestors| - 1] in ancestors + [id];
    }
  }
}
