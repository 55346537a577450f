/** Directed graphs over names, as the composite scheduler and the plan resolver
    both see them: a name is mapped to the ordered list of names it depends on. */
module Graph {

  type Edges = map<string, seq<string>>

  /** A Go map read: a missing key yields the empty list. */
  function Deps(edges: Edges, n: string): seq<string> {
    if n in edges then edges[n] else []
  }

  ghost predicate Distinct<T>(s: seq<T>) {
    forall i, j | 0 <= i < j < |s| :: s[i] != s[j]
  }

  ghost predicate IsPath(edges: Edges, p: seq<string>) {
    && p != []
    && forall i | 0 <= i < |p| - 1 :: p[i + 1] in Deps(edges, p[i])
  }

  ghost predicate PathFromTo(edges: Edges, p: seq<string>, a: string, b: string) {
    IsPath(edges, p) && p[0] == a && p[|p| - 1] == b
  }

  ghost predicate Reaches(edges: Edges, a: string, b: string) {
    exists p :: PathFromTo(edges, p, a, b)
  }

  /** A path of at least one edge from n back to n. */
  ghost predicate OnCycle(edges: Edges, n: string) {
    exists p :: PathFromTo(edges, p, n, n) && |p| >= 2
  }

  ghost predicate ReachesCycle(edges: Edges, n: string) {
    exists c :: Reaches(edges, n, c) && OnCycle(edges, c)
  }

  /** Duplicate-free, and every dependency of a name stands before it. */
  ghost predicate Topological(edges: Edges, order: seq<string>) {
    && Distinct(order)
    && forall i, d | 0 <= i < |order| && d in Deps(edges, order[i]) :: d in order[..i]
  }

  ghost function Elements<T>(s: seq<T>): set<T> {
    set x | x in s
  }

  // ---------------------------------------------------------------- reachability

  lemma ReachesSelf(edges: Edges, a: string)
    ensures Reaches(edges, a, a)
  {
    assert PathFromTo(edges, [a], a, a);
  }

  lemma PathsJoin(edges: Edges, p: seq<string>, q: seq<string>, a: string, b: string, c: string)
    requires PathFromTo(edges, p, a, b) && PathFromTo(edges, q, b, c)
    ensures PathFromTo(edges, p + q[1..], a, c)
  {
  }

  lemma ReachesTransitive(edges: Edges, a: string, b: string, c: string)
    requires Reaches(edges, a, b) && Reaches(edges, b, c)
    ensures Reaches(edges, a, c)
  {
    var p :| PathFromTo(edges, p, a, b);
    var q :| PathFromTo(edges, q, b, c);
    PathsJoin(edges, p, q, a, b, c);
  }

  lemma EdgeReaches(edges: Edges, a: string, b: string)
    requires b in Deps(edges, a)
    ensures Reaches(edges, a, b)
  {
    assert PathFromTo(edges, [a, b], a, b);
  }

  lemma PathGrows(edges: Edges, stack: seq<string>, n: string)
    requires stack != [] ==> IsPath(edges, stack) && n in Deps(edges, stack[|stack| - 1])
    ensures IsPath(edges, stack + [n])
  {
  }

  /** An edge from the end of a path back into the path closes a cycle. */
  lemma BackEdgeClosesCycle(edges: Edges, stack: seq<string>, n: string)
    requires IsPath(edges, stack) && n in stack && n in Deps(edges, stack[|stack| - 1])
    ensures OnCycle(edges, n)
  {
    var i :| 0 <= i < |stack| && stack[i] == n;
    var back := stack[i..];
    assert IsPath(edges, back);
    PathGrows(edges, back, n);
    hide IsPath;
    assert PathFromTo(edges, back + [n], n, n);
  }

  // ---------------------------------------------------------------- topological orders

  /** Walking along edges from position i of a topological order moves strictly towards its front. */
  lemma {:induction false} PathDescends(edges: Edges, order: seq<string>, p: seq<string>, i: nat) returns (j: nat)
    requires Topological(edges, order) && i < |order|
    requires IsPath(edges, p) && p[0] == order[i]
    ensures j + |p| - 1 <= i && order[j] == p[|p| - 1]
    decreases |p|
  {
    if |p| == 1 {
      j := i;
    } else {
      assert p[1] in Deps(edges, p[0]);
      var k :| 0 <= k < i && order[k] == p[1];
      j := PathDescends(edges, order, p[1..], k);
    }
  }

  /** Whatever a member of a topological order reaches stands at or before it. */
  lemma ReachedStandsBefore(edges: Edges, order: seq<string>, i: nat, b: string)
    requires Topological(edges, order) && i < |order| && Reaches(edges, order[i], b)
    ensures b in order[..i + 1]
  {
    var p :| PathFromTo(edges, p, order[i], b);
    var j := PathDescends(edges, order, p, i);
  }

  /** No member of a topological order lies on a cycle or leads to one. */
  lemma TopologicalAvoidsCycles(edges: Edges, order: seq<string>, n: string)
    requires Topological(edges, order) && n in order
    ensures !ReachesCycle(edges, n)
  {
    if ReachesCycle(edges, n) {
      var c :| Reaches(edges, n, c) && OnCycle(edges, c);
      var i :| 0 <= i < |order| && order[i] == n;
      ReachedStandsBefore(edges, order, i, c);
      var k :| 0 <= k < |order| && order[k] == c;
      var p :| PathFromTo(edges, p, c, c) && |p| >= 2;
      var j := PathDescends(edges, order, p, k);
      assert false;
    }
  }

  /** The graph in which some names have lost their dependencies. */
  ghost function Without(edges: Edges, names: set<string>): Edges {
    map n | n in edges :: if n in names then [] else edges[n]
  }

  lemma TopologicalWithout(edges: Edges, names: set<string>, more: set<string>, order: seq<string>)
    requires Topological(Without(edges, names), order) && names <= more
    ensures Topological(Without(edges, more), order)
  {
    forall i, d | 0 <= i < |order| && d in Deps(Without(edges, more), order[i]) ensures d in order[..i] {
      assert d in Deps(Without(edges, names), order[i]);
    }
  }

  lemma CycleBelow(edges: Edges, n: string) returns (d: string)
    requires ReachesCycle(edges, n)
    ensures d in Deps(edges, n) && ReachesCycle(edges, d)
  {
    var c :| Reaches(edges, n, c) && OnCycle(edges, c);
    var p :| PathFromTo(edges, p, n, c);
    if |p| == 1 {
      p :| PathFromTo(edges, p, c, c) && |p| >= 2;
    }
    d := p[1];
    assert PathFromTo(edges, p[1..], d, c);
    assert Reaches(edges, d, c);
  }

  /** No member of an order that is topological but for some names, none of which reaches a
      cycle, reaches one. */
  lemma ClosedAvoidsCycles(edges: Edges, names: set<string>, order: seq<string>)
    requires Topological(Without(edges, names), order)
    requires forall n | n in names :: !ReachesCycle(edges, n)
    ensures forall n | n in order :: !ReachesCycle(edges, n)
  {
    hide ReachesCycle;
    if i: nat :| i < |order| && ReachesCycle(edges, order[i]) {
      FirstAvoidsCycles(edges, names, order, i);
    }
  }

  lemma {:induction false} FirstAvoidsCycles(edges: Edges, names: set<string>, order: seq<string>, i: nat)
    requires Topological(Without(edges, names), order) && i < |order|
    requires forall n | n in names :: !ReachesCycle(edges, n)
    ensures !ReachesCycle(edges, order[i])
  {
    hide ReachesCycle;
    if ReachesCycle(edges, order[i]) {
      var d := CycleBelow(edges, order[i]);
      assert d in Deps(Without(edges, names), order[i]);
      var k :| 0 <= k < i && order[k] == d;
      FirstAvoidsCycles(edges, names, order, k);
    }
  }

  lemma TopologicalExtend(edges: Edges, order: seq<string>, n: string)
    requires Topological(edges, order) && n !in order
    requires forall d | d in Deps(edges, n) :: d in order
    ensures Topological(edges, order + [n])
  {
    var longer := order + [n];
    forall i, d | 0 <= i < |longer| && d in Deps(edges, longer[i]) ensures d in longer[..i] {
      if i < |order| {
        assert longer[..i] == order[..i];
      } else {
        assert longer[..i] == order;
      }
    }
  }
}
