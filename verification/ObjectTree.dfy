/** Objects that list their children, and the order in which a depth-first traversal returns
    from them. An object without an entry is taken to have no children. */
module ObjectTree {
  import opened Options

  ghost function ChildrenOf<T>(kids: map<T, seq<T>>, p: T): seq<T> {
    if p in kids then kids[p] else []
  }

  /** The object at a position below p, given by the indices of children on the way there. */
  ghost function At<T>(kids: map<T, seq<T>>, p: T, path: seq<nat>): Option<T> {
    if path == [] then Some(p)
    else if path[0] < |ChildrenOf(kids, p)| then At(kids, ChildrenOf(kids, p)[path[0]], path[1..])
    else None
  }

  /** Following children leads from p to q. */
  ghost predicate Leads<T>(kids: map<T, seq<T>>, p: T, q: T) {
    exists path: seq<nat> :: At(kids, p, path) == Some(q)
  }

  /** A traversal from p that has returned from the objects of `before` goes on to return from those
      of s, in this order: from p after its children, in the order in which they are listed, unless it
      has returned from p before. */
  ghost predicate Postorder<T>(kids: map<T, seq<T>>, before: seq<T>, p: T, s: seq<T>)
    decreases |s|, 0
  {
    && s != [] && s[|s| - 1] == p
    && if p in before then |s| == 1 else PostorderAll(kids, before, ChildrenOf(kids, p), s[..|s| - 1])
  }

  /** The same for several objects, one after the other. */
  ghost predicate PostorderAll<T>(kids: map<T, seq<T>>, before: seq<T>, ps: seq<T>, s: seq<T>)
    decreases |s|, |ps|
  {
    if ps == [] then s == [] else exists k: nat :: PostorderSplits(kids, before, ps, s, k)
  }

  ghost predicate PostorderSplits<T>(kids: map<T, seq<T>>, before: seq<T>, ps: seq<T>, s: seq<T>, k: nat)
    requires ps != []
    decreases |s|, |ps|, 0
  {
    && k <= |s| && PostorderAll(kids, before, ps[..|ps| - 1], s[..k])
    && Postorder(kids, before + s[..k], ps[|ps| - 1], s[k..])
  }

  lemma OneMoreReturned<T>(kids: map<T, seq<T>>, before: seq<T>, ps: seq<T>, s: seq<T>, p: T, s': seq<T>)
    requires PostorderAll(kids, before, ps, s) && Postorder(kids, before + s, p, s')
    ensures PostorderAll(kids, before, ps + [p], s + s')
  {
    hide Postorder;
    assert (ps + [p])[..|ps|] == ps;
    assert (s + s')[..|s|] == s && (s + s')[|s|..] == s';
    assert PostorderSplits(kids, before, ps + [p], s + s', |s|);
  }

  /** Only the children of the objects of s matter. */
  lemma {:induction false} PostorderStays<T>(kids: map<T, seq<T>>, kids': map<T, seq<T>>, before: seq<T>, p: T,
                                             s: seq<T>)
    requires Postorder(kids, before, p, s) && forall q | q in s :: ChildrenOf(kids, q) == ChildrenOf(kids', q)
    ensures Postorder(kids', before, p, s)
    decreases |s|, 0
  {
    if p !in before {
      PostorderAllStays(kids, kids', before, ChildrenOf(kids, p), s[..|s| - 1]);
    }
  }

  lemma {:induction false} PostorderAllStays<T>(kids: map<T, seq<T>>, kids': map<T, seq<T>>, before: seq<T>,
                                                ps: seq<T>, s: seq<T>)
    requires PostorderAll(kids, before, ps, s) && forall q | q in s :: ChildrenOf(kids, q) == ChildrenOf(kids', q)
    ensures PostorderAll(kids', before, ps, s)
    decreases |s|, |ps|
  {
    if ps != [] {
      var k: nat :| PostorderSplits(kids, before, ps, s, k);
      PostorderAllStays(kids, kids', before, ps[..|ps| - 1], s[..k]);
      PostorderStays(kids, kids', before + s[..k], ps[|ps| - 1], s[k..]);
      assert PostorderSplits(kids', before, ps, s, k);
    }
  }

  /** Children of returned objects have been returned. */
  ghost predicate Closed<T>(kids: map<T, seq<T>>, s: seq<T>) {
    forall q, c | q in s && c in ChildrenOf(kids, q) :: c in s
  }

  lemma {:induction false} StaysClosed<T>(kids: map<T, seq<T>>, before: seq<T>, p: T, s: seq<T>)
    requires Postorder(kids, before, p, s) && Closed(kids, before)
    ensures Closed(kids, before + s)
    decreases |s|, 0
  {
    if p !in before {
      var front := s[..|s| - 1];
      StaysClosedAll(kids, before, ChildrenOf(kids, p), front);
      assert before + s == (before + front) + [p];
    } else {
      assert s == [p];
    }
  }

  lemma {:induction false} StaysClosedAll<T>(kids: map<T, seq<T>>, before: seq<T>, ps: seq<T>, s: seq<T>)
    requires PostorderAll(kids, before, ps, s) && Closed(kids, before)
    ensures Closed(kids, before + s) && forall p | p in ps :: p in s
    decreases |s|, |ps|
  {
    if ps == [] {
      assert before + s == before;
    } else {
      var k: nat :| PostorderSplits(kids, before, ps, s, k);
      StaysClosedAll(kids, before, ps[..|ps| - 1], s[..k]);
      StaysClosed(kids, before + s[..k], ps[|ps| - 1], s[k..]);
      assert before + s == (before + s[..k]) + s[k..];
      assert s == s[..k] + s[k..] && s[|s| - 1] == ps[|ps| - 1];
      assert ps == ps[..|ps| - 1] + [ps[|ps| - 1]];
    }
  }

  lemma {:induction false} LedIsReturned<T>(kids: map<T, seq<T>>, p: T, s: seq<T>, path: seq<nat>)
    requires Closed(kids, s) && p in s && At(kids, p, path).Some?
    ensures At(kids, p, path).value in s
    decreases |path|
  {
    if path != [] {
      LedIsReturned(kids, ChildrenOf(kids, p)[path[0]], s, path[1..]);
    }
  }

  lemma {:induction false} ReturnedIsLed<T>(kids: map<T, seq<T>>, before: seq<T>, p: T, s: seq<T>, q: T)
    requires Postorder(kids, before, p, s) && q in s
    ensures Leads(kids, p, q)
    decreases |s|, 0
  {
    if q == p {
      assert At(kids, p, []) == Some(q);
    } else {
      var i := ReturnedIsLedByOne(kids, before, ChildrenOf(kids, p), s[..|s| - 1], q);
      var c := ChildrenOf(kids, p)[i];
      var path: seq<nat> :| At(kids, c, path) == Some(q);
      assert ([i] + path)[1..] == path;
      assert At(kids, p, [i] + path) == Some(q);
    }
  }

  lemma {:induction false} ReturnedIsLedByOne<T>(kids: map<T, seq<T>>, before: seq<T>, ps: seq<T>, s: seq<T>, q: T)
    returns (i: nat)
    requires PostorderAll(kids, before, ps, s) && q in s
    ensures i < |ps| && Leads(kids, ps[i], q)
    decreases |s|, |ps|
  {
    var k: nat :| PostorderSplits(kids, before, ps, s, k);
    assert s == s[..k] + s[k..];
    if q in s[..k] {
      i := ReturnedIsLedByOne(kids, before, ps[..|ps| - 1], s[..k], q);
    } else {
      i := |ps| - 1;
      ReturnedIsLed(kids, before + s[..k], ps[i], s[k..], q);
    }
  }

  /** A traversal returns exactly from the objects to which following children leads. */
  lemma ReturnedExactly<T>(kids: map<T, seq<T>>, p: T, s: seq<T>)
    requires Postorder(kids, [], p, s)
    ensures forall q :: q in s <==> Leads(kids, p, q)
  {
    StaysClosed(kids, [], p, s);
    assert [] + s == s;
    hide Postorder, Closed;
    forall q ensures q in s <==> Leads(kids, p, q) {
      if q in s {
        ReturnedIsLed(kids, [], p, s, q);
      }
      if Leads(kids, p, q) {
        var path: seq<nat> :| At(kids, p, path) == Some(q);
        LedIsReturned(kids, p, s, path);
      }
    }
  }

  /** There is one such order. */
  lemma {:induction false} PostorderIsUnique<T>(kids: map<T, seq<T>>, before: seq<T>, p: T, s: seq<T>, s': seq<T>)
    requires Postorder(kids, before, p, s) && Postorder(kids, before, p, s')
    ensures s == s'
    decreases |s|, 0
  {
    hide PostorderAll, ChildrenOf;
    if p in before {
      assert s == [p] && s' == [p];
    } else {
      PostorderAllIsUnique(kids, before, ChildrenOf(kids, p), s[..|s| - 1], s'[..|s'| - 1]);
      assert s == s[..|s| - 1] + [p] && s' == s'[..|s'| - 1] + [p];
    }
  }

  lemma {:induction false} PostorderAllIsUnique<T>(kids: map<T, seq<T>>, before: seq<T>, ps: seq<T>, s: seq<T>,
                                                   s': seq<T>)
    requires PostorderAll(kids, before, ps, s) && PostorderAll(kids, before, ps, s')
    ensures s == s'
    decreases |s|, |ps|
  {
    if ps != [] {
      var k: nat :| PostorderSplits(kids, before, ps, s, k);
      var k': nat :| PostorderSplits(kids, before, ps, s', k');
      PostorderAllIsUnique(kids, before, ps[..|ps| - 1], s[..k], s'[..k']);
      PostorderIsUnique(kids, before + s[..k], ps[|ps| - 1], s[k..], s'[k'..]);
      assert s == s[..k] + s[k..] && s' == s'[..k'] + s'[k'..];
    }
  }
}
