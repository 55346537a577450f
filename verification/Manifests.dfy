/** Grouping of manifests into bundles that are applied together. */
module Manifests {

  datatype Manifest = Manifest(name: string, isLocal: bool)

  datatype Bundle = Bundle(root: string, manifests: seq<Manifest>, isLocal: bool)

  // ---------------------------------------------------------------- the specification

  /** A local bundle is one local manifest, a remote bundle at least one remote manifest. */
  ghost predicate WellShaped(b: Bundle) {
    if b.isLocal then |b.manifests| == 1 && b.manifests[0].isLocal
    else b.manifests != [] && forall m | m in b.manifests :: !m.isLocal
  }

  ghost function Flatten(bs: seq<Bundle>): seq<Manifest> {
    if bs == [] then [] else Flatten(bs[..|bs| - 1]) + bs[|bs| - 1].manifests
  }

  /** The bundles of one directory: together they are the manifests in order, and no two
      remote bundles stand side by side, so remote runs are maximal. */
  ghost predicate BundlesOf(root: string, ms: seq<Manifest>, bs: seq<Bundle>) {
    && Flatten(bs) == ms
    && (forall b | b in bs :: b.root == root && WellShaped(b))
    && forall i | 1 <= i < |bs| :: bs[i - 1].isLocal || bs[i].isLocal
  }

  /** Go's string order. */
  predicate Less(a: string, b: string) {
    b != "" && (a == "" || a[0] < b[0] || (a[0] == b[0] && Less(a[1..], b[1..])))
  }

  ghost predicate Increasing(dirs: seq<string>) {
    forall i, j | 0 <= i < j < |dirs| :: Less(dirs[i], dirs[j])
  }

  ghost function Concat(parts: seq<seq<Bundle>>): seq<Bundle> {
    if parts == [] then [] else Concat(parts[..|parts| - 1]) + parts[|parts| - 1]
  }

  /** The directories in increasing order, and the bundles of each in sequence. */
  ghost predicate Normalized(root: string, manifests: map<string, seq<Manifest>>,
                             dirs: seq<string>, parts: seq<seq<Bundle>>, bundles: seq<Bundle>) {
    && Increasing(dirs) && (forall d :: d in dirs <==> d in manifests)
    && |parts| == |dirs| && (forall i | 0 <= i < |dirs| :: BundlesOf(root, manifests[dirs[i]], parts[i]))
    && bundles == Concat(parts)
  }

  /** The bundles of a directory tree. */
  ghost predicate IsNormalized(root: string, manifests: map<string, seq<Manifest>>, bundles: seq<Bundle>) {
    exists dirs, parts :: Normalized(root, manifests, dirs, parts, bundles)
  }

  // ---------------------------------------------------------------- the algorithm

  /** Splits the manifests of every directory into bundles. */
  method NormalizeManifests(root: string, manifests: map<string, seq<Manifest>>)
    returns (bundles: seq<Bundle>)
    ensures IsNormalized(root, manifests, bundles)
  {
    hide BundlesOf, Increasing, Concat;
    var sorted := SortedKeys(manifests.Keys);
    ConcatNothing();
    ghost var dirs: seq<string>, parts: seq<seq<Bundle>> := sorted, [];
    bundles := [];
    for i := 0 to |sorted|
      invariant |parts| == i && bundles == Concat(parts)
      invariant forall j | 0 <= j < i :: BundlesOf(root, manifests[dirs[j]], parts[j])
    {
      assert sorted[i] in sorted;
      var part := BundleDirectory(root, manifests[sorted[i]]);
      ConcatGrows(parts, part);
      bundles := bundles + part;
      parts := parts + [part];
    }
    assert Normalized(root, manifests, dirs, parts, bundles);
  }

  /** The loop over the manifests of one directory. */
  method BundleDirectory(root: string, ms: seq<Manifest>) returns (bundles: seq<Bundle>)
    ensures BundlesOf(root, ms, bundles)
  {
    hide Flatten, BundlesOf;
    bundles := [];
    NoBundles(root);
    var current := Bundle(root, [], false);
    var isLocal := false;
    for i := 0 to |ms|
      invariant current.root == root && current.isLocal == isLocal
      invariant BundlesOf(root, Flatten(bundles), bundles) && Flatten(bundles) + current.manifests == ms[..i]
      invariant current.manifests == [] ==> bundles == [] && !isLocal
      invariant current.manifests != [] ==> WellShaped(current)
      invariant bundles != [] ==> bundles[|bundles| - 1].isLocal || isLocal
    {
      var m := ms[i];
      assert ms[..i + 1] == ms[..i] + [m];
      if isLocal != m.isLocal {
        if |current.manifests| > 0 {
          BundleAppended(root, bundles, current);
          bundles := bundles + [current];
        }
        current := Bundle(root, [], m.isLocal);
        isLocal := m.isLocal;
      }
      if !m.isLocal {
        current := current.(manifests := current.manifests + [m]);
      } else {
        if |current.manifests| > 0 {
          BundleAppended(root, bundles, current);
          bundles := bundles + [current];
        }
        current := current.(manifests := [m]);
      }
    }
    assert ms[..|ms|] == ms;
    if |current.manifests| > 0 {
      BundleAppended(root, bundles, current);
      bundles := bundles + [current];
    }
  }

  lemma ConcatNothing()
    ensures Concat([]) == []
  {
  }

  lemma ConcatGrows(parts: seq<seq<Bundle>>, part: seq<Bundle>)
    ensures Concat(parts + [part]) == Concat(parts) + part
  {
    assert (parts + [part])[..|parts|] == parts;
  }

  lemma NoBundles(root: string)
    ensures Flatten([]) == [] && BundlesOf(root, [], [])
  {
  }

  lemma BundleAppended(root: string, bs: seq<Bundle>, b: Bundle)
    requires BundlesOf(root, Flatten(bs), bs) && b.root == root && WellShaped(b)
    requires bs != [] ==> bs[|bs| - 1].isLocal || b.isLocal
    ensures Flatten(bs + [b]) == Flatten(bs) + b.manifests
    ensures BundlesOf(root, Flatten(bs + [b]), bs + [b])
  {
    assert (bs + [b])[..|bs|] == bs;
  }

  /** The keys in increasing order. */
  method SortedKeys(keys: set<string>) returns (dirs: seq<string>)
    ensures Increasing(dirs) && forall d :: d in dirs <==> d in keys
  {
    dirs := [];
    var rest := keys;
    while rest != {}
      invariant rest <= keys && Increasing(dirs) && forall d :: d in dirs <==> d in keys - rest
    {
      var k :| k in rest;
      rest := rest - {k};
      InsertKeepsOrder(dirs, k);
      dirs := Insert(dirs, k);
    }
  }

  function Insert(dirs: seq<string>, k: string): seq<string> {
    if dirs == [] || Less(k, dirs[0]) then [k] + dirs else [dirs[0]] + Insert(dirs[1..], k)
  }

  // ---------------------------------------------------------------- the order of directories

  /** Go's string order: a proper beginning comes first; otherwise the first difference decides. */
  lemma {:induction false} LessExactly(a: string, b: string)
    ensures Less(a, b) <==> (|a| < |b| && a <= b) || exists k :: DiffersFirstAt(a, b, k) && a[k] < b[k]
    decreases |a|
  {
    if a != "" && b != "" {
      if a[0] == b[0] {
        LessExactly(a[1..], b[1..]);
        assert a == [a[0]] + a[1..] && b == [b[0]] + b[1..];
        if k :| DiffersFirstAt(a[1..], b[1..], k) && a[1..][k] < b[1..][k] {
          DifferenceInTail(a, b, k + 1);
          assert a[k + 1] < b[k + 1];
        }
        if k :| DiffersFirstAt(a, b, k) && a[k] < b[k] {
          DifferenceInTail(a, b, k);
          assert a[1..][k - 1] < b[1..][k - 1];
        }
      } else {
        assert DiffersFirstAt(a, b, 0);
      }
    }
  }

  lemma DifferenceInTail(a: string, b: string, k: int)
    requires a != "" && b != "" && a[0] == b[0]
    ensures DiffersFirstAt(a, b, k) <==> DiffersFirstAt(a[1..], b[1..], k - 1)
  {
    if 1 <= k <= |a| && k <= |b| {
      assert a[..k] == [a[0]] + a[1..][..k - 1] && b[..k] == [b[0]] + b[1..][..k - 1];
    }
  }

  ghost predicate DiffersFirstAt(a: string, b: string, k: int) {
    0 <= k < |a| && k < |b| && a[..k] == b[..k] && a[k] != b[k]
  }

  lemma {:induction false} LessTransitive(a: string, b: string, c: string)
    requires Less(a, b) && Less(b, c)
    ensures Less(a, c)
  {
    if a != "" && a[0] == b[0] && b[0] == c[0] {
      LessTransitive(a[1..], b[1..], c[1..]);
    }
  }

  lemma {:induction false} LessTotal(a: string, b: string)
    ensures Less(a, b) || a == b || Less(b, a)
  {
    if a != "" && b != "" && a[0] == b[0] {
      LessTotal(a[1..], b[1..]);
      assert a == [a[0]] + a[1..] && b == [b[0]] + b[1..];
    }
  }

  lemma {:induction false} LessIrreflexive(a: string)
    ensures !Less(a, a)
  {
    if a != "" {
      LessIrreflexive(a[1..]);
    }
  }

  lemma {:induction false} InsertKeepsOrder(dirs: seq<string>, k: string)
    requires Increasing(dirs) && k !in dirs
    ensures Increasing(Insert(dirs, k)) && forall d :: d in Insert(dirs, k) <==> d in dirs || d == k
  {
    if dirs != [] {
      if Less(k, dirs[0]) {
        forall j | 0 <= j < |dirs| ensures Less(k, dirs[j]) {
          if j > 0 {
            LessTransitive(k, dirs[0], dirs[j]);
          }
        }
      } else {
        LessTotal(k, dirs[0]);
        assert forall j | 0 <= j < |dirs| - 1 :: dirs[1..][j] == dirs[j + 1];
        InsertKeepsOrder(dirs[1..], k);
        var rest := Insert(dirs[1..], k);
        forall j | 0 <= j < |rest| ensures Less(dirs[0], rest[j]) {
          assert rest[j] in rest;
          if rest[j] != k {
            var i :| 0 <= i < |dirs[1..]| && dirs[1..][i] == rest[j];
            assert dirs[1..][i] == dirs[i + 1];
          }
        }
        assert forall d :: d in dirs <==> d == dirs[0] || d in dirs[1..];
      }
    }
  }

  // ---------------------------------------------------------------- the specification determines the result

  lemma {:induction false} FlattenFront(b: Bundle, bs: seq<Bundle>)
    ensures Flatten([b] + bs) == b.manifests + Flatten(bs)
  {
    if bs != [] {
      assert ([b] + bs)[..|bs|] == [b] + bs[..|bs| - 1];
      FlattenFront(b, bs[..|bs| - 1]);
    }
  }

  /** Without its first bundle, a list of bundles is a list of bundles of what remains. */
  lemma DropFirstBundle(root: string, ms: seq<Manifest>, bs: seq<Bundle>)
    requires BundlesOf(root, ms, bs) && bs != []
    ensures |bs[0].manifests| <= |ms| && bs[0].manifests == ms[..|bs[0].manifests|]
    ensures BundlesOf(root, ms[|bs[0].manifests|..], bs[1..]) && bs[0].manifests != []
  {
    FlattenFront(bs[0], bs[1..]);
    assert bs == [bs[0]] + bs[1..];
    assert bs[0] in bs;
    forall i | 1 <= i < |bs[1..]| ensures bs[1..][i - 1].isLocal || bs[1..][i].isLocal {
      assert bs[i].isLocal || bs[i + 1].isLocal;
    }
  }

  /** After a first remote bundle, the next manifest, if any, is local. */
  lemma RemoteRunEnds(root: string, ms: seq<Manifest>, bs: seq<Bundle>)
    requires BundlesOf(root, ms, bs) && bs != [] && !bs[0].isLocal && |bs[0].manifests| < |ms|
    ensures ms[|bs[0].manifests|].isLocal
  {
    DropFirstBundle(root, ms, bs);
    var rest := ms[|bs[0].manifests|..];
    assert bs[1..] != [];
    DropFirstBundle(root, rest, bs[1..]);
    assert bs[1] in bs && (bs[0].isLocal || bs[1].isLocal);
    assert rest[0] == bs[1].manifests[0];
  }

  lemma FirstBundlesAgree(root: string, ms: seq<Manifest>, a: seq<Bundle>, b: seq<Bundle>)
    requires BundlesOf(root, ms, a) && BundlesOf(root, ms, b) && a != [] && b != []
    ensures a[0] == b[0]
  {
    DropFirstBundle(root, ms, a);
    DropFirstBundle(root, ms, b);
    assert a[0] in a && b[0] in b;
    assert a[0].manifests[0] == ms[0] == b[0].manifests[0];
    assert a[0].manifests[0] in a[0].manifests && b[0].manifests[0] in b[0].manifests;
    var k, l := |a[0].manifests|, |b[0].manifests|;
    assert forall j | 0 <= j < k :: a[0].manifests[j] in a[0].manifests;
    assert forall j | 0 <= j < l :: b[0].manifests[j] in b[0].manifests;
    if !a[0].isLocal {
      if k < l {
        RemoteRunEnds(root, ms, a);
      }
      if l < k {
        RemoteRunEnds(root, ms, b);
      }
    }
  }

  /** There is exactly one way to bundle a directory. */
  lemma {:induction false} BundlesAreUnique(root: string, ms: seq<Manifest>, a: seq<Bundle>, b: seq<Bundle>)
    requires BundlesOf(root, ms, a) && BundlesOf(root, ms, b)
    ensures a == b
    decreases |ms|
  {
    if a == [] || b == [] {
      if a != [] { DropFirstBundle(root, ms, a); }
      if b != [] { DropFirstBundle(root, ms, b); }
    } else {
      FirstBundlesAgree(root, ms, a, b);
      DropFirstBundle(root, ms, a);
      DropFirstBundle(root, ms, b);
      BundlesAreUnique(root, ms[|a[0].manifests|..], a[1..], b[1..]);
      assert a == [a[0]] + a[1..] && b == [b[0]] + b[1..];
    }
  }

  lemma {:induction false} IncreasingIsUnique(a: seq<string>, b: seq<string>)
    requires Increasing(a) && Increasing(b) && forall d :: d in a <==> d in b
    ensures a == b
    decreases |a|
  {
    assert (a != [] ==> a[0] in a) && (b != [] ==> b[0] in b);
    if a != [] && b != [] {
      SmallestFirst(a, b);
      SmallestFirst(b, a);
      LessIrreflexive(a[0]);
      if a[0] != b[0] {
        LessTransitive(a[0], b[0], a[0]);
      }
      forall d ensures d in a[1..] <==> d in b[1..] {
        RestIsBigger(a, d);
        RestIsBigger(b, d);
      }
      IncreasingIsUnique(a[1..], b[1..]);
      assert a == [a[0]] + a[1..] && b == [b[0]] + b[1..];
    }
  }

  lemma SmallestFirst(a: seq<string>, b: seq<string>)
    requires Increasing(a) && a != [] && b != [] && b[0] in a
    ensures a[0] == b[0] || Less(a[0], b[0])
  {
    var i :| 0 <= i < |a| && a[i] == b[0];
  }

  lemma RestIsBigger(a: seq<string>, d: string)
    requires Increasing(a) && a != []
    ensures d in a[1..] <==> d in a && d != a[0]
  {
    if d in a[1..] {
      var i :| 0 <= i < |a| - 1 && a[1..][i] == d;
      assert a[i + 1] == d;
      LessIrreflexive(d);
    }
    if d in a && d != a[0] {
      var i :| 0 <= i < |a| && a[i] == d;
      assert a[1..][i - 1] == d;
    }
  }

  lemma {:induction false} PartsAreUnique(root: string, manifests: map<string, seq<Manifest>>, dirs: seq<string>,
                                          a: seq<seq<Bundle>>, b: seq<seq<Bundle>>)
    requires |a| == |dirs| == |b| && forall i | 0 <= i < |dirs| :: dirs[i] in manifests
    requires forall i | 0 <= i < |dirs| :: BundlesOf(root, manifests[dirs[i]], a[i])
    requires forall i | 0 <= i < |dirs| :: BundlesOf(root, manifests[dirs[i]], b[i])
    ensures a == b
  {
    forall i | 0 <= i < |dirs| ensures a[i] == b[i] {
      BundlesAreUnique(root, manifests[dirs[i]], a[i], b[i]);
    }
  }

  lemma SplitIsUnique(root: string, manifests: map<string, seq<Manifest>>,
                      dirs: seq<string>, parts: seq<seq<Bundle>>, bundles: seq<Bundle>,
                      dirs': seq<string>, parts': seq<seq<Bundle>>, bundles': seq<Bundle>)
    requires Normalized(root, manifests, dirs, parts, bundles) && Normalized(root, manifests, dirs', parts', bundles')
    ensures dirs == dirs' && bundles == bundles'
  {
    IncreasingIsUnique(dirs, dirs');
    forall i | 0 <= i < |dirs| ensures dirs[i] in manifests {
      assert dirs[i] in dirs;
    }
    PartsAreUnique(root, manifests, dirs, parts, parts');
  }

  /** The directory listing determines the bundles: the arbitrary order in which map keys
      are collected does not show. */
  lemma NormalizationIsUnique(root: string, manifests: map<string, seq<Manifest>>, bundles: seq<Bundle>,
                              bundles': seq<Bundle>)
    requires IsNormalized(root, manifests, bundles) && IsNormalized(root, manifests, bundles')
    ensures bundles == bundles'
  {
    hide Normalized;
    var dirs, parts :| Normalized(root, manifests, dirs, parts, bundles);
    var dirs', parts' :| Normalized(root, manifests, dirs', parts', bundles');
    SplitIsUnique(root, manifests, dirs, parts, bundles, dirs', parts', bundles');
  }

  // ---------------------------------------------------------------- conservation

  ghost function ListAll(manifests: map<string, seq<Manifest>>, dirs: seq<string>): seq<Manifest>
    requires forall d | d in dirs :: d in manifests
  {
    if dirs == [] then []
    else
      var d := dirs[|dirs| - 1];
      ListAll(manifests, dirs[..|dirs| - 1]) + manifests[d]
  }

  lemma {:induction false} FlattenConcat(a: seq<Bundle>, b: seq<Bundle>)
    ensures Flatten(a + b) == Flatten(a) + Flatten(b)
  {
    if b == [] {
      assert a + b == a;
    } else {
      assert (a + b)[..|a + b| - 1] == a + b[..|b| - 1];
      FlattenConcat(a, b[..|b| - 1]);
    }
  }

  lemma {:induction false} PartsHoldAll(root: string, manifests: map<string, seq<Manifest>>,
                                        dirs: seq<string>, parts: seq<seq<Bundle>>)
    requires |parts| == |dirs| && forall d | d in dirs :: d in manifests
    requires forall i | 0 <= i < |dirs| :: dirs[i] in manifests && BundlesOf(root, manifests[dirs[i]], parts[i])
    ensures Flatten(Concat(parts)) == ListAll(manifests, dirs)
    ensures forall b | b in Concat(parts) :: b.root == root && WellShaped(b)
  {
    if parts != [] {
      PartsHoldAll(root, manifests, dirs[..|dirs| - 1], parts[..|parts| - 1]);
      FlattenConcat(Concat(parts[..|parts| - 1]), parts[|parts| - 1]);
    }
  }

  /** No manifest is lost, repeated or moved: the bundles together are the manifests of each
      directory in increasing order of directories, and every bundle is well shaped. */
  lemma NothingIsLost(root: string, manifests: map<string, seq<Manifest>>, dirs: seq<string>, bundles: seq<Bundle>)
    requires IsNormalized(root, manifests, bundles)
    requires Increasing(dirs) && forall d :: d in dirs <==> d in manifests
    ensures Flatten(bundles) == ListAll(manifests, dirs)
    ensures forall b | b in bundles :: b.root == root && WellShaped(b)
  {
    hide BundlesOf, Increasing, ListAll;
    var dirs', parts :| Normalized(root, manifests, dirs', parts, bundles);
    IncreasingIsUnique(dirs, dirs');
    forall i | 0 <= i < |dirs| ensures dirs[i] in manifests {
      assert dirs[i] in dirs;
    }
    PartsHoldAll(root, manifests, dirs, parts);
  }
}
