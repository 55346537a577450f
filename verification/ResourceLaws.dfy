/** What ToRFC1123, ResourceID and ExtractResource guarantee for every input. */
module ResourceLaws {
  import opened Text
  import opened Resources

  // ---------------------------------------------------------------- cleaned names

  ghost predicate LabelChars(s: string) {
    forall c | c in s :: IsLabelChar(c)
  }

  /** What cleaning leaves of a string with at least one letter or digit. */
  ghost predicate CleanName(c: string) {
    c != "" && LabelChars(c) && IsAlphanumeric(c[0]) && IsAlphanumeric(c[|c| - 1]) && !HasPair(c)
  }

  lemma {:induction false} CollapseEnds(s: string)
    ensures |Collapse(s)| <= |s| && (s != "" ==> Collapse(s) != "")
    ensures s != "" ==> Collapse(s)[0] == s[0] && Collapse(s)[|Collapse(s)| - 1] == s[|s| - 1]
  {
    if |s| >= 2 {
      CollapseEnds(s[1..]);
    }
  }

  lemma {:induction false} CollapseElements(s: string, c: char)
    ensures c in Collapse(s) <==> c in s
  {
    if |s| >= 2 {
      CollapseElements(s[1..], c);
      assert s == [s[0]] + s[1..];
    }
  }

  lemma {:induction false} CollapsePairs(s: string)
    ensures !HasPair(Collapse(s))
    ensures HasPair(s) ==> |Collapse(s)| < |s|
  {
    if |s| >= 2 {
      CollapseEnds(s[1..]);
      CollapsePairs(s[1..]);
      if !(s[0] == '-' && s[1] == '-') {
        PairInTail(s);
        NoPairAppend([s[0]], Collapse(s[1..]));
      }
    }
  }

  lemma PairInTail(s: string)
    requires |s| >= 2 && !(s[0] == '-' && s[1] == '-')
    ensures HasPair(s) ==> HasPair(s[1..])
  {
    if HasPair(s) {
      var i :| 0 <= i < |s| - 1 && s[i] == '-' && s[i + 1] == '-';
      assert s[1..][i - 1] == '-' && s[1..][i] == '-';
    }
  }

  lemma CollapseShape(s: string)
    ensures |Collapse(s)| <= |s| && (s != "" ==> Collapse(s) != "")
    ensures s != "" ==> Collapse(s)[0] == s[0] && Collapse(s)[|Collapse(s)| - 1] == s[|s| - 1]
    ensures forall c :: c in Collapse(s) <==> c in s
    ensures !HasPair(Collapse(s))
    ensures HasPair(s) ==> |Collapse(s)| < |s|
  {
    hide Collapse, HasPair;
    CollapseEnds(s);
    CollapsePairs(s);
    forall c ensures c in Collapse(s) <==> c in s {
      CollapseElements(s, c);
    }
  }

  lemma CleanShape(t: string)
    ensures Clean(t) == "" || CleanName(Clean(t))
  {
    hide Collapse, Trim, CleanChars, HasPair;
    var s := Trim(CleanChars(t), IsHyphen);
    TrimEnds(CleanChars(t), IsHyphen);
    CollapseShape(s);
    forall i | 0 <= i < |t| ensures IsLabelChar(CleanChars(t)[i]) {
    }
    assert forall c | c in CleanChars(t) :: IsLabelChar(c);
    if s != "" {
      assert s[0] in s && s[|s| - 1] in s;
    }
  }

  // ---------------------------------------------------------------- stems

  /** c ends in a hyphen and eight lowercase hexadecimal digits. */
  ghost predicate TailHash(c: string) {
    |c| >= 9 && c[|c| - 9] == '-' && IsHashHex(c[|c| - 8..])
  }

  lemma HexHasNoHyphen(h: string)
    requires IsHashHex(h)
    ensures '-' !in h
  {
  }

  lemma TailHashSplits(c: string)
    requires TailHash(c)
    ensures c == c[..|c| - 9] + "-" + c[|c| - 8..] && '-' !in c[|c| - 8..]
  {
    HexHasNoHyphen(c[|c| - 8..]);
  }

  lemma HashedHasTail(name: string, h: string)
    requires IsHashHex(h)
    ensures var id := name + "-" + h; TailHash(id) && id[..|id| - 9] == name && id[|id| - 8..] == h
  {
    var id := name + "-" + h;
    assert id[|id| - 8..] == h;
  }

  /** The last part is a hash exactly when the name ends in a hyphen and a hash. */
  lemma LastPart(c: string)
    requires '-' in c
    ensures var parts := Split(c, '-');
            && |parts| > 1 && c == Join(parts[..|parts| - 1], '-') + "-" + parts[|parts| - 1]
            && (IsHashHex(parts[|parts| - 1]) <==> TailHash(c))
            && (TailHash(c) ==> parts[|parts| - 1] == c[|c| - 8..] && Join(parts[..|parts| - 1], '-') == c[..|c| - 9])
  {
    CutAtLastSeparator(c, '-');
    var parts := Split(c, '-');
    var front, last := Join(parts[..|parts| - 1], '-'), parts[|parts| - 1];
    assert TailHash(c) ==> IsHashHex(c[|c| - 8..]) && |c| >= 9;
    hide *;
    if TailHash(c) {
      TailHashSplits(c);
      LastHyphenIsUnique(front, last, c[..|c| - 9], c[|c| - 8..]);
    }
    if IsHashHex(last) {
      HashedHasTail(front, last);
    }
  }

  lemma LastHyphenIsUnique(a: string, b: string, a': string, b': string)
    requires a + "-" + b == a' + "-" + b' && '-' !in b && '-' !in b'
    ensures a == a' && b == b'
  {
    var s := a + "-" + b;
    assert s[|a|] == '-' && s[|a'|] == '-';
    assert forall i | |a| < i < |s| :: s[i] == b[i - |a| - 1];
    assert forall i | |a'| < i < |s| :: s[i] == b'[i - |a'| - 1];
    assert |a| == |a'|;
    assert a == s[..|a|] == a' && b == s[|a| + 1..] == b';
  }

  lemma TrimOneHyphen(q: string)
    requires q != "" && q[0] != '-' && q[|q| - 1] != '-'
    ensures Trim(q + "-", IsHyphen) == q
  {
    hide TrimLeft, TrimRight;
    var s := q + "-";
    var l := TrimLeft(s, IsHyphen);
    assert s[0] == q[0] && s[|q| - 1] == q[|q| - 1];
    assert l == s;
    var r := TrimRight(s, IsHyphen);
    assert |r| == |q|;
    assert s[..|q|] == q;
  }

  /** Mending a prefix gives a name that starts with a letter and ends as the prefix did. */
  lemma StartShape(prefix: string)
    requires prefix != "" && LabelChars(prefix) && IsAlphanumeric(prefix[|prefix| - 1])
    ensures var q := StartWithLetter(prefix);
            q != "" && LabelChars(q) && IsLetter(q[0]) && IsAlphanumeric(q[|q| - 1])
    ensures IsLetter(prefix[0]) ==> StartWithLetter(prefix) == prefix
  {
    var k := FirstLetter(prefix);
    if k < |prefix| {
      assert prefix[k..][0] == prefix[k];
    } else {
      var h := FnvHash(Bytes(prefix));
      var q := UNKNOWN + "-" + h;
      assert q[|q| - 1] == h[|h| - 1] && h[|h| - 1] in h;
    }
  }

  lemma PlainStem(q: string)
    requires q != "" && LabelChars(q) && IsAlphanumeric(q[|q| - 1])
    ensures Trim(StartWithLetter(q) + "-", IsHyphen) == StartWithLetter(q)
  {
    StartShape(q);
    hide StartWithLetter, Trim;
    TrimOneHyphen(StartWithLetter(q));
  }

  lemma StemUnfolds(c: string)
    requires |Split(c, '-')| > 1
    ensures var parts := Split(c, '-');
            var front, last := Join(parts[..|parts| - 1], '-'), parts[|parts| - 1];
            Stem(c) == if IsHashHex(last) then Trim(StartWithLetter(front) + "-" + last, IsHyphen)
                       else Trim(StartWithLetter(front + "-" + last) + "-", IsHyphen)
  {
    hide Split, Join, StartWithLetter, Trim, IsHashHex;
  }

  lemma HashedFront(c: string)
    requires CleanName(c) && TailHash(c)
    ensures |c| > 9 && IsHashHex(c[|c| - 8..]) && c == c[..|c| - 9] + "-" + c[|c| - 8..]
    ensures var front := c[..|c| - 9];
            front != "" && LabelChars(front) && IsAlphanumeric(front[|front| - 1]) && front[0] == c[0]
  {
    hide IsHashHex;
    assert c[0] != '-';
    var n := |c| - 10;
    assert c[n + 1] == '-';
    assert c[n] != '-';
    assert c[n] in c;
  }

  lemma StemOfSeveral(c: string)
    requires CleanName(c) && '-' in c
    ensures TailHash(c) ==> |c| > 9 && Stem(c) == StartWithLetter(c[..|c| - 9]) + "-" + c[|c| - 8..]
    ensures !TailHash(c) ==> Stem(c) == StartWithLetter(c)
  {
    LastPart(c);
    StemUnfolds(c);
    if TailHash(c) {
      HashedFront(c);
      HashStem(c[..|c| - 9], c[|c| - 8..]);
    } else {
      PlainStem(c);
    }
    hide *;
  }

  lemma StemOfOne(c: string)
    requires CleanName(c) && '-' !in c
    ensures Stem(c) == if IsHashHex(c) then UNKNOWN + "-" + c else StartWithLetter("-" + c)
  {
    CutAtLastSeparator(c, '-');
    hide Split, StartWithLetter, Trim;
    if IsHashHex(c) {
      assert ([UNKNOWN] + [c])[..1] == [UNKNOWN];
      HashStem(UNKNOWN, c);
    } else {
      assert [c][..0] == [];
      assert "" + "-" + c == "-" + c;
      PlainStem("-" + c);
    }
  }

  lemma HashStem(front: string, h: string)
    requires front != "" && LabelChars(front) && IsAlphanumeric(front[|front| - 1]) && IsHashHex(h)
    ensures Trim(StartWithLetter(front) + "-" + h, IsHyphen) == StartWithLetter(front) + "-" + h
    ensures IsLetter(front[0]) ==> StartWithLetter(front) == front
  {
    StartShape(front);
    var s := StartWithLetter(front) + "-" + h;
    assert s[|s| - 1] == h[7] && h[7] in h;
    TrimKeeps(s, IsHyphen);
  }

  lemma StemShape(c: string)
    requires CleanName(c)
    ensures var s := Stem(c); s != "" && LabelChars(s) && IsLetter(s[0]) && IsAlphanumeric(s[|s| - 1])
  {
    hide Stem, StartWithLetter, HasPair;
    if '-' in c {
      StemOfSeveral(c);
      if TailHash(c) {
        HashedFront(c);
        StartShape(c[..|c| - 9]);
        assert c[|c| - 1] in c;
      } else {
        StartShape(c);
      }
    } else {
      StemOfOne(c);
      if !IsHashHex(c) {
        StartShape("-" + c);
      }
    }
  }

  // ---------------------------------------------------------------- every label is valid

  ghost predicate Ordinary(t: string) {
    t != "" && t != RESOURCE && t != DEFAULT
  }

  lemma LabelUnfolds(id: string)
    requires Ordinary(TrimSpace(id)) && Clean(TrimSpace(id)) != ""
    ensures Label(id) == Clip(Stem(Clean(TrimSpace(id))))
  {
    hide TrimSpace, Clean, Stem, Clip;
  }

  lemma ClipShape(s: string)
    requires s != "" && LabelChars(s) && IsLetter(s[0]) && IsAlphanumeric(s[|s| - 1])
    ensures IsLabel(Clip(s))
  {
    if |s| > 63 {
      TailShape(s);
      var tail := s[|s| - 63..];
      hide LabelChars;
      if !IsLetter(tail[0]) {
        CutShape(tail);
      }
      hide IsLetter, IsAlphanumeric;
    }
  }

  lemma TailShape(s: string)
    requires |s| > 63 && LabelChars(s) && IsAlphanumeric(s[|s| - 1])
    ensures var tail := s[|s| - 63..]; |tail| == 63 && LabelChars(tail) && IsAlphanumeric(tail[62])
  {
  }

  lemma CutShape(tail: string)
    requires |tail| == 63 && LabelChars(tail) && IsAlphanumeric(tail[62])
    ensures IsLabel("id-" + tail[3..])
  {
    var r := "id-" + tail[3..];
    assert r[62] == tail[62];
    forall c | c in r ensures IsLabelChar(c) {
      assert c in "id-" || c in tail;
    }
  }

  /** For every input the result is a label. */
  lemma LabelIsValid(id: string)
    ensures IsLabel(Label(id))
  {
    hide TrimSpace, Clean, Stem, Clip, CleanName;
    var t := TrimSpace(id);
    if t != "" && t != RESOURCE && t != DEFAULT {
      CleanShape(t);
      if Clean(t) != "" {
        StemShape(Clean(t));
        ClipShape(Stem(Clean(t)));
      }
    }
  }

  // ---------------------------------------------------------------- the hash survives

  /** s ends in the hash h, and in a hyphen before it unless it is the hash alone. */
  ghost predicate EndsInHash(s: string, h: string) {
    |s| >= 8 && s[|s| - 8..] == h && (|s| > 8 ==> s[|s| - 9] == '-')
  }

  lemma TrimKeepsTail(s: string, tail: string, drop: char -> bool)
    requires tail != "" && |s| >= |tail| && s[|s| - |tail|..] == tail
    requires !drop(tail[0]) && !drop(tail[|tail| - 1])
    ensures var r := Trim(s, drop); |tail| <= |r| <= |s| && r == s[|s| - |r|..]
  {
    hide TrimLeft, TrimRight;
    var l := TrimLeft(s, drop);
    assert s[|s| - |tail|] == tail[0] && s[|s| - 1] == tail[|tail| - 1];
    assert |l| >= |tail|;
    assert l[|l| - 1] == s[|s| - 1];
    var r := TrimRight(l, drop);
    assert |r| == |l|;
  }

  lemma HashSuffixes(s: string, r: string, h: string)
    requires |h| == 8 && EndsInHash(s, h) && 8 <= |r| <= |s| && r == s[|s| - |r|..]
    ensures EndsInHash(r, h)
  {
    assert r[|r| - 8..] == s[|s| - 8..];
  }

  lemma HashPrepend(c: char, r: string, h: string)
    requires EndsInHash(r, h) && (|r| > 8 || c == '-')
    ensures EndsInHash([c] + r, h)
  {
    assert ([c] + r)[|r| - 7..] == r[|r| - 8..];
  }

  lemma CollapseOfHash(h: string)
    requires IsHashHex(h)
    ensures Collapse(h) == h && Collapse("-" + h) == "-" + h
  {
    HexHasNoHyphen(h);
    CollapseKeeps(h);
    assert h[0] in h;
    assert ("-" + h)[1..] == h;
  }

  lemma {:induction false} CollapseKeepsHash(s: string, h: string)
    requires IsHashHex(h) && EndsInHash(s, h)
    ensures EndsInHash(Collapse(s), h) && (|s| > 8 ==> |Collapse(s)| > 8)
  {
    CollapseOfHash(h);
    if |s| == 8 {
      assert s == h;
    } else if |s| == 9 {
      assert s == "-" + h;
    } else {
      HashSuffixes(s, s[1..], h);
      hide IsHashHex, EndsInHash;
      CollapseKeepsHash(s[1..], h);
      HashPrepend(s[0], Collapse(s[1..]), h);
    }
  }

  lemma CleanCharsKeepHash(t: string, h: string)
    requires IsHashHex(h) && |t| > 8 && EndsInHash(t, h)
    ensures |CleanChars(t)| == |t| && EndsInHash(CleanChars(t), h)
    ensures |h| == 8 && h[0] != '-' && h[7] != '-'
  {
    hide CleanChars;
    var m := CleanChars(t);
    forall i | |t| - 8 <= i < |t| ensures m[i] == t[i] {
      assert t[i] == h[i - (|t| - 8)] && h[i - (|t| - 8)] in h;
    }
    assert m[|m| - 8..] == t[|t| - 8..];
    assert h[0] in h && h[7] in h;
  }

  lemma CleanIs(t: string)
    ensures Clean(t) == Collapse(Trim(CleanChars(t), IsHyphen))
  {
    hide Collapse, Trim, CleanChars;
  }

  lemma CleanKeepsHash(t: string, h: string)
    requires IsHashHex(h) && |t| > 8 && EndsInHash(t, h)
    ensures EndsInHash(Clean(t), h) && Clean(t) != ""
  {
    hide *;
    CleanCharsKeepHash(t, h);
    var m := CleanChars(t);
    HashTail(m, h);
    TrimKeepsTail(m, h, IsHyphen);
    HashSuffixes(m, Trim(m, IsHyphen), h);
    CollapseKeepsHash(Trim(m, IsHyphen), h);
    CleanIs(t);
    HashIsNotEmpty(Clean(t), h);
  }

  lemma HashTail(m: string, h: string)
    requires EndsInHash(m, h) && |h| == 8 && h[0] != '-' && h[7] != '-'
    ensures |m| >= |h| && m[|m| - |h|..] == h && !IsHyphen(h[0]) && !IsHyphen(h[|h| - 1])
  {
  }

  lemma HashIsNotEmpty(s: string, h: string)
    requires EndsInHash(s, h)
    ensures s != ""
  {
  }

  lemma ClipKeepsHash(s: string, h: string)
    requires |s| > 8 && IsHashHex(h) && EndsInHash(s, h)
    ensures |Clip(s)| > 8 && EndsInHash(Clip(s), h)
  {
    var r := Clip(s);
    assert r[|r| - 8..] == h;
  }

  /** Whatever stands before it, a hash at the end of an identifier is still at the end of
      its label, also when the label had to be cut to 63 characters. */
  lemma HashSurvives(p: string, h: string)
    requires IsHashHex(h)
    ensures var l := Label(p + "-" + h); |l| > 9 && l[|l| - 9..] == "-" + h
  {
    LabelIsValid(p + "-" + h);
    HashedClean(p, h);
    hide *;
    var id := p + "-" + h;
    var c := Clean(TrimSpace(id));
    StemKeepsHash(c, h);
    ClipKeepsHash(Stem(c), h);
    LabelUnfolds(id);
    HashSuffix(Label(id), h);
  }

  lemma HashedClean(p: string, h: string)
    requires IsHashHex(h)
    ensures var t := TrimSpace(p + "-" + h);
            Ordinary(t) && CleanName(Clean(t)) && Clean(t) != "" && EndsInHash(Clean(t), h)
  {
    hide *;
    var t := TrimSpace(p + "-" + h);
    TrimmedKeepsHash(p, h);
    CleanKeepsHash(t, h);
    CleanShape(t);
  }

  lemma HashSuffix(l: string, h: string)
    requires IsLabel(l) && |l| > 8 && EndsInHash(l, h)
    ensures |l| > 9 && l[|l| - 9..] == "-" + h
  {
    assert l[|l| - 9..] == [l[|l| - 9]] + l[|l| - 8..];
  }

  lemma TrimmedKeepsHash(p: string, h: string)
    requires IsHashHex(h)
    ensures var t := TrimSpace(p + "-" + h); |t| > 8 && EndsInHash(t, h) && Ordinary(t)
  {
    HashedTail(p, h);
    HexIsNotSpace(h);
    hide *;
    TrimSpaceKeepsHash(p + "-" + h, h);
    LongIsOrdinary(TrimSpace(p + "-" + h));
  }

  lemma HexIsNotSpace(h: string)
    requires IsHashHex(h)
    ensures |h| == 8 && !IsSpace(h[7])
  {
    assert h[7] in h;
  }

  lemma LongIsOrdinary(t: string)
    requires |t| > 8
    ensures Ordinary(t)
  {
  }

  lemma TrimSpaceKeepsHash(id: string, h: string)
    requires |h| == 8 && !IsSpace(h[7]) && |id| > 8 && EndsInHash(id, h)
    ensures |TrimSpace(id)| > 8 && EndsInHash(TrimSpace(id), h)
  {
    var tail := id[|id| - 9..];
    assert tail[8] == id[|id| - 8..][7];
    assert !IsSpace(tail[0]);
    hide Trim, IsSpace;
    TrimKeepsTail(id, tail, IsSpace);
    HashSuffixes(id, TrimSpace(id), h);
  }

  lemma HashedTail(p: string, h: string)
    requires |h| == 8
    ensures var id := p + "-" + h; |id| >= 9 && id[|id| - 9..] == "-" + h && EndsInHash(id, h)
  {
    var id := p + "-" + h;
    assert id[|id| - 8..] == h;
  }

  lemma StemKeepsHash(c: string, h: string)
    requires CleanName(c) && IsHashHex(h) && EndsInHash(c, h)
    ensures |Stem(c)| > 8 && EndsInHash(Stem(c), h)
  {
    HexHasNoHyphen(h);
    assert c[|c| - 8..] == h && |h| == 8;
    if |c| == 8 {
      assert c == h;
      StemOfOne(c);
      hide *;
      HashedTail(UNKNOWN, h);
    } else {
      assert c[|c| - 9] in c;
      StemOfSeveral(c);
      assert TailHash(c);
      hide *;
      HashedTail(StartWithLetter(c[..|c| - 9]), h);
    }
  }

  // ---------------------------------------------------------------- fixed points

  lemma StemOfName(c: string)
    requires CleanName(c) && IsLetter(c[0]) && !IsHashHex(c)
    ensures Stem(c) == c
  {
    hide Stem, HasPair;
    if '-' in c {
      StemOfSeveral(c);
      if TailHash(c) {
        HashedFront(c);
        StartShape(c[..|c| - 9]);
      } else {
        StartShape(c);
      }
    } else {
      StemOfOne(c);
      assert FirstLetter("-" + c) == 1;
      assert ("-" + c)[1..] == c;
    }
  }

  lemma CleanOfLabel(s: string)
    requires IsLabel(s)
    ensures Clean(s) == Collapse(s)
  {
    forall i | 0 <= i < |s| ensures CleanChar(s[i]) == s[i] {
      assert s[i] in s;
    }
    assert CleanChars(s) == s;
    TrimKeeps(s, IsHyphen);
  }

  lemma TrimOfLabel(s: string)
    requires IsLabel(s)
    ensures TrimSpace(s) == s && Ordinary(s)
  {
    TrimKeeps(s, IsSpace);
  }

  lemma CollapseOfLabel(s: string)
    requires IsLabel(s)
    ensures var c := Collapse(s);
            && CleanName(c) && IsLetter(c[0]) && |c| <= 63
            && (HasPair(s) ==> |c| < |s| && '-' in c) && (!HasPair(s) ==> c == s)
  {
    CollapseShape(s);
    CleanOfLabel(s);
    CleanShape(s);
    if !HasPair(s) {
      CollapseKeeps(s);
    }
  }

  lemma LabelOfLabel(s: string)
    requires IsLabel(s)
    ensures Label(s) == Clip(Stem(Collapse(s)))
  {
    TrimOfLabel(s);
    CleanOfLabel(s);
    CollapseOfLabel(s);
    assert Collapse(s) != "";
    hide *;
    LabelUnfolds(s);
  }

  /** The strings that are their own label are exactly the labels without adjacent hyphens
      that do not look like a bare hash. */
  lemma FixedPoints(s: string)
    ensures Label(s) == s <==> IsLabel(s) && !HasPair(s) && !IsHashHex(s)
  {
    LabelIsValid(s);
    if IsLabel(s) {
      LabelOfLabel(s);
      CollapseOfLabel(s);
      var c := Collapse(s);
      if '-' !in c && IsHashHex(c) {
        StemOfOne(c);
      } else {
        if IsHashHex(c) { HexHasNoHyphen(c); }
        StemOfName(c);
      }
      hide Label, Stem, Collapse, HasPair, LabelChars, CleanName;
    }
  }

  // ---------------------------------------------------------------- what a cleaned name spells

  predicate EndsPlain(t: string) {
    t != "" && IsAlphanumeric(LowerChar(t[|t| - 1]))
  }

  /** The letters and digits in lower case, with one hyphen for whatever stands between two of them. */
  function Spell(t: string): string {
    if t == "" then ""
    else
      var front, c := t[..|t| - 1], LowerChar(t[|t| - 1]);
      var s := Spell(front);
      if !IsAlphanumeric(c) then s
      else s + (if s == "" || EndsPlain(front) then "" else "-") + [c]
  }

  lemma {:induction false} TrimLeftAppend(x: string, d: char)
    ensures TrimLeft(x + [d], IsHyphen)
         == if d == '-' && TrimLeft(x, IsHyphen) == "" then "" else TrimLeft(x, IsHyphen) + [d]
  {
    if x == "" {
      assert x + [d] == [d];
      assert [d][1..] == "";
    } else {
      assert (x + [d])[1..] == x[1..] + [d];
      if x[0] == '-' {
        TrimLeftAppend(x[1..], d);
      }
    }
  }

  lemma TrimAppend(x: string, d: char)
    ensures Trim(x + [d], IsHyphen) == if d == '-' then Trim(x, IsHyphen) else TrimLeft(x, IsHyphen) + [d]
  {
    TrimLeftAppend(x, d);
    var y := TrimLeft(x, IsHyphen);
    assert (y + [d])[..|y|] == y;
    hide TrimLeft;
  }

  function Hyphens(k: nat): string {
    seq(k, i requires 0 <= i < k => '-')
  }

  lemma CollapseHyphensThen(k: nat, d: char)
    requires d != '-'
    ensures Collapse(['-'] + Hyphens(k) + [d]) == "-" + [d]
    decreases k
  {
    var s := ['-'] + Hyphens(k) + [d];
    if k > 0 {
      assert s[1..] == ['-'] + Hyphens(k - 1) + [d];
      CollapseHyphensThen(k - 1, d);
    } else {
      assert s == "-" + [d] && s[1..] == [d];
    }
  }

  /** A plain character after some hyphens. */
  lemma {:induction false} CollapseAppend(s: string, k: nat, d: char)
    requires s != "" && s[|s| - 1] != '-' && d != '-'
    ensures Collapse(s + Hyphens(k) + [d]) == Collapse(s) + (if k > 0 then "-" else "") + [d]
  {
    var all := s + Hyphens(k) + [d];
    if |s| == 1 {
      if k > 0 {
        assert all[1..] == ['-'] + Hyphens(k - 1) + [d];
        CollapseHyphensThen(k - 1, d);
      } else {
        assert all == s + [d] && all[1..] == [d];
      }
    } else {
      assert all[1..] == s[1..] + Hyphens(k) + [d];
      assert all[1] == s[1];
      CollapseAppend(s[1..], k, d);
    }
  }

  lemma CleanCharsAppend(t: string, c: char)
    ensures CleanChars(t + [c]) == CleanChars(t) + [CleanChar(c)]
  {
    hide CleanChar;
    assert forall i | 0 <= i < |t| :: (t + [c])[i] == t[i];
  }

  /** What hyphens at the start of x leave is y, and what hyphens at its end leave is z. */
  ghost predicate TrimmedTo(x: string, y: string, z: string) {
    && |z| <= |y| <= |x| && y == x[|x| - |y|..] && z == y[..|z|]
    && (forall i | |z| <= i < |y| :: y[i] == '-')
    && (y != "" ==> y[0] != '-') && (z != "" ==> z[|z| - 1] != '-')
  }

  lemma Trims(x: string)
    ensures TrimmedTo(x, TrimLeft(x, IsHyphen), Trim(x, IsHyphen))
  {
  }

  /** What is trimmed at the end is hyphens, and something only if the last character is one. */
  lemma TailOfHyphens(x: string, y: string, z: string)
    requires TrimmedTo(x, y, z)
    ensures |z| <= |y| && (z != "" ==> z[|z| - 1] != '-')
    ensures y == z + Hyphens(|y| - |z|) && (z == "" ==> y == "")
    ensures z != "" ==> x != "" && (|y| > |z| <==> x[|x| - 1] == '-')
  {
    if y != "" {
      assert y[|y| - 1] == x[|x| - 1];
      if |y| == |z| {
        assert y == z;
      }
    }
  }

  /** Cleaning spells the name. */
  lemma {:induction false} CleanIsSpelled(t: string)
    ensures Clean(t) == Spell(t)
  {
    if t != "" {
      var front, last := t[..|t| - 1], t[|t| - 1];
      var x, d := CleanChars(front), CleanChar(last);
      assert t == front + [last];
      CleanCharsAppend(front, last);
      CleanIsSpelled(front);
      TrimAppend(x, d);
      if d != '-' {
        SpellsOneMore(front, last);
      }
    } else {
      assert CleanChars("") == "" && Trim("", IsHyphen) == "";
    }
  }

  lemma SpellsOneMore(front: string, last: char)
    requires CleanChar(last) != '-'
    ensures Collapse(TrimLeft(CleanChars(front), IsHyphen) + [CleanChar(last)])
         == Clean(front) + (if Clean(front) == "" || EndsPlain(front) then "" else "-") + [CleanChar(last)]
  {
    var x := CleanChars(front);
    hide *;
    CleanIs(front);
    PlainEnd(front);
    Trims(x);
    PlainAfter(x, TrimLeft(x, IsHyphen), Trim(x, IsHyphen), CleanChar(last));
  }

  lemma PlainAfter(x: string, y: string, z: string, d: char)
    requires TrimmedTo(x, y, z) && d != '-'
    ensures Collapse(y + [d])
      == Collapse(z) + (if Collapse(z) == "" || x == "" || x[|x| - 1] != '-' then "" else "-") + [d]
    ensures x == "" ==> Collapse(z) == ""
  {
    TailOfHyphens(x, y, z);
    CollapseIsEmpty(z);
    hide Collapse, Hyphens, TrimmedTo;
    if z != "" {
      CollapseAppend(z, |y| - |z|, d);
    } else {
      assert y + [d] == [d] && "" + [d] == [d];
      CollapseOfOne(d);
    }
  }

  lemma PlainEnd(t: string)
    ensures |CleanChars(t)| == |t| && (t != "" ==> (CleanChars(t)[|t| - 1] == '-' <==> !EndsPlain(t)))
  {
    hide CleanChars;
  }

  lemma CollapseIsEmpty(s: string)
    ensures Collapse(s) == "" <==> s == ""
  {
  }

  lemma CollapseOfOne(d: char)
    ensures Collapse([d]) == [d]
  {
  }

  // ---------------------------------------------------------------- letter case

  function UpperChar(c: char): char {
    if 'a' <= c <= 'z' then (c as int - 32) as char else c
  }

  function Upper(s: string): (r: string)
    ensures |r| == |s| && forall i | 0 <= i < |s| :: r[i] == UpperChar(s[i])
  {
    seq(|s|, i requires 0 <= i < |s| => UpperChar(s[i]))
  }

  lemma SpaceHasNoCase(c: char)
    ensures IsSpace(UpperChar(c)) == IsSpace(c) && CleanChar(UpperChar(c)) == CleanChar(c)
  {
  }

  lemma TrimLeftUnfolds(s: string)
    requires s != ""
    ensures TrimLeft(s, IsSpace) == if IsSpace(s[0]) then TrimLeft(s[1..], IsSpace) else s
  {
    hide IsSpace;
  }

  lemma {:induction false} TrimLeftOfUpper(s: string)
    ensures TrimLeft(Upper(s), IsSpace) == Upper(TrimLeft(s, IsSpace))
  {
    if s != [] {
      SpaceHasNoCase(s[0]);
      TrimLeftUnfolds(s);
      TrimLeftUnfolds(Upper(s));
      hide IsSpace, UpperChar, Upper, TrimLeft;
      assert Upper(s)[0] == UpperChar(s[0]);
      if IsSpace(s[0]) {
        TrimLeftOfUpper(s[1..]);
        assert Upper(s)[1..] == Upper(s[1..]);
      }
    }
  }

  lemma {:induction false} TrimRightOfUpper(s: string)
    ensures TrimRight(Upper(s), IsSpace) == Upper(TrimRight(s, IsSpace))
  {
    if s != [] {
      SpaceHasNoCase(s[|s| - 1]);
    }
    hide IsSpace, UpperChar;
    if s != [] && IsSpace(s[|s| - 1]) {
      TrimRightOfUpper(s[..|s| - 1]);
      assert Upper(s)[..|s| - 1] == Upper(s[..|s| - 1]);
    }
  }

  lemma TrimOfUpper(s: string)
    ensures TrimSpace(Upper(s)) == Upper(TrimSpace(s))
  {
    TrimLeftOfUpper(s);
    TrimRightOfUpper(TrimLeft(s, IsSpace));
  }

  lemma CleanOfUpper(t: string)
    ensures Clean(Upper(t)) == Clean(t)
  {
    hide UpperChar, CleanChar, Collapse, Trim, CleanChars;
    forall i | 0 <= i < |t| ensures CleanChars(Upper(t))[i] == CleanChars(t)[i] {
      SpaceHasNoCase(t[i]);
    }
    assert CleanChars(Upper(t)) == CleanChars(t);
  }

  /** The names that are treated specially come out as any other name would. */
  lemma ReservedAreOrdinary(id: string)
    requires TrimSpace(id) == RESOURCE || TrimSpace(id) == DEFAULT
    ensures Clean(TrimSpace(id)) != "" && Label(id) == Clip(Stem(Clean(TrimSpace(id))))
  {
    var t := TrimSpace(id);
    var l := if t == RESOURCE then "resource" else "default";
    hide *;
    ReservedLabel(id);
    ReservedFacts();
    CleanOfUpper(t);
    CleanOfUpper(l);
    ReservedLabelsAreFixed(l);
    FixedPoints(l);
    TrimOfLabel(l);
    LabelOfLabel(l);
    CleanOfLabel(l);
    LabelIsNotEmpty(l);
  }

  lemma ReservedFacts()
    ensures Upper(RESOURCE) == Upper("resource") && Upper(DEFAULT) == Upper("default")
    ensures IsLabel("resource") && IsLabel("default") && RESOURCE != DEFAULT
  {
    assert Upper("resource") == "RESOURCE";
    assert Upper("default") == "DEFAULT";
  }

  lemma ReservedLabel(id: string)
    requires TrimSpace(id) == RESOURCE || TrimSpace(id) == DEFAULT
    ensures Label(id) == if TrimSpace(id) == RESOURCE then "resource" else "default"
  {
    hide TrimSpace, Clean, Stem, Clip;
  }

  lemma LabelIsNotEmpty(s: string)
    requires IsLabel(s)
    ensures Collapse(s) != ""
  {
    CollapseOfLabel(s);
  }

  lemma LabelOfClean(id: string)
    ensures var c := Clean(TrimSpace(id));
            Label(id) == if TrimSpace(id) == "" || c == "" then UNKNOWN else Clip(Stem(c))
  {
    var t := TrimSpace(id);
    if t == RESOURCE || t == DEFAULT {
      assert t != "";
      hide Label, Stem, Clip, Clean;
      ReservedAreOrdinary(id);
    } else {
      hide TrimSpace, Clean, Stem, Clip;
    }
  }

  /** Letter case makes no difference, also for the names that are treated specially. */
  lemma CaseIsIgnored(id: string)
    ensures Label(Upper(id)) == Label(id)
  {
    var t := TrimSpace(id);
    TrimOfUpper(id);
    CleanOfUpper(t);
    assert Upper(t) == "" <==> t == "";
    hide *;
    LabelOfClean(id);
    LabelOfClean(Upper(id));
  }

  // ---------------------------------------------------------------- what a label is

  /** A name from its first letter on; one without letters is replaced by a hash. */
  function FromLetter(name: string, hashed: string): string {
    if FirstLetter(name) < |name| then name[FirstLetter(name)..] else UNKNOWN + "-" + FnvHash(Bytes(hashed))
  }

  /** A name that ends in a hash keeps it; a bare hash is given a name. A name of one word without
      letters is hashed with a hyphen in front. */
  ghost function Renamed(c: string): string {
    if IsHashHex(c) then UNKNOWN + "-" + c
    else if TailHash(c) then FromLetter(c[..|c| - 9], c[..|c| - 9]) + "-" + c[|c| - 8..]
    else FromLetter(c, if '-' in c then c else "-" + c)
  }

  /** The last 63 characters, or the last 60 behind a fixed beginning if the 63 start with no letter. */
  function LastPartOf(s: string): string {
    if |s| <= 63 then s
    else if IsLetter(s[|s| - 63]) then s[|s| - 63..]
    else "id-" + s[|s| - 60..]
  }

  lemma StartIsFromLetter(c: string)
    requires c != ""
    ensures StartWithLetter(c) == FromLetter(c, c)
    ensures c[0] != '-' ==> StartWithLetter("-" + c) == FromLetter(c, "-" + c)
  {
    hide FnvHash, Bytes;
    assert ("-" + c)[1..] == c;
    assert FirstLetter("-" + c) == 1 + FirstLetter(c);
    assert ("-" + c)[1 + FirstLetter(c)..] == c[FirstLetter(c)..];
  }

  lemma StemIsRenamed(c: string)
    requires CleanName(c)
    ensures Stem(c) == Renamed(c)
  {
    StartIsFromLetter(c);
    assert c[0] != '-';
    hide Stem, StartWithLetter, FromLetter, HasPair;
    if '-' in c {
      StemOfSeveral(c);
      if IsHashHex(c) {
        HexHasNoHyphen(c);
      }
      if TailHash(c) {
        HashedFront(c);
        StartIsFromLetter(c[..|c| - 9]);
      }
    } else {
      StemOfOne(c);
      assert !TailHash(c);
    }
  }

  lemma ClipIsLastPart(s: string)
    ensures Clip(s) == LastPartOf(s)
  {
    if |s| > 63 {
      assert s[|s| - 63..][3..] == s[|s| - 60..];
    }
  }

  /** The label of any name: what it spells, renamed and cut to length. */
  lemma LabelExactly(id: string)
    ensures var c := Spell(TrimSpace(id));
            Label(id) == if c == "" then UNKNOWN else LastPartOf(Renamed(c))
  {
    var t := TrimSpace(id);
    var c := Clean(t);
    if c != "" {
      CleanShape(t);
    }
    hide *;
    CleanIsSpelled(t);
    LabelOfClean(id);
    SpellOfNothing();
    if c != "" {
      StemIsRenamed(c);
      ClipIsLastPart(Stem(c));
    }
  }

  lemma SpellOfNothing()
    ensures Spell("") == ""
  {
  }

  // ---------------------------------------------------------------- identifiers and names

  lemma ExtractCases(id: string)
    ensures ExtractResource(id) == if id == "" then UNKNOWN else if TailHash(id) then id[..|id| - 9] else id
  {
    CutAtLastSeparator(id, '-');
    hide Split, Join, IsHashHex;
    if '-' in id {
      LastPart(id);
    }
  }

  function HexDigit(c: char): nat
    requires IsHexDigit(c)
  {
    if c <= '9' then c as int - '0' as int else c as int - 'a' as int + 10
  }

  /** The number that hexadecimal digits write. */
  function HexValue(s: string): nat
    requires forall c | c in s :: IsHexDigit(c)
  {
    if s == "" then 0 else 16 * HexValue(s[..|s| - 1]) + HexDigit(s[|s| - 1])
  }

  function Power16(k: nat): nat {
    if k == 0 then 1 else 16 * Power16(k - 1)
  }

  lemma HexDigitIs(d: nat)
    requires d < 16
    ensures IsHexDigit("0123456789abcdef"[d]) && HexDigit("0123456789abcdef"[d]) == d
  {
    assert d == 0 || d == 1 || d == 2 || d == 3 || d == 4 || d == 5 || d == 6 || d == 7 || d == 8 || d == 9 || d == 10
      || d == 11 || d == 12 || d == 13 || d == 14 || d == 15;
  }

  /** The digits write the number, as far as they go. */
  lemma {:induction false} HexIsWritten(n: nat, k: nat)
    ensures HexValue(Hex(n, k)) < Power16(k) && exists q: nat :: n == q * Power16(k) + HexValue(Hex(n, k))
  {
    if k == 0 {
      assert n == n * Power16(0) + HexValue(Hex(n, 0));
    } else {
      HexIsWritten(n / 16, k - 1);
      HexDigitIs(n % 16);
      var s := Hex(n, k);
      assert s[..|s| - 1] == Hex(n / 16, k - 1);
      var q: nat :| n / 16 == q * Power16(k - 1) + HexValue(Hex(n / 16, k - 1));
      assert n == q * Power16(k) + HexValue(s) by {
        Regroup(n, q, Power16(k - 1), HexValue(Hex(n / 16, k - 1)));
      }
    }
  }

  lemma Regroup(n: nat, q: nat, p: nat, h: nat)
    requires n / 16 == q * p + h
    ensures n == q * (16 * p) + (16 * h + n % 16)
  {
    assert q * (16 * p) == 16 * (q * p);
  }

  lemma StepOf(h: nat, b: bv8, low: nat, next: nat)
    requires ((h % 256) as bv8 ^ b) as nat == low
    requires ((h - h % 256 + low) * FNV_PRIME) % 0x1_0000_0000_0000_0000 == next
    ensures FnvStep(h, b) == next
  {
  }

  lemma XorsOfNull()
    ensures (0x25 as bv8 ^ 110) as nat == 0x4b && (0x71 as bv8 ^ 117) as nat == 0x4
    ensures (0xcc as bv8 ^ 108) as nat == 0xa0 && (0xe0 as bv8 ^ 108) as nat == 0x8c
  {
  }

  lemma Step1OfNull()
    ensures FnvStep(0xcbf29ce484222325, 110) == 0xaf63e34c8601f871
  {
    XorsOfNull();
    StepOf(0xcbf29ce484222325, 110, 0x4b, 0xaf63e34c8601f871);
  }

  lemma Step2OfNull()
    ensures FnvStep(0xaf63e34c8601f871, 117) == 0x8b33f07b5586ecc
  {
    XorsOfNull();
    StepOf(0xaf63e34c8601f871, 117, 0x4, 0x8b33f07b5586ecc);
  }

  lemma Step3OfNull()
    ensures FnvStep(0x8b33f07b5586ecc, 108) == 0x2102ba192543f9e0
  {
    XorsOfNull();
    StepOf(0x8b33f07b5586ecc, 108, 0xa0, 0x2102ba192543f9e0);
  }

  lemma Step4OfNull()
    ensures FnvStep(0x2102ba192543f9e0, 108) == 0x5b9bc4ba528108e4
  {
    XorsOfNull();
    StepOf(0x2102ba192543f9e0, 108, 0x8c, 0x5b9bc4ba528108e4);
  }

  /** The hash of the encoding of nil properties. */
  lemma HashOfNull()
    ensures Fnv64a([110, 117, 108, 108]) == 0x5b9bc4ba528108e4
  {
    hide FnvStep;
    var b: seq<bv8> := [110, 117, 108, 108];
    assert Fnv64a([]) == 0xcbf29ce484222325;
    assert b[..1][..0] == [] && b[..2][..1] == b[..1] && b[..3][..2] == b[..2] && b[..4] == b;
    assert Fnv64a(b[..1]) == 0xaf63e34c8601f871 by {
      Step1OfNull();
    }
    assert Fnv64a(b[..2]) == 0x8b33f07b5586ecc by {
      Step2OfNull();
    }
    assert Fnv64a(b[..3]) == 0x2102ba192543f9e0 by {
      Step3OfNull();
    }
    assert Fnv64a(b[..4]) == 0x5b9bc4ba528108e4 by {
      Step4OfNull();
    }
  }

  /** The name comes back from every identifier that was generated from it, also when the
      name itself contains hyphens or hashes or is one of the names cdk8s reserves. */
  lemma RoundTrip(prefix: string, encoded: seq<bv8>)
    ensures ExtractResource(ResourceID(prefix, encoded)) == if TrimSpace(prefix) == "" then UNKNOWN
      else TrimSpace(prefix)
  {
    var p, h := TrimSpace(prefix), FnvHash(encoded)[..8];
    FnvStartIsHash(encoded);
    hide TrimSpace, FnvHash, IsHashHex, TailHash;
    if p == RESOURCE || p == DEFAULT {
      ReservedHasNoTail(p);
      ExtractCases(p);
    } else {
      var name := if p == "" then UNKNOWN else p;
      HashedHasTail(name, h);
      ExtractCases(name + "-" + h);
    }
  }

  lemma ReservedHasNoTail(p: string)
    requires p == RESOURCE || p == DEFAULT
    ensures !TailHash(p)
  {
  }

  lemma FnvStartIsHash(encoded: seq<bv8>)
    ensures IsHashHex(FnvHash(encoded)[..8])
  {
    var h := FnvHash(encoded);
    forall c | c in h[..8] ensures IsHexDigit(c) {
      assert c in h;
    }
  }

  /** A name is its own extract exactly when it is not empty and does not itself end in a
      hyphen and a hash. */
  lemma NameIsOwnExtract(name: string)
    ensures ExtractResource(name) == name <==> name != "" && !TailHash(name)
  {
    ExtractCases(name);
    hide ExtractResource, IsHashHex;
  }

  // ---------------------------------------------------------------- applying ToRFC1123 twice

  /** The cleaned name is not a hash by itself, but what is left after dropping everything
      before its first letter is. */
  ghost predicate DropsToHash(c: string) {
    !IsHashHex(c) && !TailHash(c) && IsHashHex(c[FirstLetter(c)..])
  }

  /** From its first letter on the cleaned name is longer than a label, the first of its last
      63 characters is not a letter, and the fourth is a hyphen. */
  ghost predicate CutsAtHyphen(c: string) {
    |c| - FirstLetter(c) > 63 && !IsLetter(c[|c| - 63]) && c[|c| - 60] == '-'
  }

  /** The same of the name that is cut. */
  ghost predicate StemCutsAtHyphen(stem: string) {
    |stem| > 63 && !IsLetter(stem[|stem| - 63]) && stem[|stem| - 60] == '-'
  }

  lemma {:induction false} FirstLetterAfterHyphen(c: string)
    ensures FirstLetter("-" + c) == 1 + FirstLetter(c)
  {
    assert ("-" + c)[1..] == c;
  }

  lemma StartIsSuffix(c: string)
    ensures FirstLetter(c) < |c| ==> StartWithLetter(c) == c[FirstLetter(c)..] == StartWithLetter("-" + c)
    ensures FirstLetter(c) == |c| && c != "" ==> |StartWithLetter(c)| > 8 && |StartWithLetter("-" + c)| > 8
  {
    FirstLetterAfterHyphen(c);
    hide FnvHash, Bytes;
    assert ("-" + c)[1 + FirstLetter(c)..] == c[FirstLetter(c)..];
  }

  /** The stem is a bare hash exactly in the case named above. */
  lemma StemIsHash(c: string)
    requires CleanName(c)
    ensures IsHashHex(Stem(c)) <==> DropsToHash(c)
  {
    assert c != "";
    StartIsSuffix(c);
    StemLengthWithHash(c);
    if '-' in c {
      StemOfSeveral(c);
      if IsHashHex(c) { HexHasNoHyphen(c); }
    } else {
      StemOfOne(c);
    }
    hide Stem, StartWithLetter, FirstLetter, LabelChars, HasPair;
  }

  lemma StemLengthWithHash(c: string)
    requires CleanName(c)
    ensures TailHash(c) ==> '-' in c && |Stem(c)| > 8
    ensures '-' !in c && IsHashHex(c) ==> |Stem(c)| > 8
  {
    if TailHash(c) {
      assert c[|c| - 9] in c;
      StemOfSeveral(c);
    } else if '-' !in c && IsHashHex(c) {
      StemOfOne(c);
    }
    hide Stem, StartWithLetter;
  }

  lemma NoPairAppend(a: string, b: string)
    requires !HasPair(a) && !HasPair(b) && (a != "" && b != "" ==> a[|a| - 1] != '-' || b[0] != '-')
    ensures !HasPair(a + b)
  {
    var s := a + b;
    forall i | 0 <= i < |s| - 1 ensures !(s[i] == '-' && s[i + 1] == '-') {
      if i >= |a| {
        assert !(b[i - |a|] == '-' && b[i - |a| + 1] == '-');
      } else if i < |a| - 1 {
        assert !(a[i] == '-' && a[i + 1] == '-');
      }
    }
  }

  lemma NoPairFrom(s: string, k: nat)
    requires !HasPair(s) && k <= |s|
    ensures !HasPair(s[k..]) && !HasPair(s[..k])
  {
    forall i | 0 <= i < |s| - k - 1 ensures !(s[k..][i] == '-' && s[k..][i + 1] == '-') {
      assert s[k..][i] == s[k + i] && s[k..][i + 1] == s[k + i + 1];
    }
  }

  lemma NoHyphenNoPair(s: string)
    requires '-' !in s
    ensures !HasPair(s)
  {
  }

  lemma StartHasNoPair(prefix: string)
    requires prefix != "" && !HasPair(prefix)
    ensures !HasPair(StartWithLetter(prefix))
  {
    var k := FirstLetter(prefix);
    if k < |prefix| {
      NoPairFrom(prefix, k);
    } else {
      var h := FnvHash(Bytes(prefix));
      assert '-' !in h;
      NoHyphenNoPair(h);
      hide FnvHash;
      NoPairAppend(UNKNOWN, "-");
      NoPairAppend(UNKNOWN + "-", h);
    }
  }

  lemma NameHasNoPair(c: string)
    requires CleanName(c)
    ensures c != "" && !HasPair(c) && c[0] != '-' && LabelChars(c) && IsAlphanumeric(c[|c| - 1])
  {
  }

  lemma HashedStemHasNoPair(c: string)
    requires CleanName(c) && TailHash(c) && '-' in c
    ensures !HasPair(Stem(c))
  {
    var front, h := c[..|c| - 9], c[|c| - 8..];
    HashedFront(c);
    TailHashSplits(c);
    NameHasNoPair(c);
    assert |h| == 8 && h != "";
    hide *;
    NoPairFrom(c, |c| - 9);
    StemOfSeveral(c);
    StartHasNoPair(front);
    StartEndsPlain(front);
    HashedHasNoPair(StartWithLetter(front), h);
  }

  lemma StartEndsPlain(prefix: string)
    requires prefix != "" && LabelChars(prefix) && IsAlphanumeric(prefix[|prefix| - 1])
    ensures var q := StartWithLetter(prefix); q != "" && q[|q| - 1] != '-'
  {
    StartShape(prefix);
    hide StartWithLetter, LabelChars;
  }

  lemma SingleStemHasNoPair(c: string)
    requires CleanName(c) && '-' !in c
    ensures !HasPair(Stem(c))
  {
    NameHasNoPair(c);
    assert !HasPair("-");
    assert UNKNOWN[6] != '-' && '-' !in UNKNOWN;
    hide *;
    StemOfOne(c);
    if IsHashHex(c) {
      NoHyphenNoPair(UNKNOWN);
      HashedHasNoPair(UNKNOWN, c);
    } else {
      NoPairAppend("-", c);
      StartHasNoPair("-" + c);
    }
  }

  lemma StemHasNoPair(c: string)
    requires CleanName(c)
    ensures !HasPair(Stem(c))
  {
    hide *;
    if '-' !in c {
      SingleStemHasNoPair(c);
    } else if TailHash(c) {
      HashedStemHasNoPair(c);
    } else {
      NameHasNoPair(c);
      StemOfSeveral(c);
      StartHasNoPair(c);
    }
  }

  lemma HashedHasNoPair(front: string, h: string)
    requires front != "" && front[|front| - 1] != '-' && !HasPair(front) && '-' !in h && h != ""
    ensures !HasPair(front + "-" + h)
  {
    NoHyphenNoPair(h);
    NoPairAppend(front, "-");
    NoPairAppend(front + "-", h);
  }

  /** Cutting introduces a pair of hyphens exactly in the case named above. */
  lemma ClipPair(s: string)
    requires !HasPair(s)
    ensures HasPair(Clip(s)) <==> StemCutsAtHyphen(s)
  {
    if |s| > 63 {
      NoPairFrom(s, |s| - 63);
      var tail := s[|s| - 63..];
      if !IsLetter(tail[0]) {
        NoPairFrom(s, |s| - 60);
        assert tail[3..] == s[|s| - 60..];
        var r := "id-" + tail[3..];
        if tail[3] == '-' {
          assert r[2] == '-' && r[3] == '-';
        } else {
          NoPairAppend("id-", tail[3..]);
        }
      }
    }
  }

  /** The stem keeps a cleaned name from its first letter on; anything else it makes is short. */
  lemma StemIsSuffixOrShort(c: string)
    requires CleanName(c)
    ensures Stem(c) == c[FirstLetter(c)..] || (|Stem(c)| <= 63 && |c| - FirstLetter(c) <= 63)
  {
    StartIsSuffix(c);
    if TailHash(c) {
      assert c[|c| - 9] in c;
      StemOfSeveral(c);
      HashedStem(c);
    } else if '-' in c {
      StemOfSeveral(c);
      StartIsShort(c);
    } else {
      StemOfOne(c);
      FirstLetterAfterHyphen(c);
      StartIsShort("-" + c);
    }
  }

  lemma StartIsShort(prefix: string)
    ensures FirstLetter(prefix) == |prefix| ==> |StartWithLetter(prefix)| <= 24
  {
    hide FnvHash, Bytes;
  }

  lemma HashedStem(c: string)
    requires CleanName(c) && TailHash(c) && Stem(c) == StartWithLetter(c[..|c| - 9]) + "-" + c[|c| - 8..]
    ensures Stem(c) == c[FirstLetter(c)..] || (|Stem(c)| <= 63 && |c| - FirstLetter(c) <= 63)
  {
    hide Stem, StartWithLetter, CleanName, IsHashHex, TailHash, FirstLetter;
    HashedFront(c);
    var n := |c| - 9;
    StartIsSuffix(c[..n]);
    StartIsShort(c[..n]);
    if FirstLetter(c[..n]) < n {
      FirstLetterOfFront(c, n);
      SuffixOfFront(c, n, FirstLetter(c));
    } else {
      FirstLetterPast(c, n);
    }
  }

  lemma SuffixOfFront(c: string, n: nat, k: nat)
    requires k <= n < |c| && c == c[..n] + "-" + c[n + 1..]
    ensures c[k..] == c[..n][k..] + "-" + c[n + 1..]
  {
  }

  lemma {:induction false} FirstLetterOfFront(c: string, n: nat)
    requires n <= |c| && FirstLetter(c[..n]) < n
    ensures FirstLetter(c) == FirstLetter(c[..n])
  {
    var k := FirstLetter(c[..n]);
    assert IsLetter(c[k]) && forall i | 0 <= i < k :: !IsLetter(c[i]) by {
      assert c[..n][k] == c[k];
      forall i | 0 <= i < k ensures !IsLetter(c[i]) {
        assert c[..n][i] == c[i];
      }
    }
    hide FirstLetter;
  }

  lemma FirstLetterPast(c: string, n: nat)
    requires n <= |c| && FirstLetter(c[..n]) == n
    ensures FirstLetter(c) >= n
  {
    hide FirstLetter;
    forall i | 0 <= i < n ensures !IsLetter(c[i]) {
      assert c[..n][i] == c[i];
    }
  }

  lemma StemCutsExactly(c: string)
    requires CleanName(c)
    ensures StemCutsAtHyphen(Stem(c)) <==> CutsAtHyphen(c)
  {
    StemIsSuffixOrShort(c);
    hide Stem, CleanName, FirstLetter;
  }

  lemma ReservedLabelsAreFixed(l: string)
    requires l == UNKNOWN || l == "resource" || l == "default"
    ensures !HasPair(l) && !IsHashHex(l)
  {
    NoHyphenNoPair(l);
    assert l[1] in l && l[2] in l;
  }

  lemma ClipHash(s: string)
    ensures IsHashHex(Clip(s)) <==> IsHashHex(s)
  {
  }

  /** Applying ToRFC1123 to its own result changes it exactly in two cases: the first
      application dropped leading digits and left a bare hash, or it cut the name in front
      of a character that is not a letter and three characters ahead of a hyphen. */
  lemma IdempotentExactly(id: string)
    ensures var t := TrimSpace(id);
            Label(Label(id)) == Label(id) <==>
            !(Ordinary(t) && Clean(t) != "" && (DropsToHash(Clean(t)) || CutsAtHyphen(Clean(t))))
  {
    var t, l := TrimSpace(id), Label(id);
    var c := Clean(t);
    LabelIsValid(id);
    FixedPoints(l);
    if Ordinary(t) && c != "" {
      CleanShape(t);
      LabelUnfolds(id);
      hide *;
      StemIsHash(c);
      StemCutsExactly(c);
      ClipHash(Stem(c));
      StemHasNoPair(c);
      ClipPair(Stem(c));
    } else {
      hide TrimSpace, Clean, Stem, Clip, HasPair, IsHashHex;
      ReservedLabelsAreFixed(l);
    }
  }

  /** A digit before a bare hash is dropped, and then the hash alone is given a name. */
  lemma DigitBeforeHash(s: string, h: string)
    requires CleanName(s) && CleanName(h) && '-' !in s && '-' !in h && |s| == 9 && s[1..] == h
    requires FirstLetter(s) == 1 && !IsHashHex(s) && IsHashHex(h)
    ensures Label(s) == h && Label(h) == UNKNOWN + "-" + h
  {
    assert |h| == 8 && |UNKNOWN + "-" + h| == 16;
    hide *;
    LabelOfPlain(s);
    LabelOfPlain(h);
    StartIsSuffix(s);
    ShortClip(h);
    ShortClip(UNKNOWN + "-" + h);
  }

  /** An input that is not stable. */
  lemma NotIdempotent()
    ensures Label("1deadbeef") == "deadbeef" && Label("deadbeef") == UNKNOWN + "-" + "deadbeef"
  {
    var s, h := "1deadbeef", "deadbeef";
    WitnessFacts();
    HexIsPlain(s);
    HexIsPlain(h);
    assert |s| == 9;
    hide *;
    DigitBeforeHash(s, h);
  }

  /** A name that is cut in front of a digit and three characters ahead of a hyphen. */
  function LongName(): (s: string)
    ensures |s| == 64 && s[..5] == "a1aa-" && forall i | 5 <= i < 64 :: s[i] == 'b'
  {
    "a1aa-" + seq(59, _ => 'b')
  }

  lemma LongNameIsClean()
    ensures CleanName(LongName()) && FirstLetter(LongName()) == 0
  {
    var s := LongName();
    hide LongName;
    assert forall i | 0 <= i < 5 :: s[i] == "a1aa-"[i];
  }

  /** An input of the other kind: it is cut to a name with two hyphens in a row, which the
      second application collapses. */
  lemma NotIdempotentWhenCut()
    ensures Label(Label(LongName())) != Label(LongName())
  {
    var s := LongName();
    LongNameIsClean();
    PlainIsClean(s);
    PlainIsOrdinary(s);
    assert s[..5][1] == s[1] && s[..5][4] == s[4];
    assert CutsAtHyphen(s);
    hide *;
    IdempotentExactly(s);
    assert s != "";
  }

  lemma WitnessFacts()
    ensures var s, h := "1deadbeef", "deadbeef";
            && s[1..] == h && FirstLetter(s) == 1 && !IsHashHex(s) && IsHashHex(h)
            && (forall i | 0 <= i < |s| :: IsHexDigit(s[i])) && (forall i | 0 <= i < |h| :: IsHexDigit(h[i]))
  {
    hide FirstLetter;
    var s, h := "1deadbeef", "deadbeef";
    assert !IsLetter(s[0]) && IsLetter(s[1]);
    assert forall i | 0 <= i < |h| :: h[i] == s[1..][i];
  }

  lemma HexIsPlain(s: string)
    requires s != "" && forall i | 0 <= i < |s| :: IsHexDigit(s[i])
    ensures CleanName(s) && '-' !in s
  {
    NoHyphenNoPair(s);
  }

  lemma LabelOfPlain(c: string)
    requires CleanName(c) && '-' !in c
    ensures Label(c) == Clip(if IsHashHex(c) then UNKNOWN + "-" + c else StartWithLetter("-" + c))
  {
    NameHasNoPair(c);
    PlainIsOrdinary(c);
    hide *;
    PlainIsClean(c);
    LabelUnfolds(c);
    StemOfOne(c);
  }

  lemma PlainIsOrdinary(c: string)
    requires CleanName(c)
    ensures Ordinary(c)
  {
    assert c[0] in c;
  }

  lemma ShortClip(s: string)
    requires |s| <= 63
    ensures Clip(s) == s
  {
  }

  lemma PlainCharsStay(c: string)
    requires CleanName(c)
    ensures CleanChars(c) == c && !IsSpace(c[0]) && !IsSpace(c[|c| - 1])
  {
    hide CleanChars, HasPair;
    forall i | 0 <= i < |c| ensures CleanChar(c[i]) == c[i] {
      assert c[i] in c;
      LabelCharStays(c[i]);
    }
    hide CleanChar, IsLabelChar;
    assert CleanChars(c) == c;
  }

  lemma LabelCharStays(c: char)
    requires IsLabelChar(c)
    ensures CleanChar(c) == c
  {
  }

  lemma PlainIsClean(c: string)
    requires CleanName(c)
    ensures TrimSpace(c) == c && Clean(c) == c
  {
    PlainCharsStay(c);
    hide CleanChars, Trim, Collapse, IsSpace, HasPair, LabelChars;
    TrimKeeps(c, IsSpace);
    TrimKeeps(c, IsHyphen);
    CollapseKeeps(c);
  }
}
