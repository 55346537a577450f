/** The string operations the other modules share, with the laws they need. */
module Text {

  /** unicode.IsSpace: the White_Space characters. */
  predicate IsSpace(c: char) {
    var n := c as int;
    || 9 <= n <= 13 || n == 32 || n == 0x85 || n == 0xA0 || n == 0x1680
    || 0x2000 <= n <= 0x200A || n == 0x2028 || n == 0x2029 || n == 0x202F || n == 0x205F || n == 0x3000
  }

  predicate IsHyphen(c: char) {
    c == '-'
  }

  function TrimLeft(s: string, drop: char -> bool): (r: string)
    ensures |r| <= |s| && r == s[|s| - |r|..]
    ensures forall i | 0 <= i < |s| - |r| :: drop(s[i])
    ensures r != [] ==> !drop(r[0])
  {
    if s != [] && drop(s[0]) then TrimLeft(s[1..], drop) else s
  }

  function TrimRight(s: string, drop: char -> bool): (r: string)
    ensures |r| <= |s| && r == s[..|r|]
    ensures forall i | |r| <= i < |s| :: drop(s[i])
    ensures r != [] ==> !drop(r[|r| - 1])
  {
    if s != [] && drop(s[|s| - 1]) then TrimRight(s[..|s| - 1], drop) else s
  }

  function Trim(s: string, drop: char -> bool): string {
    TrimRight(TrimLeft(s, drop), drop)
  }

  function TrimSpace(s: string): string {
    Trim(s, IsSpace)
  }

  /** strings.Split on a one-character separator: always at least one part. */
  function Split(s: string, sep: char): (parts: seq<string>)
    ensures |parts| >= 1
  {
    if s == "" then [""]
    else
      var rest := Split(s[1..], sep);
      if s[0] == sep then [""] + rest else [[s[0]] + rest[0]] + rest[1..]
  }

  function Join(parts: seq<string>, sep: char): string {
    if parts == [] then ""
    else if |parts| == 1 then parts[0]
    else parts[0] + [sep] + Join(parts[1..], sep)
  }

  // ---------------------------------------------------------------- trimming

  /** A string that neither starts nor ends with a dropped character is left alone, and
      only dropped characters are lost. */
  lemma TrimKeeps(s: string, drop: char -> bool)
    requires s != [] ==> !drop(s[0]) && !drop(s[|s| - 1])
    ensures Trim(s, drop) == s
  {
  }

  lemma TrimEnds(s: string, drop: char -> bool)
    ensures var r := Trim(s, drop); r != [] ==> !drop(r[0]) && !drop(r[|r| - 1])
    ensures Trim(s, drop) == [] <==> forall i | 0 <= i < |s| :: drop(s[i])
    ensures forall c | c in Trim(s, drop) :: c in s
  {
    var l, r := TrimLeft(s, drop), Trim(s, drop);
    if r == [] {
      forall i | 0 <= i < |s| ensures drop(s[i]) {
        if i >= |s| - |l| { assert s[i] == l[i - (|s| - |l|)]; }
      }
    } else {
      assert r[0] == l[0] == s[|s| - |l|];
    }
  }

  // ---------------------------------------------------------------- splitting and joining

  lemma SplitCons(c: char, t: string, sep: char)
    ensures var rest := Split(t, sep);
            Split([c] + t, sep) == if c == sep then [""] + rest else [[c] + rest[0]] + rest[1..]
  {
    var s := [c] + t;
    assert s[0] == c && s[1..] == t;
  }

  lemma JoinCons(c: char, parts: seq<string>, sep: char)
    requires parts != []
    ensures Join([[c] + parts[0]] + parts[1..], sep) == [c] + Join(parts, sep)
    ensures Join([""] + parts, sep) == [sep] + Join(parts, sep)
  {
    assert ([[c] + parts[0]] + parts[1..])[1..] == parts[1..];
    assert ([""] + parts)[1..] == parts;
  }

  lemma {:induction false} JoinOfSplit(s: string, sep: char)
    ensures Join(Split(s, sep), sep) == s
  {
    if s != "" {
      hide Join, Split;
      JoinOfSplit(s[1..], sep);
      SplitCons(s[0], s[1..], sep);
      JoinCons(s[0], Split(s[1..], sep), sep);
      assert s == [s[0]] + s[1..];
    }
  }

  lemma {:induction false} SplitHasNoSeparator(s: string, sep: char)
    ensures forall p | p in Split(s, sep) :: sep !in p
  {
    if s != "" {
      SplitHasNoSeparator(s[1..], sep);
    }
  }

  lemma {:induction false} SplitOfPlain(s: string, sep: char)
    requires sep !in s
    ensures Split(s, sep) == [s]
  {
    if s != "" {
      SplitOfPlain(s[1..], sep);
      assert s == [s[0]] + s[1..];
    }
  }

  lemma ConsDistributes(c: char, p: seq<string>, q: seq<string>)
    requires p != []
    ensures [[c] + (p + q)[0]] + (p + q)[1..] == ([[c] + p[0]] + p[1..]) + q
  {
    assert (p + q)[1..] == p[1..] + q;
  }

  lemma FirstCharacter(a: string, sep: char, b: string)
    requires a != ""
    ensures a == [a[0]] + a[1..] && a + [sep] + b == [a[0]] + (a[1..] + [sep] + b)
  {
  }

  /** Splitting distributes over a separator. */
  lemma {:induction false} SplitAtSeparator(a: string, b: string, sep: char)
    ensures Split(a + [sep] + b, sep) == Split(a, sep) + Split(b, sep)
  {
    if a == "" {
      SplitCons(sep, b, sep);
      assert a + [sep] + b == [sep] + b;
    } else {
      hide Split;
      SplitAtSeparator(a[1..], b, sep);
      FirstCharacter(a, sep, b);
      SplitFurther(a[0], a[1..], a[1..] + [sep] + b, Split(b, sep), sep);
    }
  }

  lemma SplitFurther(c: char, t: string, u: string, rest: seq<string>, sep: char)
    requires Split(u, sep) == Split(t, sep) + rest
    ensures Split([c] + u, sep) == Split([c] + t, sep) + rest
  {
    hide Split;
    SplitCons(c, t, sep);
    SplitCons(c, u, sep);
    ConsDistributes(c, Split(t, sep), rest);
  }

  lemma {:induction false} SplitOfJoin(parts: seq<string>, sep: char)
    requires parts != [] && forall p | p in parts :: sep !in p
    ensures Split(Join(parts, sep), sep) == parts
  {
    SplitOfPlain(parts[0], sep);
    if |parts| > 1 {
      SplitOfJoin(parts[1..], sep);
      SplitAtSeparator(parts[0], Join(parts[1..], sep), sep);
    }
  }

  lemma {:induction false} JoinAppend(front: seq<string>, last: string, sep: char)
    requires front != []
    ensures Join(front + [last], sep) == Join(front, sep) + [sep] + last
  {
    if |front| > 1 {
      assert (front + [last])[1..] == front[1..] + [last];
      JoinAppend(front[1..], last, sep);
    } else {
      assert (front + [last])[1..] == [last];
    }
  }

  lemma SingleSplit(s: string, sep: char)
    ensures |Split(s, sep)| == 1 <==> sep !in s
    ensures |Split(s, sep)| == 1 ==> Split(s, sep) == [s]
  {
    hide Split;
    if sep !in s {
      SplitOfPlain(s, sep);
    } else {
      var i :| 0 <= i < |s| && s[i] == sep;
      SplitAtSeparator(s[..i], s[i + 1..], sep);
      assert s == s[..i] + [sep] + s[i + 1..];
    }
  }

  /** Cutting at the last separator: everything before it joins back to a prefix. */
  lemma CutAtLastSeparator(s: string, sep: char)
    ensures var parts := Split(s, sep);
            && (|parts| > 1 ==> s == Join(parts[..|parts| - 1], sep) + [sep] + parts[|parts| - 1])
            && (|parts| == 1 ==> parts == [s])
            && (|parts| == 1 <==> sep !in s)
            && sep !in parts[|parts| - 1]
  {
    var parts := Split(s, sep);
    JoinOfSplit(s, sep);
    SplitHasNoSeparator(s, sep);
    assert parts[|parts| - 1] in parts;
    SingleSplit(s, sep);
    hide Split, Join;
    if |parts| > 1 {
      CutLast(parts, sep);
    }
  }

  lemma CutLast(parts: seq<string>, sep: char)
    requires |parts| > 1
    ensures Join(parts, sep) == Join(parts[..|parts| - 1], sep) + [sep] + parts[|parts| - 1]
  {
    hide Join;
    JoinAppend(parts[..|parts| - 1], parts[|parts| - 1], sep);
    assert parts == parts[..|parts| - 1] + [parts[|parts| - 1]];
  }

  // ---------------------------------------------------------------- decimal numbers

  function Digit(d: nat): char requires d < 10 {
    "0123456789"[d]
  }

  function Decimal(n: nat): string {
    if n < 10 then [Digit(n)] else Decimal(n / 10) + [Digit(n % 10)]
  }

  lemma DigitIs(d: nat)
    requires d < 10
    ensures Digit(d) as int == '0' as int + d
  {
    assert d == 0 || d == 1 || d == 2 || d == 3 || d == 4 || d == 5 || d == 6 || d == 7 || d == 8 || d == 9;
  }

  lemma {:induction false} DecimalDigits(n: nat)
    ensures Decimal(n) != [] && forall c | c in Decimal(n) :: '0' <= c <= '9'
  {
    DigitIs(n % 10);
    if n >= 10 { DecimalDigits(n / 10); }
  }

  lemma {:induction false} DecimalInjective(m: nat, n: nat)
    requires Decimal(m) == Decimal(n)
    ensures m == n
  {
    var a, b := Decimal(m), Decimal(n);
    assert a[|a| - 1] == Digit(m % 10) && b[|b| - 1] == Digit(n % 10);
    if m >= 10 { DecimalDigits(m / 10); }
    if n >= 10 { DecimalDigits(n / 10); }
    if m >= 10 && n >= 10 {
      assert a[..|a| - 1] == Decimal(m / 10) && b[..|b| - 1] == Decimal(n / 10);
      DecimalInjective(m / 10, n / 10);
    }
  }
}
