/** Setting a value at a dotted path of nested maps and arrays: the meaning of a path, the
    effect of a set, and the laws that reads and sets obey. */
module ValuesPath {
  import opened Text
  import opened Options

  /** A nested value; scalars of any type are leaves. */
  datatype Node = Null | Leaf(value: int) | Obj(fields: map<string, Node>) | Arr(items: seq<Node>)

  /** One part of a path. A part with a bracket whose index is not a number stops the set. */
  datatype Step = Key(key: string) | Index(key: string, index: nat) | Bad

  // ---------------------------------------------------------------- paths

  function DigitsValue(s: string): (r: Option<nat>) {
    if s == "" then None
    else
      var last := s[|s| - 1];
      if !('0' <= last <= '9') then None
      else
        var d := last as int - '0' as int;
        if |s| == 1 then Some(d)
        else match DigitsValue(s[..|s| - 1])
          case None => None
          case Some(n) => Some(10 * n + d)
  }

  /** strconv.Atoi with 64-bit integers. */
  function Atoi(s: string): Option<int> {
    var negative := s != "" && s[0] == '-';
    var digits := if s != "" && (s[0] == '-' || s[0] == '+') then s[1..] else s;
    match DigitsValue(digits)
    case None => None
    case Some(n) =>
      if negative then (if n <= 0x8000_0000_0000_0000 then Some(-(n as int)) else None)
      else if n < 0x8000_0000_0000_0000 then Some(n) else None
  }

  function IndexOf(s: string, c: char): (i: nat)
    ensures i <= |s| && (i < |s| ==> s[i] == c) && c !in s[..i]
  {
    if s == "" || s[0] == c then 0 else 1 + IndexOf(s[1..], c)
  }

  /** What lies between the bracket and the last character, which is taken for the closing one. */
  function IndexText(part: string): string
    requires IndexOf(part, '[') + 2 <= |part|
  {
    part[IndexOf(part, '[') + 1..|part| - 1]
  }

  /** The number in brackets. Strings are cut by bytes, so that a last character outside ASCII
      leaves bytes behind that are no digits. */
  function IndexNumber(part: string): Option<int>
    requires IndexOf(part, '[') + 2 <= |part|
  {
    if part[|part| - 1] as int < 0x80 then Atoi(IndexText(part)) else None
  }

  /** A part on which the set does not panic: an open bracket is followed by at least one
      character, and a number in brackets is not negative. */
  predicate PartOk(part: string) {
    '[' in part ==>
      && IndexOf(part, '[') + 2 <= |part|
      && (IndexNumber(part).Some? ==> IndexNumber(part).value >= 0)
  }

  function ParsePart(part: string): Step
    requires PartOk(part)
  {
    if '[' !in part then Key(part)
    else match IndexNumber(part)
      case None => Bad
      case Some(n) => Index(part[..IndexOf(part, '[')], n)
  }

  ghost predicate PathOk(path: string) {
    forall p | p in Split(path, '.') :: PartOk(p)
  }

  ghost function ParseParts(parts: seq<string>): (steps: seq<Step>)
    requires forall p | p in parts :: PartOk(p)
    ensures |steps| == |parts| && forall i | 0 <= i < |parts| :: steps[i] == ParsePart(parts[i])
  {
    seq(|parts|, i requires 0 <= i < |parts| => ParsePart(parts[i]))
  }

  ghost function Steps(path: string): (steps: seq<Step>)
    requires PathOk(path)
    ensures steps != []
  {
    ParseParts(Split(path, '.'))
  }

  // ---------------------------------------------------------------- reading and setting

  function Get(fields: map<string, Node>, k: string): Node {
    if k in fields then fields[k] else Null
  }

  /** The fields of an object; anything else is replaced by an empty object. */
  function FieldsOf(n: Node): map<string, Node> {
    if n.Obj? then n.fields else map[]
  }

  function ItemsOf(n: Node): seq<Node> {
    if n.Arr? then n.items else []
  }

  /** The items, extended with nulls so that index i exists. */
  function Extend(items: seq<Node>, i: nat): (r: seq<Node>)
    ensures |r| > i && items <= r
  {
    if |items| <= i then items + seq(i + 1 - |items|, _ => Null) else items
  }

  /** The value at one step; Null stands for an absent value and for one behind a value of
      the wrong type. */
  function GetStep(fields: map<string, Node>, step: Step): Node {
    match step
    case Bad => Null
    case Key(k) => Get(fields, k)
    case Index(k, i) =>
      var items := ItemsOf(Get(fields, k));
      if i < |items| then items[i] else Null
  }

  function PutItem(items: seq<Node>, i: nat, n: Node): seq<Node> {
    Extend(items, i)[i := n]
  }

  /** Puts a value at one step, making or extending the array if there is an index. */
  function SetStep(fields: map<string, Node>, step: Step, n: Node): map<string, Node> {
    match step
    case Bad => fields
    case Key(k) => fields[k := n]
    case Index(k, i) => fields[k := Arr(PutItem(ItemsOf(Get(fields, k)), i, n))]
  }

  function Set(fields: map<string, Node>, steps: seq<Step>, value: Node): map<string, Node>
    requires steps != []
    decreases |steps|
  {
    if steps[0].Bad? then fields
    else if |steps| == 1 then SetStep(fields, steps[0], value)
    else SetStep(fields, steps[0], Obj(Set(FieldsOf(GetStep(fields, steps[0])), steps[1..], value)))
  }

  function Read(fields: map<string, Node>, steps: seq<Step>): Node
    requires steps != []
    decreases |steps|
  {
    if |steps| == 1 then GetStep(fields, steps[0])
    else Read(FieldsOf(GetStep(fields, steps[0])), steps[1..])
  }

  ghost predicate NumericPath(steps: seq<Step>) {
    steps != [] && forall s | s in steps :: !s.Bad?
  }

  /** Different base keys, or different indices under the same key. */
  ghost predicate Apart(s: Step, t: Step) {
    && !s.Bad? && !t.Bad?
    && (s.key != t.key || (s.Index? && t.Index? && s.index != t.index))
  }

  /** The paths part at some step before either ends. */
  ghost predicate Diverge(s: seq<Step>, t: seq<Step>) {
    s != [] && t != [] && if s[0] == t[0] then Diverge(s[1..], t[1..]) else Apart(s[0], t[0])
  }

  // ---------------------------------------------------------------- the laws of one step

  lemma StepLaws(fields: map<string, Node>, s: Step, n: Node, m: Node)
    requires !s.Bad?
    ensures GetStep(SetStep(fields, s, n), s) == n
    ensures SetStep(SetStep(fields, s, n), s, m) == SetStep(fields, s, m)
  {
    if s.Index? {
      var items := ItemsOf(Get(fields, s.key));
      assert PutItem(PutItem(items, s.index, n), s.index, m) == PutItem(items, s.index, m);
    }
  }

  lemma ItemsApart(items: seq<Node>, i: nat, j: nat, n: Node, m: Node)
    requires i != j
    ensures PutItem(PutItem(items, i, n), j, m) == PutItem(PutItem(items, j, m), i, n)
    ensures var after := PutItem(items, i, n);
            (if j < |after| then after[j] else Null) == (if j < |items| then items[j] else Null)
  {
  }

  lemma StepsApart(fields: map<string, Node>, s: Step, t: Step, n: Node, m: Node)
    requires Apart(s, t)
    ensures GetStep(SetStep(fields, s, n), t) == GetStep(fields, t)
    ensures SetStep(SetStep(fields, s, n), t, m) == SetStep(SetStep(fields, t, m), s, n)
  {
    if s.key == t.key {
      SameKeyApart(fields, s, t, n, m);
    } else {
      StepIsPut(fields, s, n);
      StepIsPut(fields, t, m);
      StepIsPut(SetStep(fields, s, n), t, m);
      StepIsPut(SetStep(fields, t, m), s, n);
      hide SetStep, Held, ItemsOf;
      PutsApart(fields, s.key, t.key, Held(Get(fields, s.key), s, n), Held(Get(fields, t.key), t, m));
    }
  }

  /** What a step leaves under its key. */
  function Held(before: Node, step: Step, n: Node): Node {
    if step.Index? then Arr(PutItem(ItemsOf(before), step.index, n)) else n
  }

  lemma StepIsPut(fields: map<string, Node>, s: Step, n: Node)
    requires !s.Bad?
    ensures SetStep(fields, s, n) == fields[s.key := Held(Get(fields, s.key), s, n)]
  {
    hide PutItem, ItemsOf;
  }

  lemma PutsApart(fields: map<string, Node>, j: string, k: string, a: Node, b: Node)
    requires j != k
    ensures fields[j := a][k := b] == fields[k := b][j := a]
    ensures Get(fields[j := a], k) == Get(fields, k) && Get(fields[k := b], j) == Get(fields, j)
  {
  }

  lemma SameKeyApart(fields: map<string, Node>, s: Step, t: Step, n: Node, m: Node)
    requires Apart(s, t) && s.key == t.key
    ensures GetStep(SetStep(fields, s, n), t) == GetStep(fields, t)
    ensures SetStep(SetStep(fields, s, n), t, m) == SetStep(SetStep(fields, t, m), s, n)
  {
    var items := ItemsOf(Get(fields, s.key));
    ItemsApart(items, s.index, t.index, n, m);
    hide PutItem;
  }

  // ---------------------------------------------------------------- the laws of paths

  /** Reading the path back gives the value that was set. */
  lemma {:induction false} ReadAfterSet(fields: map<string, Node>, steps: seq<Step>, value: Node)
    requires NumericPath(steps)
    ensures Read(Set(fields, steps, value), steps) == value
    decreases |steps|
  {
    hide GetStep, SetStep;
    assert steps[0] in steps;
    if |steps| == 1 {
      StepLaws(fields, steps[0], value, Null);
    } else {
      var below := FieldsOf(GetStep(fields, steps[0]));
      ReadAfterSet(below, steps[1..], value);
      StepLaws(fields, steps[0], Obj(Set(below, steps[1..], value)), Null);
    }
  }

  /** A second set at the same path hides the first. */
  lemma {:induction false} SetAfterSet(fields: map<string, Node>, steps: seq<Step>, v: Node, w: Node)
    requires steps != []
    ensures Set(Set(fields, steps, v), steps, w) == Set(fields, steps, w)
    decreases |steps|
  {
    hide GetStep, SetStep;
    if !steps[0].Bad? {
      if |steps| == 1 {
        StepLaws(fields, steps[0], v, w);
      } else {
        var below := FieldsOf(GetStep(fields, steps[0]));
        SetAfterSet(below, steps[1..], v, w);
        StepLaws(fields, steps[0], Obj(Set(below, steps[1..], v)), Obj(Set(below, steps[1..], w)));
      }
    }
  }

  /** The value that a set puts at the first step of its path. */
  function Below(fields: map<string, Node>, steps: seq<Step>, value: Node): Node
    requires steps != []
  {
    if |steps| == 1 then value else Obj(Set(FieldsOf(GetStep(fields, steps[0])), steps[1..], value))
  }

  /** A set leaves every diverging path as it was, also when it extends an array or replaces
      a value of the wrong type on the way. */
  lemma {:induction false} ReadElsewhere(fields: map<string, Node>, s: seq<Step>, t: seq<Step>, v: Node)
    requires Diverge(s, t)
    ensures Read(Set(fields, s, v), t) == Read(fields, t)
    decreases |s|
  {
    hide GetStep, SetStep;
    if !s[0].Bad? {
      if s[0] == t[0] {
        ReadElsewhere(FieldsOf(GetStep(fields, s[0])), s[1..], t[1..], v);
        StepLaws(fields, s[0], Below(fields, s, v), Null);
      } else {
        StepsApart(fields, s[0], t[0], Below(fields, s, v), Null);
      }
    }
  }

  /** Sets at diverging paths commute. */
  lemma {:induction false} SetsCommute(fields: map<string, Node>, s: seq<Step>, t: seq<Step>, v: Node, w: Node)
    requires Diverge(s, t)
    ensures Set(Set(fields, s, v), t, w) == Set(Set(fields, t, w), s, v)
    decreases |s|
  {
    hide GetStep, SetStep;
    if !s[0].Bad? {
      if s[0] == t[0] {
        var below := FieldsOf(GetStep(fields, s[0]));
        SetsCommute(below, s[1..], t[1..], v, w);
        StepLaws(fields, s[0], Below(fields, s, v), Obj(Set(Set(below, s[1..], v), t[1..], w)));
        StepLaws(fields, s[0], Below(fields, t, w), Obj(Set(Set(below, s[1..], v), t[1..], w)));
      } else {
        var n, m := Below(fields, s, v), Below(fields, t, w);
        StepsApart(fields, s[0], t[0], n, m);
        StepsApart(fields, t[0], s[0], m, n);
      }
    }
  }
}
