/** How paths are written: which texts are numbers, and which steps the parts of a path stand for. */
module ValuesSyntax {
  import opened Text
  import opened Options
  import opened ValuesPath

  // ---------------------------------------------------------------- numbers

  function Zeros(k: nat): string {
    seq(k, i requires 0 <= i < k => '0')
  }

  /** The text is the decimal writing of n, possibly after zeros. */
  ghost predicate Writes(s: string, n: nat) {
    |Decimal(n)| <= |s| && s == Zeros(|s| - |Decimal(n)|) + Decimal(n)
  }

  lemma ZeroWrites(s: string)
    requires Writes(s, 0)
    ensures s == Zeros(|s|)
  {
    assert Decimal(0) == "0";
  }

  /** One more digit. */
  lemma WritesMore(s: string, n: nat, d: nat)
    requires d < 10 && Writes(s, n)
    ensures Writes(s + [Digit(d)], 10 * n + d)
  {
    var more := s + [Digit(d)];
    if n == 0 {
      ZeroWrites(s);
      assert Decimal(d) == [Digit(d)];
      assert more == Zeros(|more| - 1) + Decimal(d);
    } else {
      assert (10 * n + d) / 10 == n && (10 * n + d) % 10 == d;
      assert Decimal(10 * n + d) == Decimal(n) + [Digit(d)];
      assert more == Zeros(|s| - |Decimal(n)|) + Decimal(10 * n + d);
    }
  }

  /** Without its last digit. */
  lemma WritesLess(s: string, n: nat)
    requires Writes(s, n) && |s| > 1
    ensures s[|s| - 1] == Digit(n % 10) && Writes(s[..|s| - 1], n / 10)
  {
    DecimalDigits(n);
    var front := s[..|s| - 1];
    if n < 10 {
      assert front == Zeros(|front|);
      assert Zeros(|front|) == Zeros(|front| - 1) + Decimal(0);
    } else {
      assert front == Zeros(|s| - |Decimal(n)|) + Decimal(n / 10);
    }
  }

  lemma DigitOf(c: char)
    requires '0' <= c <= '9'
    ensures Digit(c as int - '0' as int) == c
  {
    DigitIs(c as int - '0' as int);
  }

  lemma OneDigitWrites(s: string, d: nat)
    requires d < 10 && s == [Digit(d)]
    ensures Writes(s, d)
  {
    assert s == Decimal(d) && s == Zeros(0) + Decimal(d);
  }

  lemma {:induction false} ValueIsWritten(s: string)
    requires DigitsValue(s).Some?
    ensures Writes(s, DigitsValue(s).value)
  {
    var last := s[|s| - 1];
    var d := last as int - '0' as int;
    DigitOf(last);
    if |s| == 1 {
      OneDigitWrites(s, d);
    } else {
      hide Writes, Decimal, Digit;
      ValueIsWritten(s[..|s| - 1]);
      WritesMore(s[..|s| - 1], DigitsValue(s[..|s| - 1]).value, d);
      assert s == s[..|s| - 1] + [last];
    }
  }

  lemma {:induction false} WrittenHasValue(s: string, n: nat)
    requires Writes(s, n)
    ensures DigitsValue(s) == Some(n)
    decreases |s|
  {
    DecimalDigits(n);
    DigitIs(n % 10);
    ShortDecimal(n);
    if |s| > 1 {
      WritesLess(s, n);
      hide Writes, Decimal, Digit;
      WrittenHasValue(s[..|s| - 1], n / 10);
    } else {
      assert s == [Digit(n % 10)];
      hide Writes, Decimal, Digit;
    }
  }

  lemma ShortDecimal(n: nat)
    ensures n >= 10 ==> |Decimal(n)| > 1
  {
    if n >= 10 {
      DecimalDigits(n / 10);
    }
  }

  /** A text has a value exactly if it writes that number. */
  lemma ValueExactly(s: string, n: nat)
    ensures DigitsValue(s) == Some(n) <==> Writes(s, n)
  {
    if DigitsValue(s).Some? {
      ValueIsWritten(s);
    }
    if Writes(s, n) {
      WrittenHasValue(s, n);
    }
  }

  /** Numbers are written with an optional sign, and fit into 64 bits. */
  ghost predicate WritesInt(s: string, z: int) {
    && -0x8000_0000_0000_0000 <= z < 0x8000_0000_0000_0000
    && if s != "" && s[0] == '-' then z <= 0 && Writes(s[1..], -z)
       else z >= 0 && Writes(if s != "" && s[0] == '+' then s[1..] else s, z)
  }

  lemma NumberExactly(s: string, z: int)
    ensures Atoi(s) == Some(z) <==> WritesInt(s, z)
  {
    hide Writes, DigitsValue;
    var negative := s != "" && s[0] == '-';
    var digits := if s != "" && (s[0] == '-' || s[0] == '+') then s[1..] else s;
    forall n: nat ensures DigitsValue(digits) == Some(n) <==> Writes(digits, n) {
      ValueExactly(digits, n);
    }
  }

  lemma DecimalIsNumber(n: nat)
    requires n < 0x8000_0000_0000_0000
    ensures Atoi(Decimal(n)) == Some(n)
  {
    var s := Decimal(n);
    DecimalDigits(n);
    assert s[0] in s;
    assert Writes(s, n) by {
      assert Zeros(0) + s == s;
    }
    hide Decimal, Writes, Atoi;
    NumberExactly(s, n);
  }

  // ---------------------------------------------------------------- parts

  lemma {:induction false} IndexOfBracket(base: string, rest: string)
    requires '[' !in base
    ensures IndexOf(base + "[" + rest, '[') == |base|
  {
    var s := base + "[" + rest;
    var i := IndexOf(s, '[');
    assert s[|base|] == '[';
    assert i <= |base| by {
      assert forall k | 0 <= k < i :: s[..i][k] != '[';
    }
    assert forall k | 0 <= k < |base| :: s[k] == base[k] && base[k] in base;
  }

  /** A part with a bracket names an element if what stands between the bracket and the last
      character is a number, and nothing otherwise. */
  lemma BracketedPart(base: string, text: string, close: char)
    requires '[' !in base && close as int < 0x80
    ensures var part := base + "[" + text + [close];
            && (PartOk(part) <==> forall z | WritesInt(text, z) :: z >= 0)
            && (PartOk(part) ==>
                  match ParsePart(part)
                  case Key(_) => false
                  case Index(key, n) => key == base && WritesInt(text, n)
                  case Bad => forall z :: !WritesInt(text, z))
  {
    var part := base + "[" + text + [close];
    assert part == base + "[" + (text + [close]);
    IndexOfBracket(base, text + [close]);
    assert part[|base|] == '[';
    assert IndexText(part) == text;
    assert part[..|base|] == base;
    forall z ensures Atoi(text) == Some(z) <==> WritesInt(text, z) {
      NumberExactly(text, z);
    }
    hide Atoi, WritesInt, IndexOf;
    assert part[|part| - 1] == close;
    assert IndexNumber(part) == Atoi(text);
  }

  // ---------------------------------------------------------------- paths

  /** How a step is written. */
  function Written(step: Step): string
    requires !step.Bad?
  {
    match step
    case Key(key) => key
    case Index(key, n) => key + "[" + Decimal(n) + "]"
  }

  /** Keys hold neither dots nor brackets, and indices fit into 64 bits. */
  predicate Writable(step: Step) {
    match step
    case Key(key) => '.' !in key && '[' !in key
    case Index(key, n) => '.' !in key && '[' !in key && n < 0x8000_0000_0000_0000
    case Bad => false
  }

  lemma WrittenIsParsed(step: Step)
    requires Writable(step)
    ensures PartOk(Written(step)) && ParsePart(Written(step)) == step && '.' !in Written(step)
  {
    if step.Index? {
      var text := Decimal(step.index);
      DecimalDigits(step.index);
      DecimalIsNumber(step.index);
      assert '.' !in text;
      hide Atoi, WritesInt, Decimal, PartOk, ParsePart;
      forall z ensures Atoi(text) == Some(z) <==> WritesInt(text, z) {
        NumberExactly(text, z);
      }
      BracketedPart(step.key, text, ']');
      assert text + "]" == text + [']'];
      assert step.key + "[" + text + [']'] == Written(step);
    }
  }

  function WrittenPath(steps: seq<Step>): string
    requires forall s | s in steps :: Writable(s)
  {
    Join(seq(|steps|, i requires 0 <= i < |steps| => assert Writable(steps[i]); Written(steps[i])), '.')
  }

  /** The steps of a path that is written from steps are these steps. */
  lemma StepsOfWritten(steps: seq<Step>)
    requires steps != [] && forall s | s in steps :: Writable(s)
    ensures PathOk(WrittenPath(steps)) && Steps(WrittenPath(steps)) == steps
  {
    var parts := seq(|steps|, i requires 0 <= i < |steps| => assert Writable(steps[i]); Written(steps[i]));
    assert WrittenPath(steps) == Join(parts, '.');
    hide Written, PartOk, ParsePart;
    forall i | 0 <= i < |parts| ensures PartOk(parts[i]) && ParsePart(parts[i]) == steps[i] && '.' !in parts[i] {
      assert steps[i] in steps;
      WrittenIsParsed(steps[i]);
    }
    SplitOfJoin(parts, '.');
  }

  // ---------------------------------------------------------------- what a set leaves behind

  ghost predicate SameElsewhere(before: map<string, Node>, after: map<string, Node>, key: string) {
    && key in after && after.Keys == before.Keys + {key}
    && forall k | k in before && k != key :: after[k] == before[k]
  }

  /** An array long enough for the index, the old one where there was one, filled up with nulls. */
  ghost predicate SameItemsElsewhere(before: Node, after: Node, index: nat) {
    && after.Arr? && |after.items| == (if before.Arr? && |before.items| > index then |before.items| else index + 1)
    && forall j | 0 <= j < |after.items| && j != index ::
         after.items[j] == if before.Arr? && j < |before.items| then before.items[j] else Null
  }

  /** The node that a set along the path makes of another: the value itself at the end, and
      otherwise an object, the old one where there was one. */
  ghost predicate IsSet(before: Node, after: Node, steps: seq<Step>, value: Node)
    decreases |steps|
  {
    if steps == [] then after == value
    else
      var fields := if before.Obj? then before.fields else map[];
      && after.Obj?
      && match steps[0]
         case Bad => after.fields == fields
         case Key(key) =>
           && SameElsewhere(fields, after.fields, key)
           && IsSet(if key in fields then fields[key] else Null, after.fields[key], steps[1..], value)
         case Index(key, i) =>
           && SameElsewhere(fields, after.fields, key)
           && var was := if key in fields then fields[key] else Null;
           && SameItemsElsewhere(was, after.fields[key], i)
           && IsSet(if was.Arr? && i < |was.items| then was.items[i] else Null, after.fields[key].items[i],
                    steps[1..], value)
  }

  /** A set is exactly that. */
  lemma {:induction false} SetExactly(fields: map<string, Node>, steps: seq<Step>, value: Node)
    requires steps != []
    ensures IsSet(Obj(fields), Obj(Set(fields, steps, value)), steps, value)
    decreases |steps|
  {
    if steps[0].Bad? {
      assert Set(fields, steps, value) == fields;
    } else if |steps| == 1 {
      assert IsSet(GetStep(fields, steps[0]), value, steps[1..], value);
      StepExactly(fields, steps, value, value);
    } else {
      var below := GetStep(fields, steps[0]);
      var n := Obj(Set(FieldsOf(below), steps[1..], value));
      SetExactly(FieldsOf(below), steps[1..], value);
      hide IsSet, GetStep, SetStep;
      SetReplaces(below, n, steps[1..], value);
      StepExactly(fields, steps, n, value);
    }
  }

  lemma StepExactly(fields: map<string, Node>, steps: seq<Step>, n: Node, value: Node)
    requires steps != [] && !steps[0].Bad? && IsSet(GetStep(fields, steps[0]), n, steps[1..], value)
    ensures IsSet(Obj(fields), Obj(SetStep(fields, steps[0], n)), steps, value)
  {
    var key := steps[0].key;
    var after := SetStep(fields, steps[0], n);
    var was := if key in fields then fields[key] else Null;
    assert SameElsewhere(fields, after, key);
    if steps[0].Index? {
      assert GetStep(fields, steps[0]) == if was.Arr?
        && steps[0].index < |was.items| then was.items[steps[0].index] else Null;
      ItemPut(was, steps[0].index, n);
      assert after[key] == Arr(PutItem(ItemsOf(was), steps[0].index, n));
    }
    hide SameElsewhere, SameItemsElsewhere, PutItem, ItemsOf, GetStep, SetStep;
  }

  lemma ItemPut(was: Node, i: nat, n: Node)
    ensures var after := Arr(PutItem(ItemsOf(was), i, n)); SameItemsElsewhere(was, after, i) && after.items[i] == n
  {
  }

  /** What is not an object counts as an empty one. */
  lemma SetReplaces(before: Node, after: Node, steps: seq<Step>, value: Node)
    requires steps != [] && IsSet(Obj(FieldsOf(before)), after, steps, value)
    ensures IsSet(before, after, steps, value)
  {
  }

  /** There is only one such node. */
  lemma {:induction false} SetIsUnique(before: Node, a: Node, b: Node, steps: seq<Step>, value: Node)
    requires IsSet(before, a, steps, value) && IsSet(before, b, steps, value)
    ensures a == b
    decreases |steps|
  {
    if steps != [] && !steps[0].Bad? {
      var key := steps[0].key;
      var fields := if before.Obj? then before.fields else map[];
      var was := if key in fields then fields[key] else Null;
      if steps[0].Key? {
        SetIsUnique(was, a.fields[key], b.fields[key], steps[1..], value);
      } else {
        var i := steps[0].index;
        SetIsUnique(if was.Arr? && i < |was.items| then was.items[i] else Null, a.fields[key].items[i],
                    b.fields[key].items[i], steps[1..], value);
        assert a.fields[key].items == b.fields[key].items;
      }
      assert a.fields == b.fields;
    }
  }
}
