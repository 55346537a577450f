/** Removing the indentation that all lines of a text share. */
module Indentation {
  import opened Text

  predicate IsIndent(c: char) {
    c == ' ' || c == '\t'
  }

  predicate Blank(line: string) {
    TrimSpace(line) == ""
  }

  /** The number of leading spaces and tabs. */
  function Indent(line: string): (n: nat)
    ensures n <= |line| && (forall i | 0 <= i < n :: IsIndent(line[i])) && (n < |line| ==> !IsIndent(line[n]))
  {
    if line == "" || !IsIndent(line[0]) then 0 else 1 + Indent(line[1..])
  }

  /** What is left of a line once n leading characters are gone. */
  function Dedent(line: string, n: nat): string {
    if Blank(line) || |line| < n then "" else line[n..]
  }

  function DedentAll(lines: seq<string>, n: nat): (r: seq<string>)
    ensures |r| == |lines| && forall i | 0 <= i < |r| :: r[i] == Dedent(lines[i], n)
  {
    seq(|lines|, i requires 0 <= i < |lines| => Dedent(lines[i], n))
  }

  /** The least indentation of the lines that are not blank, from one line up to another. */
  ghost predicate IsCommonIndent(lines: seq<string>, start: nat, end: nat, n: nat)
    requires start <= end <= |lines|
  {
    && (forall i | start <= i < end && !Blank(lines[i]) :: n <= Indent(lines[i]))
    && exists i :: start <= i < end && !Blank(lines[i]) && Indent(lines[i]) == n
  }

  ghost predicate AllBlank(lines: seq<string>, start: nat, end: nat)
    requires start <= end <= |lines|
  {
    forall i | start <= i < end :: Blank(lines[i])
  }

  /** The lines from the first that is not blank to the last. */
  ghost predicate IsBody(lines: seq<string>, start: nat, end: nat) {
    && start < end <= |lines| && AllBlank(lines, 0, start) && AllBlank(lines, end, |lines|)
    && !Blank(lines[start]) && !Blank(lines[end - 1])
  }

  ghost predicate IsDedentedFrom(s: string, r: string, start: nat, end: nat, n: nat) {
    var lines := Split(s, '\n');
    && IsBody(lines, start, end) && IsCommonIndent(lines, start, end, n)
    && r == Join(DedentAll(lines[start..end], n), '\n')
  }

  /** The text without blank lines at either end and without the indentation that its
      other lines share. */
  ghost predicate IsDedented(s: string, r: string) {
    var lines := Split(s, '\n');
    if AllBlank(lines, 0, |lines|) then r == ""
    else exists start, end, n :: IsDedentedFrom(s, r, start, end, n)
  }

  // ---------------------------------------------------------------- lines

  lemma BlankExactly(line: string)
    ensures Blank(line) <==> forall i | 0 <= i < |line| :: IsSpace(line[i])
  {
    TrimEnds(line, IsSpace);
  }

  /** A line that is not blank has a character that no dedent takes. */
  lemma IndentOfText(line: string)
    requires !Blank(line)
    ensures Indent(line) < |line|
  {
    BlankExactly(line);
  }

  lemma OnlySpaceBefore(line: string, n: nat)
    requires n <= |line| && (forall i | 0 <= i < n :: IsIndent(line[i]))
    requires forall i | 0 <= i < |line[n..]| :: IsSpace(line[n..][i])
    ensures forall i | 0 <= i < |line| :: IsSpace(line[i])
  {
    forall i | 0 <= i < |line| ensures IsSpace(line[i]) {
      if i >= n { assert line[i] == line[n..][i - n]; }
    }
  }

  lemma TextSurvives(line: string, n: nat)
    requires !Blank(line) && n <= Indent(line)
    ensures !Blank(line[n..])
  {
    hide *;
    BlankExactly(line);
    BlankExactly(line[n..]);
    if Blank(line[n..]) {
      OnlySpaceBefore(line, n);
    }
  }

  lemma DedentedLine(line: string, n: nat)
    requires !Blank(line) && n <= Indent(line)
    ensures !Blank(Dedent(line, n)) && Indent(Dedent(line, n)) == Indent(line) - n
  {
    TextSurvives(line, n);
    IndentOfText(line);
    hide Blank, Indent;
    IndentIs(line[n..], Indent(line) - n);
  }

  lemma {:induction false} IndentIs(line: string, n: nat)
    requires n < |line| && (forall i | 0 <= i < n :: IsIndent(line[i])) && !IsIndent(line[n])
    ensures Indent(line) == n
  {
  }

  // ---------------------------------------------------------------- the removal

  /** Counts the leading spaces and tabs of a line. */
  method CountIndent(line: string) returns (indent: nat)
    ensures indent == Indent(line)
  {
    indent := 0;
    while indent < |line| && IsIndent(line[indent])
      invariant indent <= |line| && forall i | 0 <= i < indent :: IsIndent(line[i])
    {
      indent := indent + 1;
    }
    IndentEnds(line, indent);
  }

  lemma {:induction false} IndentEnds(line: string, n: nat)
    requires n <= |line| && (forall i | 0 <= i < n :: IsIndent(line[i])) && (n < |line| ==> !IsIndent(line[n]))
    ensures Indent(line) == n
  {
  }

  /** The least indentation of the lines that are not blank; -1 if all are. */
  method CommonIndent(lines: seq<string>) returns (minIndent: int)
    ensures minIndent == -1 <==> AllBlank(lines, 0, |lines|)
    ensures minIndent != -1 ==> minIndent >= 0 && IsCommonIndent(lines, 0, |lines|, minIndent)
  {
    hide Blank, Indent;
    minIndent := -1;
    for i := 0 to |lines|
      invariant minIndent == -1 <==> AllBlank(lines, 0, i)
      invariant minIndent != -1 ==> minIndent >= 0 && IsCommonIndent(lines, 0, i, minIndent)
    {
      if !Blank(lines[i]) {
        var indent := CountIndent(lines[i]);
        if minIndent == -1 || indent < minIndent {
          minIndent := indent;
        }
      }
    }
  }

  /** Cuts up to minIndent leading characters off a line, one at a time. */
  method Cut(line: string, minIndent: nat) returns (r: string)
    requires Blank(line) || minIndent <= Indent(line)
    ensures r == Dedent(line, minIndent)
  {
    if Blank(line) {
      return "";
    }
    IndentOfText(line);
    hide Blank;
    var removed, j, k := 0, 0, 0;
    while k < |line|
      invariant k == removed <= minIndent && j == 0
    {
      if removed >= minIndent || !IsIndent(line[k]) {
        j := k;
        break;
      }
      removed := removed + 1;
      k := k + 1;
    }
    if removed < minIndent {
      j := |line|;
    }
    r := line[j..];
  }

  lemma CommonIndentOfSlice(lines: seq<string>, start: nat, end: nat, n: nat)
    requires start <= end <= |lines|
    ensures IsCommonIndent(lines[start..end], 0, end - start, n) <==> IsCommonIndent(lines, start, end, n)
  {
    hide Blank, Indent;
    var body := lines[start..end];
    if IsCommonIndent(lines, start, end, n) {
      var i :| start <= i < end && !Blank(lines[i]) && Indent(lines[i]) == n;
      assert body[i - start] == lines[i];
    }
    if IsCommonIndent(body, 0, end - start, n) {
      forall i | start <= i < end && !Blank(lines[i]) ensures n <= Indent(lines[i]) {
        assert body[i - start] == lines[i];
      }
    }
  }

  /** Removes blank lines at both ends and the indentation that the other lines share. */
  method RemoveIndentation(s: string) returns (r: string)
    ensures IsDedented(s, r)
  {
    hide Blank, Indent, Dedent, IsCommonIndent, Split, Join;
    var lines := Split(s, '\n');
    var start, end := 0, |lines|;
    while start < |lines| && Blank(lines[start])
      invariant start <= |lines| && AllBlank(lines, 0, start)
    {
      start := start + 1;
    }
    while end > start && Blank(lines[end - 1])
      invariant start <= end <= |lines| && AllBlank(lines, end, |lines|)
    {
      end := end - 1;
    }
    if start >= end {
      return "";
    }
    var body := lines[start..end];
    assert body[0] == lines[start];
    var minIndent := CommonIndent(body);
    CommonIndentOfSlice(lines, start, end, minIndent);
    var result := CutBody(body, minIndent);
    r := Join(result, '\n');
    assert IsDedentedFrom(s, r, start, end, minIndent);
  }

  /** Dedents the lines by an indentation that they share. */
  method CutBody(body: seq<string>, minIndent: nat) returns (result: seq<string>)
    requires IsCommonIndent(body, 0, |body|, minIndent)
    ensures result == DedentAll(body, minIndent)
  {
    hide Blank, Indent, Dedent;
    result := [];
    for i := 0 to |body|
      invariant |result| == i && forall j | 0 <= j < i :: result[j] == Dedent(body[j], minIndent)
    {
      var line := Cut(body[i], minIndent);
      result := result + [line];
    }
  }

  // ---------------------------------------------------------------- what the removal keeps

  lemma BodyIsUnique(lines: seq<string>, start: nat, end: nat, start': nat, end': nat)
    requires IsBody(lines, start, end) && IsBody(lines, start', end')
    ensures start == start' && end == end' && start < end <= |lines|
  {
    hide Blank;
  }

  lemma CommonIndentIsUnique(lines: seq<string>, start: nat, end: nat, n: nat, m: nat)
    requires start <= end <= |lines| && IsCommonIndent(lines, start, end, n) && IsCommonIndent(lines, start, end, m)
    ensures n == m
  {
    hide Blank, Indent;
  }

  lemma TextMeansNotAllBlank(lines: seq<string>, start: nat, end: nat)
    requires IsBody(lines, start, end)
    ensures !AllBlank(lines, 0, |lines|)
  {
    hide Blank;
  }

  /** A text has only one dedented form. */
  lemma DedentedIsUnique(s: string, r: string, r': string)
    requires IsDedented(s, r) && IsDedented(s, r')
    ensures r == r'
  {
    hide Split, Join, AllBlank, IsBody, IsCommonIndent, DedentAll;
    var lines := Split(s, '\n');
    if !AllBlank(lines, 0, |lines|) {
      var start, end, n :| IsDedentedFrom(s, r, start, end, n);
      var start', end', n' :| IsDedentedFrom(s, r', start', end', n');
      BodyIsUnique(lines, start, end, start', end');
      CommonIndentIsUnique(lines, start, end, n, n');
    }
  }

  lemma LinesOfResult(s: string, r: string, start: nat, end: nat, n: nat)
    requires IsDedentedFrom(s, r, start, end, n)
    ensures Split(r, '\n') == DedentAll(Split(s, '\n')[start..end], n)
  {
    hide Split, Join, Blank, IsCommonIndent;
    var body := Split(s, '\n')[start..end];
    SplitHasNoSeparator(s, '\n');
    forall p | p in DedentAll(body, n) ensures '\n' !in p {
      var i :| 0 <= i < |body| && p == Dedent(body[i], n);
      assert body[i] in Split(s, '\n');
    }
    SplitOfJoin(DedentAll(body, n), '\n');
  }

  /** A line that is not blank loses n leading spaces and tabs and nothing else. */
  ghost predicate KeepsText(line: string, out: string, n: nat) {
    && Blank(out) == Blank(line)
    && (Blank(line) ==> out == "")
    && (!Blank(line) ==> n <= Indent(line) && out == line[n..] && Indent(out) == Indent(line) - n)
  }

  lemma BlankLineIsEmpty()
    ensures Blank("")
  {
  }

  lemma LineKeepsText(line: string, n: nat)
    requires !Blank(line) ==> n <= Indent(line)
    ensures KeepsText(line, Dedent(line, n), n)
  {
    BlankLineIsEmpty();
    if !Blank(line) {
      DedentedLine(line, n);
      hide Blank, Indent;
    }
  }

  /** Every line between the first and the last text keeps its text and its indentation
      relative to the others, and some line ends up without leading space or tab. */
  lemma RelativeIndentationKept(s: string, r: string, start: nat, end: nat, n: nat)
    requires IsDedentedFrom(s, r, start, end, n)
    ensures var (lines, outs) := (Split(s, '\n'), Split(r, '\n'));
            && |outs| == end - start
            && (forall i | 0 <= i < |outs| :: KeepsText(lines[start + i], outs[i], n))
            && exists i :: 0 <= i < |outs| && !Blank(outs[i]) && Indent(outs[i]) == 0
  {
    hide Split, Join, Blank, Indent, Dedent, KeepsText;
    var lines, outs := Split(s, '\n'), Split(r, '\n');
    LinesOfResult(s, r, start, end, n);
    forall i | 0 <= i < |outs| ensures KeepsText(lines[start + i], outs[i], n) {
      LineKeepsText(lines[start + i], n);
    }
    var i :| start <= i < end && !Blank(lines[i]) && Indent(lines[i]) == n;
    KeptMeans(lines[i], outs[i - start], n);
    assert outs[i - start] == outs[i - start];
  }

  lemma KeptMeans(line: string, out: string, n: nat)
    requires KeepsText(line, out, n)
    ensures Blank(out) == Blank(line) && (!Blank(line) ==> Indent(out) == Indent(line) - n)
  {
    hide Blank, Indent;
  }

  /** Dedenting a dedented text changes nothing. */
  lemma DedentedTwice(s: string, r: string)
    requires IsDedented(s, r)
    ensures IsDedented(r, r)
  {
    hide Split, Join, Blank, Indent, Dedent, KeepsText, IsDedentedFrom;
    var lines := Split(s, '\n');
    if AllBlank(lines, 0, |lines|) {
      EmptyIsDedented();
    } else {
      var start, end, n :| IsDedentedFrom(s, r, start, end, n);
      RelativeIndentationKept(s, r, start, end, n);
      DedentedAgain(s, r, start, end, n);
    }
  }

  lemma EmptyIsDedented()
    ensures IsDedented("", "")
  {
    assert Split("", '\n') == [""];
  }

  lemma DedentedAgain(s: string, r: string, start: nat, end: nat, n: nat)
    requires IsDedentedFrom(s, r, start, end, n)
    ensures IsDedentedFrom(r, r, 0, |Split(r, '\n')|, 0) && IsDedented(r, r)
  {
    hide Split, Join, Blank, Indent, Dedent, KeepsText;
    var lines, outs := Split(s, '\n'), Split(r, '\n');
    RelativeIndentationKept(s, r, start, end, n);
    KeptMeans(lines[start], outs[0], n);
    KeptMeans(lines[end - 1], outs[|outs| - 1], n);
    assert IsBody(outs, 0, |outs|);
    assert IsCommonIndent(outs, 0, |outs|, 0);
    forall i | 0 <= i < |outs| ensures Dedent(outs[i], 0) == outs[i] {
      NothingToCut(lines[start + i], outs[i], n);
    }
    assert outs[0..|outs|] == outs;
    assert DedentAll(outs, 0) == outs;
    JoinOfSplit(r, '\n');
    TextMeansNotAllBlank(outs, 0, |outs|);
    assert IsDedentedFrom(r, r, 0, |outs|, 0);
  }

  lemma NothingToCut(line: string, out: string, n: nat)
    requires KeepsText(line, out, n)
    ensures Dedent(out, 0) == out
  {
    hide Blank, Indent;
  }
}
