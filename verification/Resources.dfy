/** Resource names: normalisation to the label grammar of section 2.3.1 of RFC 1035,
    identifiers that carry a hash of their properties, and the way back from an identifier
    to its name. */
module Resources {
  import opened Text

  const RESOURCE := "Resource"
  const DEFAULT := "Default"
  const UNKNOWN := "unknown"

  predicate IsLetter(c: char) { 'a' <= c <= 'z' }

  predicate IsAlphanumeric(c: char) { IsLetter(c) || '0' <= c <= '9' }

  predicate IsLabelChar(c: char) { IsAlphanumeric(c) || c == '-' }

  predicate IsHexDigit(c: char) { '0' <= c <= '9' || 'a' <= c <= 'f' }

  /** Eight lowercase hexadecimal digits. */
  predicate IsHashHex(s: string) {
    |s| == 8 && forall c | c in s :: IsHexDigit(c)
  }

  /** A label: a letter, then letters, digits and hyphens, ending in a letter or digit; at
      most 63 characters in all. */
  predicate IsLabel(s: string) {
    && 1 <= |s| <= 63
    && IsLetter(s[0])
    && IsAlphanumeric(s[|s| - 1])
    && forall c | c in s :: IsLabelChar(c)
  }

  // ---------------------------------------------------------------- the FNV-1a hash

  const FNV_OFFSET: nat := 0xcbf29ce484222325
  const FNV_PRIME: nat := 0x100000001b3

  function FnvStep(h: nat, b: bv8): nat {
    var low := ((h % 256) as bv8 ^ b) as nat;
    ((h - h % 256 + low) * FNV_PRIME) % 0x1_0000_0000_0000_0000
  }

  function Fnv64a(bytes: seq<bv8>): nat {
    if bytes == [] then FNV_OFFSET else FnvStep(Fnv64a(bytes[..|bytes| - 1]), bytes[|bytes| - 1])
  }

  /** The last `digits` hexadecimal digits of n. */
  function Hex(n: nat, digits: nat): (r: string)
    ensures |r| == digits && forall c | c in r :: IsHexDigit(c)
  {
    if digits == 0 then "" else Hex(n / 16, digits - 1) + ["0123456789abcdef"[n % 16]]
  }

  function FnvHash(bytes: seq<bv8>): (r: string)
    ensures |r| == 16 && forall c | c in r :: IsHexDigit(c)
  {
    Hex(Fnv64a(bytes), 16)
  }

  function Bytes(s: string): seq<bv8> {
    seq(|s|, i requires 0 <= i < |s| => (s[i] as int % 256) as bv8)
  }

  // ---------------------------------------------------------------- cleaning

  /** unicode.ToLower, as far as the replacement of invalid characters can see it: the two
      characters outside ASCII whose lower case is an ASCII letter are the dotted capital I
      and the Kelvin sign. */
  function LowerChar(c: char): char {
    if 'A' <= c <= 'Z' then (c as int + 32) as char
    else if c as int == 0x130 then 'i'
    else if c as int == 0x212A then 'k'
    else c
  }

  function CleanChar(c: char): char {
    var l := LowerChar(c);
    if IsLabelChar(l) then l else '-'
  }

  function CleanChars(s: string): (r: string)
    ensures |r| == |s| && forall i | 0 <= i < |s| :: r[i] == CleanChar(s[i])
  {
    if s == "" then "" else [CleanChar(s[0])] + CleanChars(s[1..])
  }

  ghost predicate HasPair(s: string) {
    exists i :: 0 <= i < |s| - 1 && s[i] == '-' && s[i + 1] == '-'
  }

  /** Every run of hyphens becomes one hyphen. */
  function Collapse(s: string): string {
    if |s| < 2 then s
    else if s[0] == '-' && s[1] == '-' then Collapse(s[1..])
    else [s[0]] + Collapse(s[1..])
  }

  /** strings.ReplaceAll(s, "--", "-"): pairs are replaced from the left and do not overlap. */
  function ReplacePairs(s: string): string {
    if |s| < 2 then s
    else if s[0] == '-' && s[1] == '-' then "-" + ReplacePairs(s[2..])
    else [s[0]] + ReplacePairs(s[1..])
  }

  function Clean(id: string): string {
    Collapse(Trim(CleanChars(id), IsHyphen))
  }

  // ---------------------------------------------------------------- the label of an identifier

  /** Index of the first letter, or the length when there is none. */
  function FirstLetter(s: string): (k: nat)
    ensures k <= |s| && (forall i | 0 <= i < k :: !IsLetter(s[i])) && (k < |s| ==> IsLetter(s[k]))
  {
    if s == "" || IsLetter(s[0]) then 0 else 1 + FirstLetter(s[1..])
  }

  function StartWithLetter(prefix: string): string {
    var k := FirstLetter(prefix);
    if k < |prefix| || prefix == "" then prefix[k..]
    else UNKNOWN + "-" + FnvHash(Bytes(prefix))
  }

  /** The name before it is cut to length, from a non-empty cleaned identifier. */
  function Stem(c: string): string {
    var split := Split(c, '-');
    var parts := if |split| == 1 && IsHashHex(split[0]) then [UNKNOWN] + split else split;
    var front, last := Join(parts[..|parts| - 1], '-'), parts[|parts| - 1];
    if IsHashHex(last) then Trim(StartWithLetter(front) + "-" + last, IsHyphen)
    else Trim(StartWithLetter(front + "-" + last) + "-", IsHyphen)
  }

  /** Keeps the last 63 characters and makes them start with a letter. */
  function Clip(s: string): string {
    if |s| <= 63 then s
    else
      var tail := s[|s| - 63..];
      if IsLetter(tail[0]) then tail else "id-" + tail[3..]
  }

  function Label(id: string): string {
    var t := TrimSpace(id);
    if t == "" then UNKNOWN
    else if t == RESOURCE then "resource"
    else if t == DEFAULT then "default"
    else
      var c := Clean(t);
      if c == "" then UNKNOWN else Clip(Stem(c))
  }

  // ---------------------------------------------------------------- the imperative form

  method ToRFC1123(id: string) returns (result: string)
    ensures result == Label(id)
  {
    hide Stem, Collapse, CleanChars, Trim, TrimSpace, HasPair;
    var t := TrimSpace(id);
    if t == "" {
      return UNKNOWN;
    }
    if t == RESOURCE {
      return "resource";
    }
    if t == DEFAULT {
      return "default";
    }
    result := CleanChars(t);
    result := Trim(result, IsHyphen);
    result := CollapseHyphens(result);
    if result == "" {
      return UNKNOWN;
    }
    result := RejoinParts(result);
    if |result| <= 63 {
      return;
    }
    result := result[|result| - 63..];
    if result != "" && !IsLetter(result[0]) {
      result := "id-" + result[3..];
    }
  }

  /** Takes the cleaned name apart into prefix and hash, mends the prefix and puts them together again. */
  method RejoinParts(cleaned: string) returns (result: string)
    ensures result == Stem(cleaned)
  {
    hide Split, Join, Trim, IsHashHex, FnvHash, Bytes, FirstLetter;
    var parts := Split(cleaned, '-');
    if |parts| == 1 && IsHashHex(parts[0]) {
      parts := [UNKNOWN] + parts;
    }
    var prefix := Join(parts[..|parts| - 1], '-');
    var hash := parts[|parts| - 1];
    if !IsHashHex(hash) {
      prefix := prefix + "-" + hash;
      hash := "";
    }
    assert prefix[0..] == prefix;
    if prefix != "" && !IsLetter(prefix[0]) {
      var first := IndexOfLetter(prefix);
      if first == -1 {
        prefix := UNKNOWN + "-" + FnvHash(Bytes(prefix));
      } else {
        prefix := prefix[first..];
      }
    }
    result := prefix + "-" + hash;
    assert prefix + "-" + "" == prefix + "-";
    result := Trim(result, IsHyphen);
  }

  /** The replacement loop ends, and amounts to collapsing every run in one pass. */
  method CollapseHyphens(s: string) returns (r: string)
    ensures r == Collapse(s) && !HasPair(r)
  {
    r := s;
    var again := ContainsPair(r);
    while again
      invariant Collapse(r) == Collapse(s) && (again <==> HasPair(r))
      decreases |r|
    {
      ReplaceShrinks(r);
      CollapseAbsorbsReplace(r);
      r := ReplacePairs(r);
      again := ContainsPair(r);
    }
    CollapseKeeps(r);
  }

  method ContainsPair(s: string) returns (found: bool)
    ensures found <==> HasPair(s)
  {
    found := false;
    var i := 1;
    while i < |s|
      invariant 1 <= i && forall j | 0 <= j < i - 1 && j < |s| - 1 :: !(s[j] == '-' && s[j + 1] == '-')
    {
      if s[i - 1] == '-' && s[i] == '-' {
        return true;
      }
      i := i + 1;
    }
  }

  method IndexOfLetter(s: string) returns (k: int)
    ensures k == if FirstLetter(s) < |s| then FirstLetter(s) else -1
  {
    for i := 0 to |s|
      invariant forall j | 0 <= j < i :: !IsLetter(s[j])
    {
      if IsLetter(s[i]) {
        return i;
      }
    }
    k := -1;
  }

  // ---------------------------------------------------------------- identifiers

  /** The identifier of a resource: its name and the first eight digits of the hash of its
      encoded properties. The two names that cdk8s treats specially stay as they are. */
  function ResourceID(prefix: string, encoded: seq<bv8>): string {
    var p := TrimSpace(prefix);
    if p == RESOURCE || p == DEFAULT then p
    else (if p == "" then UNKNOWN else p) + "-" + FnvHash(encoded)[..8]
  }

  /** The name of an identifier: a trailing hash is dropped. A nil identifier is treated
      like the empty one. */
  function ExtractResource(id: string): string {
    if id == "" then UNKNOWN
    else
      var parts := Split(id, '-');
      if |parts| == 1 then id
      else if !IsHashHex(parts[|parts| - 1]) then id
      else Join(parts[..|parts| - 1], '-')
  }

  // ---------------------------------------------------------------- collapsing

  lemma {:induction false} ReplaceKeepsHead(s: string)
    ensures s == "" <==> ReplacePairs(s) == ""
    ensures s != "" ==> ReplacePairs(s)[0] == s[0]
  {
  }

  lemma {:induction false} CollapseAbsorbsReplace(s: string)
    ensures Collapse(ReplacePairs(s)) == Collapse(s)
    decreases |s|
  {
    if |s| >= 2 {
      if s[0] == '-' && s[1] == '-' {
        CollapseAbsorbsReplace(s[2..]);
        HeadThenCollapse('-', s[2..]);
        assert s[1..] == "-" + s[2..];
      } else {
        CollapseAbsorbsReplace(s[1..]);
        HeadThenCollapse(s[0], s[1..]);
        assert s == [s[0]] + s[1..];
      }
    }
  }

  /** Collapsing after one more character depends on the rest only through its first
      character and what it collapses to. */
  lemma HeadThenCollapse(c: char, t: string)
    requires Collapse(ReplacePairs(t)) == Collapse(t)
    ensures Collapse([c] + ReplacePairs(t)) == Collapse([c] + t)
  {
    ReplaceKeepsHead(t);
    assert ([c] + ReplacePairs(t))[1..] == ReplacePairs(t) && ([c] + t)[1..] == t;
  }

  lemma {:induction false} ReplaceShrinks(s: string)
    ensures |ReplacePairs(s)| <= |s|
    ensures HasPair(s) ==> |ReplacePairs(s)| < |s|
    decreases |s|
  {
    if |s| >= 2 {
      if s[0] == '-' && s[1] == '-' {
        ReplaceShrinks(s[2..]);
      } else {
        ReplaceShrinks(s[1..]);
        if HasPair(s) {
          var i :| 0 <= i < |s| - 1 && s[i] == '-' && s[i + 1] == '-';
          assert s[1..][i - 1] == '-' && s[1..][i] == '-';
        }
      }
    }
  }

  lemma {:induction false} CollapseKeeps(s: string)
    requires !HasPair(s)
    ensures Collapse(s) == s
  {
    if |s| >= 2 {
      forall i | 0 <= i < |s| - 2 ensures !(s[1..][i] == '-' && s[1..][i + 1] == '-') {
        assert s[1..][i] == s[i + 1] && s[1..][i + 1] == s[i + 2];
      }
      CollapseKeeps(s[1..]);
    }
  }
}
