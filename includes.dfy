/** The include hoister: `Preprocess._extract_includes` and the pattern
    `_re_includes`, `^\s*#include\s*[<"](\S+)[">]`, applied with `re.match`
    to one line at a time. */
module Includes {
  import opened Text

  predicate IsOpener(c: char) { c == '<' || c == '"' }

  predicate IsCloser(c: char) { c == '"' || c == '>' }

  /** `(\S+)[">]` from index `t` on, given that the characters before `t`
      already belong to the `\S+` run: some closer lies ahead with no space
      in between. Backtracking in `\S+` makes any closer of the run do. */
  predicate CloserFrom(s: string, t: nat)
    decreases |s| - t
  {
    t < |s| && (IsCloser(s[t]) || (!IsSpace(s[t]) && CloserFrom(s, t + 1)))
  }

  /** The scanner for `_re_includes.match(line)`. */
  predicate IsIncludeLine(line: string) {
    var i := SkipSpaces(line, 0);
    i + 8 <= |line| && line[i..i + 8] == "#include" &&
    var j := SkipSpaces(line, i + 8);
    j + 1 < |line| && IsOpener(line[j]) && !IsSpace(line[j + 1]) && CloserFrom(line, j + 2)
  }

  /** The regular expression read as a language: the line starts with spaces
      ending at `i`, then `#include`, more spaces up to the opening delimiter
      at `j`, a non-empty run of non-spaces, and a closing delimiter at `m`.
      The two delimiters need not agree. */
  ghost predicate IncludeShape(line: string, i: nat, j: nat, m: nat) {
    i + 8 <= j && j + 1 < m < |line| &&
    (forall k :: 0 <= k < i ==> IsSpace(line[k])) &&
    line[i..i + 8] == "#include" &&
    (forall k :: i + 8 <= k < j ==> IsSpace(line[k])) &&
    IsOpener(line[j]) &&
    (forall k :: j < k < m ==> !IsSpace(line[k])) &&
    IsCloser(line[m])
  }

  ghost predicate MatchesIncludePattern(line: string) {
    exists i, j, m :: IncludeShape(line, i, j, m)
  }

  /** A closer the scan finds: at some `m >= t`, with only non-spaces
      between `t` and `m`. */
  lemma {:induction false} CloserWitness(s: string, t: nat) returns (m: nat)
    requires CloserFrom(s, t)
    ensures t <= m < |s| && IsCloser(s[m])
    ensures forall k :: t <= k < m ==> !IsSpace(s[k])
    decreases |s| - t
  {
    if IsCloser(s[t]) {
      m := t;
    } else {
      m := CloserWitness(s, t + 1);
    }
  }

  /** Any closer reached through non-spaces is found by the scan. */
  lemma {:induction false} CloserFound(s: string, t: nat, m: nat)
    requires t <= m < |s| && IsCloser(s[m])
    requires forall k :: t <= k < m ==> !IsSpace(s[k])
    ensures CloserFrom(s, t)
    decreases m - t
  {
    if t < m {
      CloserFound(s, t + 1, m);
    }
  }

  /** Every line the scanner accepts has the shape of the regular expression. */
  lemma IsIncludeLineSound(line: string)
    requires IsIncludeLine(line)
    ensures MatchesIncludePattern(line)
  {
    var i := SkipSpaces(line, 0);
    var j := SkipSpaces(line, i + 8);
    SkipSpacesRun(line, 0);
    SkipSpacesRun(line, i + 8);
    var m := CloserWitness(line, j + 2);
    assert IncludeShape(line, i, j, m);
  }

  /** Every line of the regular expression's shape is accepted by the scanner. */
  lemma IsIncludeLineComplete(line: string, i: nat, j: nat, m: nat)
    requires IncludeShape(line, i, j, m)
    ensures IsIncludeLine(line)
  {
    assert line[i] == line[i..i + 8][0] == '#';
    SkipSpacesUnique(line, 0, i);
    SkipSpacesUnique(line, i + 8, j);
    CloserFound(line, j + 2, m);
  }

  /** The scanner decides exactly the language of the regular expression. */
  lemma IsIncludeLineIff(line: string)
    ensures IsIncludeLine(line) <==> MatchesIncludePattern(line)
  {
    if IsIncludeLine(line) {
      IsIncludeLineSound(line);
    }
    if MatchesIncludePattern(line) {
      var i: nat, j: nat, m: nat :| IncludeShape(line, i, j, m);
      IsIncludeLineComplete(line, i, j, m);
    }
  }

  /** The include pattern does not pair its delimiters: `#include <foo"` is hoisted. */
  lemma MismatchedDelimitersAccepted()
    ensures IsIncludeLine("#include <foo\"")
  {
    var line := "#include <foo\"";
    assert IncludeShape(line, 0, 9, 13);
    IsIncludeLineComplete(line, 0, 9, 13);
  }

  /** A directive with a space inside the delimiters is not an include. */
  lemma SpacedPathRejected()
    ensures !IsIncludeLine("#include < a>")
  {
    var line := "#include < a>";
    assert SkipSpaces(line, 0) == 0;
    assert line[0..8] == "#include";
    SkipSpacesUnique(line, 8, 9);
    assert IsSpace(line[10]);
  }

  /** The body line that takes an input line's place. */
  function NeutralLine(line: string): (out: string) {
    if IsIncludeLine(line) then "//" + line else line
  }

  /** The body `_extract_includes` returns for a sequence of lines. */
  function Neutralize(lines: seq<string>): (body: seq<string>)
  {
    seq(|lines|, k requires 0 <= k < |lines| => NeutralLine(lines[k]))
  }

  /** The `includes` list once the first `n` lines have been read: the
      matching lines among them, as they are. */
  function IncludesOf(lines: seq<string>, n: nat): (includes: seq<string>)
    requires n <= |lines|
  {
    if n == 0 then []
    else IncludesOf(lines, n - 1) + (if IsIncludeLine(lines[n - 1]) then [lines[n - 1]] else [])
  }

  /** The indices of the matching lines among the first `n`, in ascending order. */
  function IncludeIndices(lines: seq<string>, n: nat): (indices: seq<nat>)
    requires n <= |lines|
  {
    if n == 0 then []
    else IncludeIndices(lines, n - 1) + (if IsIncludeLine(lines[n - 1]) then [n - 1] else [])
  }

  /** `_extract_includes`: hoists the include lines and comments them out in
      the body, which keeps one line for every input line. */
  method ExtractIncludes(srcLines: seq<string>) returns (includes: seq<string>, sketch: seq<string>)
    ensures includes == IncludesOf(srcLines, |srcLines|)
    ensures |sketch| == |srcLines|
    ensures forall k :: 0 <= k < |srcLines| ==>
              sketch[k] == if IsIncludeLine(srcLines[k]) then "//" + srcLines[k] else srcLines[k]
  {
    includes := [];
    sketch := [];
    for n := 0 to |srcLines|
      invariant includes == IncludesOf(srcLines, n)
      invariant |sketch| == n
      invariant forall k :: 0 <= k < n ==>
                  sketch[k] == if IsIncludeLine(srcLines[k]) then "//" + srcLines[k] else srcLines[k]
    {
      var line := srcLines[n];
      if IsIncludeLine(line) {
        includes := includes + [line];
        sketch := sketch + ["//" + line];
      } else {
        sketch := sketch + [line];
      }

    }
  }

  /** A body line is the commented copy of its input line exactly when that
      line is an include; otherwise it is the input line itself. */
  lemma NeutralLineIff(line: string)
    ensures NeutralLine(line) == "//" + line <==> MatchesIncludePattern(line)
    ensures !MatchesIncludePattern(line) ==> NeutralLine(line) == line
  {
    IsIncludeLineIff(line);
    if !IsIncludeLine(line) {
      assert |"//" + line| != |line|;
    }
  }

  /** `includes` is exactly the matching input lines, verbatim and in input
      order: their indices ascend, cover every matching line and nothing else. */
  lemma IncludesOfSpec(lines: seq<string>)
    ensures |IncludesOf(lines, |lines|)| == |IncludeIndices(lines, |lines|)|
    ensures forall a :: 0 <= a < |IncludeIndices(lines, |lines|)| ==>
              IncludeIndices(lines, |lines|)[a] < |lines| &&
              IncludesOf(lines, |lines|)[a] == lines[IncludeIndices(lines, |lines|)[a]]
    ensures forall a, b :: 0 <= a < b < |IncludeIndices(lines, |lines|)| ==>
              IncludeIndices(lines, |lines|)[a] < IncludeIndices(lines, |lines|)[b]
    ensures forall k :: 0 <= k < |lines| ==> (IsIncludeLine(lines[k]) <==> k in IncludeIndices(lines, |lines|))
  {
    IncludesOfAt(lines, |lines|);
    IncludeIndicesAscending(lines, |lines|);
    IncludeIndicesExact(lines, |lines|);
  }

  /** Entry `a` of `includes` is the input line at the `a`-th matching index. */
  lemma {:induction false} IncludesOfAt(lines: seq<string>, n: nat)
    requires n <= |lines|
    ensures |IncludesOf(lines, n)| == |IncludeIndices(lines, n)|
    ensures forall a :: 0 <= a < |IncludeIndices(lines, n)| ==>
              IncludeIndices(lines, n)[a] < n && IncludesOf(lines, n)[a] == lines[IncludeIndices(lines, n)[a]]
  {
    if n > 0 {
      IncludesOfAt(lines, n - 1);
    }
  }

  /** The matching indices ascend and stay below `n`. */
  lemma {:induction false} IncludeIndicesAscending(lines: seq<string>, n: nat)
    requires n <= |lines|
    ensures forall a :: 0 <= a < |IncludeIndices(lines, n)| ==> IncludeIndices(lines, n)[a] < n
    ensures forall a, b :: 0 <= a < b < |IncludeIndices(lines, n)| ==>
              IncludeIndices(lines, n)[a] < IncludeIndices(lines, n)[b]
  {
    if n > 0 {
      IncludeIndicesAscending(lines, n - 1);
    }
  }

  /** An index below `n` is among the matching indices exactly when its line is an include. */
  lemma {:induction false} IncludeIndicesExact(lines: seq<string>, n: nat)
    requires n <= |lines|
    ensures forall k :: 0 <= k < n ==> (IsIncludeLine(lines[k]) <==> k in IncludeIndices(lines, n))
  {
    if n > 0 {
      IncludeIndicesExact(lines, n - 1);
      IncludeIndicesAscending(lines, n - 1);
    }
  }
}
