/** The prototype extractor, `Preprocess._prototypes`: redact, collapse the
    braces, collect every match of `_re_prototype`,
        `[\w\[\]\*]+\s+[&\[\]\*\w\s]+\([&,\[\]\*\w\s]*\)(?=\s*\{)`
    with `findall`, and append `;` to each. */
module Prototypes {
  import opened Text
  import Redactor
  import Braces

  /** The three bracketed classes of the pattern, in order. */
  datatype CharClass =
    | Head   // [\w\[\]\*]
    | Decl   // [&\[\]\*\w\s]
    | Param  // [&,\[\]\*\w\s]

  predicate InClass(c: char, cls: CharClass) {
    match cls
    case Head => IsWordChar(c) || c == '[' || c == ']' || c == '*'
    case Decl => IsWordChar(c) || c == '[' || c == ']' || c == '*' || c == '&' || IsSpace(c)
    case Param => IsWordChar(c) || c == '[' || c == ']' || c == '*' || c == '&' || IsSpace(c) || c == ','
  }

  /** End of the greedy run of `cls` characters that starts at `i`. */
  function Span(s: string, i: nat, cls: CharClass): (j: nat)
    requires i <= |s|
    ensures i <= j <= |s|
    decreases |s| - i
  {
    if i < |s| && InClass(s[i], cls) then Span(s, i + 1, cls) else i
  }

  /** The run Span finds is all of class `cls` and stops at the first
      character outside it. */
  lemma {:induction false} SpanRun(s: string, i: nat, cls: CharClass)
    requires i <= |s|
    ensures forall x :: i <= x < Span(s, i, cls) ==> InClass(s[x], cls)
    ensures Span(s, i, cls) < |s| ==> !InClass(s[Span(s, i, cls)], cls)
    decreases |s| - i
  {
    if i < |s| && InClass(s[i], cls) {
      SpanRun(s, i + 1, cls);
    }
  }

  lemma SpanUnique(s: string, i: nat, j: nat, cls: CharClass)
    requires i <= j <= |s|
    requires forall x :: i <= x < j ==> InClass(s[x], cls)
    requires j < |s| ==> !InClass(s[j], cls)
    ensures Span(s, i, cls) == j
    decreases j - i
  {
    if i < j {
      SpanUnique(s, i + 1, j, cls);
    }
  }

  /** The end of the match of `_re_prototype` that starts at `i`, if any.
      Backtracking leaves no choice: the head run is maximal, the `(` is the
      first character outside `Decl`, the `)` the first outside `Param`; the
      `\s+` after the head gives one space back to the declarator when the
      spaces run right up to the `(`. */
  function MatchEnd(s: string, i: nat): (r: Option<nat>)
    requires i <= |s|
    ensures r.Some? ==> i < r.value <= |s|
  {
    var k := Span(s, i, Head);
    var m := SkipSpaces(s, k);
    var p := Span(s, i, Decl);
    if k > i && m > k && (m < p || m - k >= 2) && p < |s| && s[p] == '(' then
      var q := Span(s, p + 1, Param);
      if q < |s| && s[q] == ')' then
        var t := SkipSpaces(s, q + 1);
        if t < |s| && s[t] == '{' then Some(q + 1) else None
      else None
    else None
  }

  /** The pattern read as a language: the head run `[i, k)`, spaces `[k, m)`,
      the declarator `[m, p)`, `(` at `p`, parameters up to the `)` at
      `e - 1`, and the lookahead: spaces `[e, t)` and `{` at `t`. */
  ghost predicate PrototypeShape(s: string, i: nat, k: nat, m: nat, p: nat, e: nat, t: nat) {
    i < k < m < p && p + 1 < e <= t < |s| &&
    (forall x :: i <= x < k ==> InClass(s[x], Head)) &&
    (forall x :: k <= x < m ==> IsSpace(s[x])) &&
    (forall x :: m <= x < p ==> InClass(s[x], Decl)) &&
    s[p] == '(' &&
    (forall x :: p < x < e - 1 ==> InClass(s[x], Param)) &&
    s[e - 1] == ')' &&
    (forall x :: e <= x < t ==> IsSpace(s[x])) &&
    s[t] == '{'
  }

  /** `s[i..e]` is a match of the pattern at `i`. */
  ghost predicate PrototypeAt(s: string, i: nat, e: nat) {
    exists k, m, p, t :: PrototypeShape(s, i, k, m, p, e, t)
  }

  /** The runs the scanner measures: the head run, the spaces after it, the
      declarator run (which reaches at least as far as the spaces), the
      parameters and the spaces before the `{`. */
  lemma ScannedRuns(s: string, i: nat, k: nat, m: nat, p: nat, q: nat, t: nat)
    requires i <= |s| && k == Span(s, i, Head) && m == SkipSpaces(s, k) && p == Span(s, i, Decl)
    requires p < |s| && q == Span(s, p + 1, Param) && q < |s| && t == SkipSpaces(s, q + 1)
    requires s[p] == '('
    ensures forall x :: i <= x < k ==> InClass(s[x], Head)
    ensures forall x :: k <= x < m ==> IsSpace(s[x])
    ensures forall x :: i <= x < p ==> InClass(s[x], Decl)
    ensures m <= p
    ensures forall x :: p < x < q ==> InClass(s[x], Param)
    ensures forall x :: q + 1 <= x < t ==> IsSpace(s[x])
  {
    SpanRun(s, i, Head);
    SkipSpacesRun(s, k);
    SpanRun(s, i, Decl);
    SpanRun(s, p + 1, Param);
    SkipSpacesRun(s, q + 1);
  }

  /** The runs the scanner measures, when its checks pass, have the shape of
      the pattern. */
  lemma ScannedShape(s: string, i: nat, k: nat, m: nat, p: nat, q: nat, t: nat)
    requires i <= |s| && k == Span(s, i, Head) && m == SkipSpaces(s, k) && p == Span(s, i, Decl)
    requires p < |s| && q == Span(s, p + 1, Param) && q < |s| && t == SkipSpaces(s, q + 1)
    requires k > i && m > k && (m < p || m - k >= 2) && s[p] == '(' && s[q] == ')' && t < |s| && s[t] == '{'
    ensures PrototypeShape(s, i, k, if m < p then m else m - 1, p, q + 1, t)
  {
    ScannedRuns(s, i, k, m, p, q, t);
  }

  /** Every end the scanner reports is a match of the pattern. */
  lemma MatchEndSound(s: string, i: nat)
    requires i <= |s| && MatchEnd(s, i).Some?
    ensures PrototypeAt(s, i, MatchEnd(s, i).value)
  {
    var k := Span(s, i, Head);
    var m := SkipSpaces(s, k);
    var p := Span(s, i, Decl);
    var q := Span(s, p + 1, Param);
    var t := SkipSpaces(s, q + 1);
    assert MatchEnd(s, i) == Some(q + 1);
    ScannedShape(s, i, k, m, p, q, t);
  }

  /** The runs of a match of the pattern are the runs the scanner measures:
      the head run, the declarator run and the parameters end where the shape
      says, and the spaces before the `{` end at `t`. */
  lemma ShapeRuns(s: string, i: nat, k: nat, m: nat, p: nat, e: nat, t: nat)
    requires PrototypeShape(s, i, k, m, p, e, t)
    ensures Span(s, i, Head) == k && Span(s, i, Decl) == p
    ensures Span(s, p + 1, Param) == e - 1 && SkipSpaces(s, e) == t
  {
    SpanUnique(s, i, k, Head);
    assert !InClass(s[p], Decl);
    SpanUnique(s, i, p, Decl);
    assert !InClass(s[e - 1], Param);
    SpanUnique(s, p + 1, e - 1, Param);
    SkipSpacesUnique(s, e, t);
  }

  /** The spaces after the head of a match reach at least to the
      declarator and stop before the `(`. */
  lemma ShapeSpaces(s: string, i: nat, k: nat, m: nat, p: nat, e: nat, t: nat)
    requires PrototypeShape(s, i, k, m, p, e, t)
    ensures m <= SkipSpaces(s, k) <= p
  {
    SkipSpacesRun(s, k);
    var m0 := SkipSpaces(s, k);
    assert m0 >= m;
  }

  /** Every match of the pattern at `i` is the one the scanner reports. */
  lemma MatchEndComplete(s: string, i: nat, e: nat)
    requires PrototypeAt(s, i, e)
    ensures MatchEnd(s, i) == Some(e)
  {
    var k: nat, m: nat, p: nat, t: nat :| PrototypeShape(s, i, k, m, p, e, t);
    ShapeRuns(s, i, k, m, p, e, t);
    ShapeSpaces(s, i, k, m, p, e, t);
    ScannerAccepts(s, i, k, SkipSpaces(s, k), p, e, t);
  }

  /** The scanner's checks, one by one, in terms of the runs it measures. */
  lemma ScannerAccepts(s: string, i: nat, k: nat, m: nat, p: nat, e: nat, t: nat)
    requires i <= |s| && Span(s, i, Head) == k && k > i && SkipSpaces(s, k) == m && m > k
    requires Span(s, i, Decl) == p && (m < p || m - k >= 2) && p < |s| && s[p] == '('
    requires p + 1 < e && Span(s, p + 1, Param) == e - 1 && e - 1 < |s| && s[e - 1] == ')'
    requires SkipSpaces(s, e) == t && t < |s| && s[t] == '{'
    ensures MatchEnd(s, i) == Some(e)
  {
  }

  /** `findall`: the spans of the matches, scanning from `i`; after a match
      the scan resumes at its end, otherwise one character further. */
  function Matches(s: string, i: nat): (r: seq<(nat, nat)>)
    requires i <= |s|
    ensures forall n :: 0 <= n < |r| ==> i <= r[n].0 < r[n].1 <= |s|
    decreases |s| - i
  {
    if i == |s| then []
    else match MatchEnd(s, i)
      case Some(e) => [(i, e)] + Matches(s, e)
      case None => Matches(s, i + 1)
  }

  /** The reported spans do not overlap and come in text order. */
  lemma {:induction false} MatchesOrdered(s: string, i: nat)
    requires i <= |s|
    ensures forall a, b :: 0 <= a < b < |Matches(s, i)| ==> Matches(s, i)[a].1 <= Matches(s, i)[b].0
    decreases |s| - i
  {
    if i < |s| {
      match MatchEnd(s, i)
      case Some(e) =>
        MatchesOrdered(s, e);
        assert Matches(s, i) == [(i, e)] + Matches(s, e);
        OrderedCons((i, e), Matches(s, e));
      case None =>
        MatchesOrdered(s, i + 1);
        assert Matches(s, i) == Matches(s, i + 1);
    }
  }

  /** A span that ends before every later span starts keeps a list of spans
      in text order. */
  lemma OrderedCons(first: (nat, nat), rest: seq<(nat, nat)>)
    requires forall n :: 0 <= n < |rest| ==> first.1 <= rest[n].0
    requires forall a, b :: 0 <= a < b < |rest| ==> rest[a].1 <= rest[b].0
    ensures forall a, b :: 0 <= a < b < |[first] + rest| ==> ([first] + rest)[a].1 <= ([first] + rest)[b].0
  {
    var ms := [first] + rest;
    forall a, b | 0 <= a < b < |ms| ensures ms[a].1 <= ms[b].0 {
      assert ms[b] == rest[b - 1];
      if a > 0 {
        assert ms[a] == rest[a - 1];
      }
    }
  }

  /** No reported span covers index `x`. */
  ghost predicate Uncovered(ms: seq<(nat, nat)>, x: nat) {
    forall n :: 0 <= n < |ms| ==> !(ms[n].0 <= x < ms[n].1)
  }

  /** Every span `findall` reports is a match of the pattern. */
  lemma {:induction false} MatchesSound(s: string, i: nat)
    requires i <= |s|
    ensures forall n :: 0 <= n < |Matches(s, i)| ==> PrototypeAt(s, Matches(s, i)[n].0, Matches(s, i)[n].1)
    decreases |s| - i
  {
    if i < |s| {
      var ms := Matches(s, i);
      match MatchEnd(s, i)
      case Some(e) =>
        MatchesSound(s, e);
        MatchEndSound(s, i);
        assert ms == [(i, e)] + Matches(s, e);
        assert forall n :: 0 < n < |ms| ==> ms[n] == Matches(s, e)[n - 1];
      case None =>
        MatchesSound(s, i + 1);
        assert ms == Matches(s, i + 1);
    }
  }

  /** `findall` misses nothing: the scanner finds no match at an index
      outside the reported spans (leftmost match first, resuming after each
      match). With MatchEndComplete, no match of the pattern starts there. */
  lemma {:induction false} MatchesLeftmost(s: string, i: nat, x: nat)
    requires i <= x < |s|
    requires Uncovered(Matches(s, i), x)
    ensures MatchEnd(s, x) == None
    decreases |s| - i
  {
    match MatchEnd(s, i)
    case Some(e) =>
      var rest := Matches(s, e);
      assert Matches(s, i) == [(i, e)] + rest;
      UncoveredTail((i, e), rest, x);
      MatchesLeftmost(s, e, x);
    case None =>
      assert Matches(s, i) == Matches(s, i + 1);
      if x > i {
        MatchesLeftmost(s, i + 1, x);
      }
  }

  /** An index no span covers lies outside the first span and is not
      covered by the others either. */
  lemma UncoveredTail(first: (nat, nat), rest: seq<(nat, nat)>, x: nat)
    requires Uncovered([first] + rest, x)
    ensures !(first.0 <= x < first.1)
    ensures Uncovered(rest, x)
  {
    var ms := [first] + rest;
    assert ms[0] == first;
    forall n | 0 <= n < |rest| ensures !(rest[n].0 <= x < rest[n].1) {
      assert rest[n] == ms[n + 1];
    }
  }

  /** The text `_prototypes` scans: the source redacted, then brace-collapsed. */
  function Collapsed(src: string): (c: string) {
    Braces.Collapse(Redactor.Strip(src))
  }

  /** `_prototypes`: one entry per match, in match order, each the matched
      text followed by `;`. Repeated signatures are kept. */
  function Prototypes(src: string): (protos: seq<string>)
  {
    Signatures(Collapsed(src))
  }

  /** The list comprehension over `findall` on already collapsed text `c`. */
  function Signatures(c: string): (sigs: seq<string>)
  {
    var ms := Matches(c, 0);
    seq(|ms|, n requires 0 <= n < |ms| => c[ms[n].0..ms[n].1] + ";")
  }

  /** A match read on its own, followed directly by `{`, is matched again whole. */
  lemma MatchStandsAlone(s: string, b: nat, e: nat)
    requires PrototypeAt(s, b, e)
    ensures b < e <= |s|
    ensures MatchEnd(s[b..e] + "{", 0) == Some(e - b)
  {
    var k: nat, m: nat, p: nat, t: nat :| PrototypeShape(s, b, k, m, p, e, t);
    var w := s[b..e] + "{";
    assert forall x :: 0 <= x < e - b ==> w[x] == s[b + x];
    assert PrototypeShape(w, 0, k - b, m - b, p - b, e - b, e - b);
    MatchEndComplete(w, 0, e - b);
  }

  /** Each prototype is a match of the collapsed text plus `;`, one per
      match and in match order. */
  lemma PrototypesSpec(src: string)
    ensures |Prototypes(src)| == |Matches(Collapsed(src), 0)|
    ensures forall n :: 0 <= n < |Prototypes(src)| ==>
              PrototypeAt(Collapsed(src), Matches(Collapsed(src), 0)[n].0, Matches(Collapsed(src), 0)[n].1) &&
              Prototypes(src)[n] == Collapsed(src)[Matches(Collapsed(src), 0)[n].0..Matches(Collapsed(src), 0)[n].1] + ";"
  {
    MatchesSound(Collapsed(src), 0);
  }

  /** With its `;` taken off and a `{` put after it, a prototype is matched
      again in full. */
  lemma PrototypesRematch(src: string)
    ensures forall n :: 0 <= n < |Prototypes(src)| ==>
              MatchEnd(Prototypes(src)[n][..|Prototypes(src)[n]| - 1] + "{", 0) == Some(|Prototypes(src)[n]| - 1)
  {
    forall n | 0 <= n < |Prototypes(src)|
      ensures MatchEnd(Prototypes(src)[n][..|Prototypes(src)[n]| - 1] + "{", 0) == Some(|Prototypes(src)[n]| - 1)
    {
      SignatureRematch(Collapsed(src), n);
    }
  }

  /** Prototype `n` of collapsed text, with its `;` taken off and a `{` put
      after it, is matched again in full. */
  lemma SignatureRematch(c: string, n: nat)
    requires n < |Signatures(c)|
    ensures MatchEnd(Signatures(c)[n][..|Signatures(c)[n]| - 1] + "{", 0) == Some(|Signatures(c)[n]| - 1)
  {
    var ms := Matches(c, 0);
    var sg := Signatures(c)[n];
    MatchesSound(c, 0);
    assert sg[..|sg| - 1] == c[ms[n].0..ms[n].1];
    MatchStandsAlone(c, ms[n].0, ms[n].1);
  }

  /** No function-definition-shaped text of the collapsed source is left
      without a prototype, unless it starts inside an earlier match. */
  lemma PrototypesComplete(src: string, x: nat, e: nat)
    requires x < |Collapsed(src)|
    requires Uncovered(Matches(Collapsed(src), 0), x)
    ensures !PrototypeAt(Collapsed(src), x, e)
  {
    MatchesLeftmost(Collapsed(src), 0, x);
    if PrototypeAt(Collapsed(src), x, e) {
      MatchEndComplete(Collapsed(src), x, e);
    }
  }

  /** A brace-free definition head followed by an empty block collapses to itself. */
  lemma CollapseDefinition(head: string)
    requires '{' !in head && '}' !in head
    ensures Braces.Collapse(head + "{}") == head + "{}"
    ensures Braces.Depth(head + "{}") == 0
  {
    Braces.CollapseNoBraces(head);
    Braces.CollapseAppend(head, "{}");
    Braces.DepthAppend(head, "{}");
    Braces.CollapseFlatBlock("");
    assert "{" + "" + "}" == "{}";
  }

  /** A non-empty run of `\w` characters: a type or a function name. */
  predicate IsWord(w: string) {
    |w| > 0 && forall x :: 0 <= x < |w| ==> IsWordChar(w[x])
  }

  /** The head `ty name()` of an empty definition. */
  function DefinitionHead(ty: string, name: string): string {
    ty + " " + name + "()"
  }

  /** An empty definition `ty name(){}` at index `i` of `s`, read character by
      character: the type runs to the space at `a`, the name to the `(` at `b`. */
  ghost predicate EmptyDefinitionAt(s: string, i: nat, a: nat, b: nat) {
    i < a && a + 1 < b && b + 4 <= |s| &&
    (forall x :: i <= x < a ==> IsWordChar(s[x])) && s[a] == ' ' &&
    (forall x :: a < x < b ==> IsWordChar(s[x])) &&
    s[b] == '(' && s[b + 1] == ')' && s[b + 2] == '{' && s[b + 3] == '}'
  }

  /** The text `ty name(){}` is an empty definition. */
  lemma DefinitionAt(ty: string, name: string)
    requires IsWord(ty) && IsWord(name)
    ensures |DefinitionHead(ty, name)| == |ty| + |name| + 3
    ensures EmptyDefinitionAt(DefinitionHead(ty, name) + "{}", 0, |ty|, |ty| + 1 + |name|)
  {
    var d := DefinitionHead(ty, name) + "{}";
    var n := |ty| + 1 + |name|;
    forall x | 0 <= x < |ty| ensures IsWordChar(d[x]) {
      assert d[x] == ty[x];
    }
    forall x | |ty| < x < n ensures IsWordChar(d[x]) {
      assert d[x] == name[x - |ty| - 1];
    }
  }

  /** At an empty definition the scanner matches the head, and `findall`
      finds nothing more before the end of the block. */
  lemma DefinitionMatched(s: string, i: nat, a: nat, b: nat)
    requires EmptyDefinitionAt(s, i, a, b)
    ensures MatchEnd(s, i) == Some(b + 2)
  {
    DefinitionShape(s, i, a, b);
    MatchEndComplete(s, i, b + 2);
  }

  /** `findall` finds nothing in a `{}` and moves past it. */
  lemma BracePairSkipped(s: string, x: nat)
    requires x + 1 < |s| && s[x] == '{' && s[x + 1] == '}'
    ensures Matches(s, x) == Matches(s, x + 2)
  {
    NoMatchAt(s, x);
    NoMatchAt(s, x + 1);
  }

  /** An empty definition has the shape of the pattern, with no spaces given
      back, no parameters and the `{` right after the `)`. */
  lemma DefinitionShape(s: string, i: nat, a: nat, b: nat)
    requires EmptyDefinitionAt(s, i, a, b)
    ensures PrototypeShape(s, i, a, a + 1, b, b + 2, b + 2)
  {
  }

  /** No match starts at a character outside the head class, and `findall`
      moves on by one character there. */
  lemma NoMatchAt(s: string, x: nat)
    requires x < |s| && !InClass(s[x], Head)
    ensures MatchEnd(s, x) == None
    ensures Matches(s, x) == Matches(s, x + 1)
  {
    assert Span(s, x, Head) == x;
  }

  /** An empty definition survives redaction and collapsing unchanged. */
  lemma CollapsedDefinition(ty: string, name: string)
    requires IsWord(ty) && IsWord(name)
    ensures Collapsed(DefinitionHead(ty, name) + "{}") == DefinitionHead(ty, name) + "{}"
  {
    var h := DefinitionHead(ty, name);
    var d := h + "{}";
    DefinitionAt(ty, name);
    assert forall x :: 0 <= x < |h| ==> h[x] == d[x];
    assert forall x :: 0 <= x < |d| ==> d[x] !in "'\"/#";
    Redactor.StripPlain(d);
    CollapseDefinition(h);
  }

  /** One match, with nothing matched after it, is all of `findall`'s result. */
  lemma OneMatch(s: string, e: nat, f: nat)
    requires f == |s| && MatchEnd(s, 0) == Some(e) && Matches(s, e) == Matches(s, f)
    ensures Matches(s, 0) == [(0, e)]
  {
    assert Matches(s, 0) == [(0, e)] + Matches(s, e);
  }

  /** Collapsed text with one match gives one prototype: the matched text. */
  lemma OnePrototype(c: string, e: nat)
    requires Matches(c, 0) == [(0, e)]
    ensures e <= |c|
    ensures Signatures(c) == [c[0..e] + ";"]
  {
    assert Matches(c, 0)[0] == (0, e);
  }

  /** An empty definition `h + t`, left as it is by redaction and collapsing,
      gives the one prototype `h;`. */
  lemma DefinitionKept(h: string, t: string, a: nat, b: nat)
    requires EmptyDefinitionAt(h + t, 0, a, b) && |h| == b + 2 && |t| == 2
    requires Collapsed(h + t) == h + t
    ensures Prototypes(h + t) == [h + ";"]
  {
    var d := h + t;
    assert Prototypes(d) == Signatures(d);
    DefinitionMatched(d, 0, a, b);
    BracePairSkipped(d, b + 2);
    OneMatch(d, b + 2, b + 4);
    OnePrototype(d, b + 2);
    assert d[0..b + 2] == h;
  }

  /** The prototype of an empty definition `ty name(){}` is `ty name();`. */
  lemma DefinitionPrototype(ty: string, name: string)
    requires IsWord(ty) && IsWord(name)
    ensures Prototypes(DefinitionHead(ty, name) + "{}") == [DefinitionHead(ty, name) + ";"]
  {
    DefinitionAt(ty, name);
    CollapsedDefinition(ty, name);
    DefinitionKept(DefinitionHead(ty, name), "{}", |ty|, |ty| + 1 + |name|);
  }
}
