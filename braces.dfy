/** The brace collapser, `Preprocess._collapse_braces`: a left-to-right scan
    with a nesting counter that keeps what lies outside `{...}` blocks. */
module Braces {

  /** The value of `nesting` after the scan has read `s`: opening braces
      minus closing braces. It may go negative. */
  function Depth(s: string): (d: int)
  {
    if s == [] then 0
    else
      var c := s[|s| - 1];
      Depth(s[..|s| - 1]) + (if c == '{' then 1 else if c == '}' then -1 else 0)
  }

  /** What one step of the scan appends for character `c` read at `nesting`:
      `c` itself when nesting is 0, and a `}` once more for every `}`. */
  function Emit(nesting: int, c: char): (out: string)
  {
    (if nesting == 0 then [c] else []) + (if c == '}' then [c] else [])
  }

  /** The collapsed text of `s`, one scan step per character. */
  function Collapse(s: string): (r: string)
  {
    if s == [] then []
    else Collapse(s[..|s| - 1]) + Emit(Depth(s[..|s| - 1]), s[|s| - 1])
  }

  /** `_collapse_braces`. */
  method CollapseBraces(src: string) returns (r: string)
    ensures r == Collapse(src)
  {
    var result: string := [];
    var nesting := 0;
    for i := 0 to |src|
      invariant result == Collapse(src[..i])
      invariant nesting == Depth(src[..i])
    {
      var c := src[i];
      assert src[..i + 1][..i] == src[..i];
      if nesting == 0 {
        result := result + [c];
      }
      if c == '{' {
        nesting := nesting + 1;
      } else if c == '}' {
        nesting := nesting - 1;
        result := result + [c];
      }
    }
    assert src[..|src|] == src;
    r := result;
  }

  /** `a` is a subsequence of `b`, matched greedily from the end. */
  predicate IsSubsequence(a: string, b: string)
    decreases |b|
  {
    if a == [] then true
    else if b == [] then false
    else if a[|a| - 1] == b[|b| - 1] then IsSubsequence(a[..|a| - 1], b[..|b| - 1])
    else IsSubsequence(a, b[..|b| - 1])
  }

  /** A character read at nesting 0 or above never starts a second copy:
      every `}` of `s` is read while nesting is at least 1. */
  ghost predicate ClosesNested(s: string) {
    forall i :: 0 <= i < |s| && s[i] == '}' ==> Depth(s[..i]) >= 1
  }

  lemma {:induction false} SubsequenceExtend(a: string, b: string, c: char)
    requires IsSubsequence(a, b)
    ensures IsSubsequence(a, b + [c])
    decreases |b|, 1
  {
    assert (b + [c])[..|b|] == b;
    if a != [] && a[|a| - 1] == c {
      SubsequenceDropLast(a, b);
    }
  }

  lemma {:induction false} SubsequenceDropLast(a: string, b: string)
    requires a != [] && IsSubsequence(a, b)
    ensures IsSubsequence(a[..|a| - 1], b)
    decreases |b|, 0
  {
    var b' := b[..|b| - 1];
    assert b == b' + [b[|b| - 1]];
    if a[|a| - 1] == b[|b| - 1] {
      SubsequenceExtend(a[..|a| - 1], b', b[|b| - 1]);
    } else {
      SubsequenceDropLast(a, b');
      SubsequenceExtend(a[..|a| - 1], b', b[|b| - 1]);
    }
  }

  /** Depth is additive over concatenation. */
  lemma {:induction false} DepthAppend(a: string, b: string)
    ensures Depth(a + b) == Depth(a) + Depth(b)
  {
    if b != [] {
      var b' := b[..|b| - 1];
      assert (a + b)[..|a + b| - 1] == a + b';
      DepthAppend(a, b');
    } else {
      assert a + b == a;
    }
  }

  /** Text without braces passes through unchanged, and leaves the nesting at 0. */
  lemma {:induction false} CollapseNoBraces(s: string)
    requires '{' !in s && '}' !in s
    ensures Depth(s) == 0
    ensures Collapse(s) == s
  {
    if s != [] {
      var s' := s[..|s| - 1];
      assert s == s' + [s[|s| - 1]];
      CollapseNoBraces(s');
    }
  }

  lemma SubsequenceAppendBoth(a: string, b: string, c: char)
    requires IsSubsequence(a, b)
    ensures IsSubsequence(a + [c], b + [c])
  {
    assert (a + [c])[..|a|] == a;
    assert (b + [c])[..|b|] == b;
  }

  lemma ClosesNestedPrefix(s: string)
    requires s != [] && ClosesNested(s)
    ensures ClosesNested(s[..|s| - 1])
  {
    var s' := s[..|s| - 1];
    forall i | 0 <= i < |s'| && s'[i] == '}' ensures Depth(s'[..i]) >= 1 {
      assert s'[..i] == s[..i];
    }
  }

  /** When every `}` is read inside a block, the output is a subsequence of
      the input. */
  lemma {:induction false} CollapseSubsequence(s: string)
    requires ClosesNested(s)
    ensures IsSubsequence(Collapse(s), s)
  {
    if s != [] {
      var s' := s[..|s| - 1];
      var c := s[|s| - 1];
      assert s == s' + [c];
      ClosesNestedPrefix(s);
      CollapseSubsequence(s');
      var e := Emit(Depth(s'), c);
      assert Collapse(s) == Collapse(s') + e;
      if c == '}' {
        assert Depth(s') >= 1 by {
          assert s[|s'|] == '}' && s[..|s'|] == s';
        }
        assert e == [c];
        SubsequenceAppendBoth(Collapse(s'), s', c);
      } else if Depth(s') == 0 {
        assert e == [c];
        SubsequenceAppendBoth(Collapse(s'), s', c);
      } else {
        assert e == [];
        assert Collapse(s) == Collapse(s');
        SubsequenceExtend(Collapse(s'), s', c);
      }
    }
  }

  /** When every `}` is read inside a block, the output keeps every `}` of
      the input, once. */
  lemma {:induction false} CollapseKeepsCloses(s: string)
    requires ClosesNested(s)
    ensures multiset(Collapse(s))['}'] == multiset(s)['}']
  {
    if s != [] {
      var s' := s[..|s| - 1];
      var c := s[|s| - 1];
      assert s == s' + [c];
      ClosesNestedPrefix(s);
      CollapseKeepsCloses(s');
      var e := Emit(Depth(s'), c);
      assert Collapse(s) == Collapse(s') + e;
      assert multiset(Collapse(s)) == multiset(Collapse(s')) + multiset(e);
      assert multiset(s) == multiset(s') + multiset([c]);
      if c == '}' {
        assert Depth(s') >= 1 by {
          assert s[|s'|] == '}' && s[..|s'|] == s';
        }
        assert e == [c];
      } else {
        assert multiset(e)['}'] == 0;
      }
    }
  }

  /** Collapsing restarts cleanly after a balanced prefix: once the nesting is
      back at 0, the rest collapses on its own. */
  lemma {:induction false} CollapseAppend(a: string, b: string)
    requires Depth(a) == 0
    ensures Collapse(a + b) == Collapse(a) + Collapse(b)
  {
    if b == [] {
      assert a + b == a;
    } else {
      var b' := b[..|b| - 1];
      assert (a + b)[..|a + b| - 1] == a + b';
      CollapseAppend(a, b');
      DepthAppend(a, b');
    }
  }

  /** A top-level block without nested braces collapses to `{}`, and the
      nesting is back at 0 after it. */
  lemma {:induction false} CollapseFlatBlock(body: string)
    requires '{' !in body && '}' !in body
    ensures Collapse("{" + body + "}") == "{}"
    ensures Depth("{" + body + "}") == 0
  {
    OpenBlock(body);
    var s := "{" + body + "}";
    assert s[..|s| - 1] == "{" + body;
  }

  lemma {:induction false} OpenBlock(body: string)
    requires '{' !in body && '}' !in body
    ensures Collapse("{" + body) == "{"
    ensures Depth("{" + body) == 1
  {
    if body != [] {
      var b' := body[..|body| - 1];
      assert ("{" + body)[..|"{" + body| - 1] == "{" + b';
      OpenBlock(b');
    } else {
      assert "{" + body == "{";
      assert "{"[..0] == [];
    }
  }

  /** One scan step: reading `c` after `s`. */
  lemma CollapseStep(s: string, c: char)
    ensures Collapse(s + [c]) == Collapse(s) + Emit(Depth(s), c)
    ensures Depth(s + [c]) == Depth(s) + (if c == '{' then 1 else if c == '}' then -1 else 0)
  {
    assert (s + [c])[..|s|] == s;
  }

  /** A `}` read at nesting 0 is appended twice, and the counter goes
      negative. */
  lemma StrayCloseDoubled(s: string)
    requires Depth(s) == 0
    ensures Collapse(s + "}") == Collapse(s) + "}}"
    ensures Depth(s + "}") == -1
  {
    CollapseStep(s, '}');
  }

  /** While the counter is negative nothing but `}` reaches the output:
      text is dropped until a `{` brings the nesting back to 0. */
  lemma NegativeNestingDrops(s: string, c: char)
    requires Depth(s) < 0 && c != '}'
    ensures Collapse(s + [c]) == Collapse(s)
  {
    CollapseStep(s, c);
  }

  /** The inner `}` of a nested block leaks into the output, so balanced input
      does not give balanced output: `{{}}` collapses to `{}}`. */
  lemma NestedCloseLeaks()
    ensures Collapse("{{}}") == "{}}"
  {
    var s0: string := [];
    CollapseStep(s0, '{');
    var s1 := s0 + ['{'];
    CollapseStep(s1, '{');
    var s2 := s1 + ['{'];
    CollapseStep(s2, '}');
    var s3 := s2 + ['}'];
    CollapseStep(s3, '}');
    assert s3 + ['}'] == "{{}}";
  }
}
