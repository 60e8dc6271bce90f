/** Character classes and line handling shared by the preprocessor stages.
    Character classes follow Python 2's `re` on byte strings (no LOCALE, no UNICODE flag). */
module Text {

  datatype Option<T> = None | Some(value: T)

  /** `\s`: space, tab, newline, carriage return, form feed, vertical tab. */
  predicate IsSpace(c: char) {
    c == ' ' || c == '\t' || c == '\n' || c == '\r' || c == '\U{0C}' || c == '\U{0B}'
  }

  /** `\w`: ASCII letters, digits and the underscore. */
  predicate IsWordChar(c: char) {
    ('a' <= c <= 'z') || ('A' <= c <= 'Z') || ('0' <= c <= '9') || c == '_'
  }

  /** End of the run of `\s` characters that starts at `i` (a greedy `\s*`). */
  function SkipSpaces(s: string, i: nat): (j: nat)
    requires i <= |s|
    ensures i <= j <= |s|
    decreases |s| - i
  {
    if i < |s| && IsSpace(s[i]) then SkipSpaces(s, i + 1) else i
  }

  /** The run SkipSpaces passes over is all spaces and stops at a non-space. */
  lemma {:induction false} SkipSpacesRun(s: string, i: nat)
    requires i <= |s|
    ensures forall k :: i <= k < SkipSpaces(s, i) ==> IsSpace(s[k])
    ensures SkipSpaces(s, i) < |s| ==> !IsSpace(s[SkipSpaces(s, i)])
    decreases |s| - i
  {
    if i < |s| && IsSpace(s[i]) {
      SkipSpacesRun(s, i + 1);
    }
  }

  /** A greedy `\s*` run ends at the first non-space: any index with the same
      two properties is the one SkipSpaces finds. */
  lemma SkipSpacesUnique(s: string, i: nat, j: nat)
    requires i <= j <= |s|
    requires forall k :: i <= k < j ==> IsSpace(s[k])
    requires j < |s| ==> !IsSpace(s[j])
    ensures SkipSpaces(s, i) == j
    decreases j - i
  {
    if i < j {
      SkipSpacesUnique(s, i + 1, j);
    }
  }

  /** Python's `s.split('\n')`: the pieces between newlines, always at least one. */
  function Split(s: string): (lines: seq<string>)
    ensures |lines| >= 1
  {
    if s == [] then [""]
    else
      var rest := Split(s[1..]);
      if s[0] == '\n' then [""] + rest
      else [[s[0]] + rest[0]] + rest[1..]
  }

  /** Python's `'\n'.join(xs)`. */
  function JoinLines(xs: seq<string>): (text: string)
  {
    if |xs| == 0 then ""
    else if |xs| == 1 then xs[0]
    else xs[0] + "\n" + JoinLines(xs[1..])
  }

  predicate NoNewline(s: string) {
    forall k :: 0 <= k < |s| ==> s[k] != '\n'
  }

  /** Number of newline characters in `s`. */
  function Newlines(s: string): (n: nat) {
    multiset(s)['\n']
  }

  /** Splitting then joining gives the text back. */
  lemma {:induction false} JoinSplit(s: string)
    ensures JoinLines(Split(s)) == s
  {
    if s != [] {
      var rest := Split(s[1..]);
      JoinSplit(s[1..]);
      if s[0] == '\n' {
        JoinConsEmpty(rest);
      } else {
        JoinConsChar(s[0], rest);
      }
      assert s == [s[0]] + s[1..];
    }
  }

  /** Joining an empty first line puts a newline before the rest. */
  lemma JoinConsEmpty(r: seq<string>)
    requires |r| >= 1
    ensures JoinLines([""] + r) == "\n" + JoinLines(r)
  {
    assert ([""] + r)[1..] == r;
  }

  /** Joining lines whose first line starts with `c` puts `c` before the join. */
  lemma JoinConsChar(c: char, r: seq<string>)
    requires |r| >= 1
    ensures JoinLines([[c] + r[0]] + r[1..]) == [c] + JoinLines(r)
  {
    var xs := [[c] + r[0]] + r[1..];
    if |r| > 1 {
      assert xs[1..] == r[1..];
      PrependFirst(c, r[0], JoinLines(r[1..]));
    }
  }

  lemma PrependFirst(c: char, a: string, j: string)
    ensures ([c] + a) + "\n" + j == [c] + (a + "\n" + j)
  {
  }

  /** No piece of a split contains a newline. */
  lemma {:induction false} SplitNoNewline(s: string)
    ensures forall k :: 0 <= k < |Split(s)| ==> NoNewline(Split(s)[k])
  {
    if s != [] {
      SplitNoNewline(s[1..]);
    }
  }

  /** A text has one more line than it has newlines. */
  lemma {:induction false} SplitCount(s: string)
    ensures |Split(s)| == Newlines(s) + 1
  {
    if s != [] {
      SplitCount(s[1..]);
      assert s == [s[0]] + s[1..];
      assert multiset(s) == multiset{s[0]} + multiset(s[1..]);
    }
  }

  /** A text without newlines is one line. */
  lemma {:induction false} SplitSingle(a: string)
    requires NoNewline(a)
    ensures Split(a) == [a]
  {
    if a != [] {
      SplitSingle(a[1..]);
      assert [a[0]] + a[1..] == a;
    }
  }

  /** One unfolding of Split at a leading newline. */
  lemma SplitConsNewline(t: string)
    ensures Split(['\n'] + t) == [""] + Split(t)
  {
    assert (['\n'] + t)[1..] == t;
  }

  /** One unfolding of Split at a leading character other than a newline. */
  lemma SplitConsChar(c: char, t: string)
    requires c != '\n'
    ensures Split([c] + t) == [[c] + Split(t)[0]] + Split(t)[1..]
  {
    assert ([c] + t)[1..] == t;
  }

  /** Splitting distributes over a newline: the lines of `a + "\n" + b` are
      the lines of `a` followed by the lines of `b`. */
  lemma {:induction false} SplitAppend(a: string, b: string)
    ensures Split(a + "\n" + b) == Split(a) + Split(b)
    decreases |a|
  {
    if a == [] {
      assert a + "\n" + b == ['\n'] + b;
      SplitConsNewline(b);
    } else {
      SplitAppend(a[1..], b);
      SplitAppendCons(a[0], a[1..], b);
      assert [a[0]] + a[1..] == a;
    }
  }

  /** The inductive step of SplitAppend: it carries over from `x` to `[c] + x`. */
  lemma SplitAppendCons(c: char, x: string, b: string)
    requires Split(x + "\n" + b) == Split(x) + Split(b)
    ensures Split([c] + x + "\n" + b) == Split([c] + x) + Split(b)
  {
    var t := x + "\n" + b;
    assert [c] + x + "\n" + b == [c] + t;
    if c == '\n' {
      SplitConsNewline(t);
      SplitConsNewline(x);
      assert [""] + (Split(x) + Split(b)) == ([""] + Split(x)) + Split(b);
    } else {
      SplitConsChar(c, t);
      SplitConsChar(c, x);
      HeadTail(Split(x), Split(b), [c]);
    }
  }

  /** Adding `p` to the first line of `xs + ys` is adding it to the first line of `xs`. */
  lemma HeadTail(xs: seq<string>, ys: seq<string>, p: string)
    requires |xs| >= 1
    ensures [p + (xs + ys)[0]] + (xs + ys)[1..] == ([p + xs[0]] + xs[1..]) + ys
  {
    assert (xs + ys)[0] == xs[0];
    assert (xs + ys)[1..] == xs[1..] + ys;
  }

  /** Joining lines that hold no newline, then splitting, gives the lines back. */
  lemma {:induction false} SplitJoin(xs: seq<string>)
    requires |xs| >= 1
    requires forall k :: 0 <= k < |xs| ==> NoNewline(xs[k])
    ensures Split(JoinLines(xs)) == xs
  {
    SplitSingle(xs[0]);
    if |xs| > 1 {
      SplitJoin(xs[1..]);
      SplitAppend(xs[0], JoinLines(xs[1..]));
      assert [xs[0]] + xs[1..] == xs;
    }
  }
}
