/** The redactor, `Preprocess._strip`: `re.sub(' ', src)` with the MULTILINE
    alternation `_re_strip`, whose alternatives are, in order,
      1. a character literal  `'.'`
      2. a string literal     `"(?:[^"\\]|\\.)*"`
      3. a line comment       `//.*?$`
      4. a block comment: an opening slash-star, then text holding no
         star-slash, then the first star-slash
      5. a directive          `^\s*#.*?$`
    The scan tries the alternatives at each index in that order, replaces the
    first match with one space and resumes after it, or copies the character
    and moves on. No alternative matches the empty text. */
module Redactor {
  import opened Text

  /** Where a lazy `.*?` stopped by a MULTILINE `$` ends: the first newline at
      or after `k`, or the end of the text. */
  function LineEnd(s: string, k: nat): (e: nat)
    requires k <= |s|
    ensures k <= e <= |s|
    ensures forall x :: k <= x < e ==> s[x] != '\n'
    ensures e < |s| ==> s[e] == '\n'
    decreases |s| - k
  {
    if k < |s| && s[k] != '\n' then LineEnd(s, k + 1) else k
  }

  /** `(?:[^"\\]|\\.)*` as a language: no bare quote, and every backslash
      escapes one character other than a newline. */
  predicate EscapedBody(b: string)
    decreases |b|
  {
    b == [] ||
    (b[0] != '"' && b[0] != '\\' && EscapedBody(b[1..])) ||
    (|b| >= 2 && b[0] == '\\' && b[1] != '\n' && EscapedBody(b[2..]))
  }

  /** The end of a string literal whose body starts at `k`, just after the
      opening quote; None when the literal is not closed, in which case the
      alternative fails at this index. */
  function StringEnd(s: string, k: nat): (r: Option<nat>)
    requires k <= |s|
    ensures r.Some? ==> k < r.value <= |s|
    decreases |s| - k
  {
    if k >= |s| then None
    else if s[k] == '"' then Some(k + 1)
    else if s[k] == '\\' then (if k + 1 < |s| && s[k + 1] != '\n' then StringEnd(s, k + 2) else None)
    else StringEnd(s, k + 1)
  }

  /** The end of a block comment whose body starts at `k`, just after the
      opening slash-star: just past the first star-slash at or after `k`;
      None when there is none. */
  function CommentEnd(s: string, k: nat): (r: Option<nat>)
    requires k <= |s|
    ensures r.Some? ==> k + 2 <= r.value <= |s|
    decreases |s| - k
  {
    if k + 1 >= |s| then None
    else if s[k] == '*' && s[k + 1] == '/' then Some(k + 2)
    else CommentEnd(s, k + 1)
  }

  /** MULTILINE `^`: the start of the text or just after a newline. */
  predicate AtLineStart(s: string, i: nat)
    requires i <= |s|
  {
    i == 0 || s[i - 1] == '\n'
  }

  /** The end of the match of `_re_strip` at index `i`, if any alternative
      matches there. The alternatives that need a quote or a slash and the one
      that needs a space or `#` cannot both apply at one index. */
  function TokenAt(s: string, i: nat): (r: Option<nat>)
    requires i < |s|
    ensures r.Some? ==> i < r.value <= |s|
  {
    var c := s[i];
    if c == '\'' then
      (if i + 2 < |s| && s[i + 1] != '\n' && s[i + 2] == '\'' then Some(i + 3) else None)
    else if c == '"' then StringEnd(s, i + 1)
    else if c == '/' && i + 1 < |s| && s[i + 1] == '/' then Some(LineEnd(s, i + 2))
    else if c == '/' && i + 1 < |s| && s[i + 1] == '*' then CommentEnd(s, i + 2)
    else if AtLineStart(s, i) then
      var j := SkipSpaces(s, i);
      if j < |s| && s[j] == '#' then Some(LineEnd(s, j + 1)) else None
    else None
  }

  /** The five kinds of text that are redacted, read off the regular expression. */
  predicate IsCharLiteral(t: string) {
    |t| == 3 && t[0] == '\'' && t[1] != '\n' && t[2] == '\''
  }

  predicate IsStringLiteral(t: string) {
    |t| >= 2 && t[0] == '"' && t[|t| - 1] == '"' && EscapedBody(t[1..|t| - 1])
  }

  predicate IsLineComment(t: string) {
    |t| >= 2 && t[0] == '/' && t[1] == '/' && NoNewline(t)
  }

  /** An opening slash-star, then text holding no star-slash, then a
      closing star-slash. */
  predicate IsBlockComment(t: string) {
    |t| >= 4 && t[0] == '/' && t[1] == '*' && t[|t| - 2] == '*' && t[|t| - 1] == '/' &&
    forall x :: 2 <= x < |t| - 2 ==> !(t[x] == '*' && t[x + 1] == '/')
  }

  ghost predicate IsDirective(t: string) {
    exists j :: 0 <= j < |t| && t[j] == '#' &&
      (forall x :: 0 <= x < j ==> IsSpace(t[x])) &&
      (forall x :: j < x < |t| ==> t[x] != '\n')
  }

  ghost predicate IsToken(t: string) {
    IsCharLiteral(t) || IsStringLiteral(t) || IsLineComment(t) || IsBlockComment(t) || IsDirective(t)
  }

  /** One piece of the scan: a character copied through, or a matched token. */
  datatype Piece = Kept(c: char) | Redacted(text: string)

  /** The scan of `re.sub` from index `i` on. */
  function Scan(s: string, i: nat): (ps: seq<Piece>)
    requires i <= |s|
    decreases |s| - i
  {
    if i == |s| then []
    else match TokenAt(s, i)
      case Some(e) => [Redacted(s[i..e])] + Scan(s, e)
      case None => [Kept(s[i])] + Scan(s, i + 1)
  }

  /** What the pieces are written as: each token becomes one space. */
  function Render(ps: seq<Piece>): (out: string)
  {
    if ps == [] then []
    else (match ps[0] case Kept(c) => [c] case Redacted(_) => " ") + Render(ps[1..])
  }

  /** The text the pieces were cut from. */
  function Source(ps: seq<Piece>): (text: string)
  {
    if ps == [] then []
    else (match ps[0] case Kept(c) => [c] case Redacted(t) => t) + Source(ps[1..])
  }

  /** `_strip`. */
  function Strip(s: string): (r: string)
  {
    Render(Scan(s, 0))
  }

  lemma {:induction false} StringEndSound(s: string, k: nat)
    requires k <= |s| && StringEnd(s, k).Some?
    ensures var e := StringEnd(s, k).value; s[e - 1] == '"' && EscapedBody(s[k..e - 1])
    decreases |s| - k
  {
    var e := StringEnd(s, k).value;
    if s[k] == '"' {
      assert s[k..e - 1] == [];
    } else if s[k] == '\\' {
      StringEndSound(s, k + 2);
      assert s[k..e - 1][2..] == s[k + 2..e - 1];
    } else {
      StringEndSound(s, k + 1);
      assert s[k..e - 1][1..] == s[k + 1..e - 1];
    }
  }

  lemma {:induction false} CommentEndSound(s: string, k: nat)
    requires k <= |s| && CommentEnd(s, k).Some?
    ensures s[CommentEnd(s, k).value - 2] == '*' && s[CommentEnd(s, k).value - 1] == '/'
    ensures forall x :: k <= x < CommentEnd(s, k).value - 2 ==> !(s[x] == '*' && s[x + 1] == '/')
    decreases |s| - k
  {
    if !(s[k] == '*' && s[k + 1] == '/') {
      CommentEndSound(s, k + 1);
    }
  }

  /** Every match the scan redacts is a literal, a comment or a directive. */
  lemma TokenAtSound(s: string, i: nat)
    requires i < |s| && TokenAt(s, i).Some?
    ensures IsToken(s[i..TokenAt(s, i).value])
  {
    var c := s[i];
    if c == '\'' {
      assert IsCharLiteral(s[i..TokenAt(s, i).value]);
    } else if c == '"' {
      StringTokenSound(s, i);
    } else if c == '/' && i + 1 < |s| && s[i + 1] == '/' {
      assert IsLineComment(s[i..TokenAt(s, i).value]);
    } else if c == '/' && i + 1 < |s| && s[i + 1] == '*' {
      CommentTokenSound(s, i);
    } else {
      DirectiveTokenSound(s, i);
    }
  }

  lemma StringTokenSound(s: string, i: nat)
    requires i < |s| && s[i] == '"' && StringEnd(s, i + 1).Some?
    ensures IsStringLiteral(s[i..StringEnd(s, i + 1).value])
  {
    var e := StringEnd(s, i + 1).value;
    StringEndSound(s, i + 1);
    QuotedLiteral(s, i, e);
  }

  lemma QuotedLiteral(s: string, i: nat, e: nat)
    requires i + 1 < e <= |s| && s[i] == '"' && s[e - 1] == '"' && EscapedBody(s[i + 1..e - 1])
    ensures IsStringLiteral(s[i..e])
  {
    InnerSlice(s, i, e);
    var t := s[i..e];
    assert |t| >= 2;
    assert t[0] == '"';
    assert t[|t| - 1] == '"';
    assert t[1..|t| - 1] == s[i + 1..e - 1];
    assert EscapedBody(t[1..|t| - 1]);
  }

  lemma InnerSlice(s: string, i: nat, e: nat)
    requires i + 1 < e <= |s|
    ensures s[i..e][1..e - i - 1] == s[i + 1..e - 1]
  {
    var t := s[i..e];
    var u, v := t[1..e - i - 1], s[i + 1..e - 1];
    forall x | 0 <= x < |u| ensures u[x] == v[x] {
      assert u[x] == t[1 + x] == s[i + 1 + x];
    }
  }

  lemma CommentTokenSound(s: string, i: nat)
    requires i + 1 < |s| && s[i] == '/' && s[i + 1] == '*' && CommentEnd(s, i + 2).Some?
    ensures IsBlockComment(s[i..CommentEnd(s, i + 2).value])
  {
    CommentEndSound(s, i + 2);
  }

  lemma DirectiveTokenSound(s: string, i: nat)
    requires i < |s| && AtLineStart(s, i)
    requires SkipSpaces(s, i) < |s| && s[SkipSpaces(s, i)] == '#'
    ensures IsDirective(s[i..LineEnd(s, SkipSpaces(s, i) + 1)])
  {
    var j := SkipSpaces(s, i);
    var e := LineEnd(s, j + 1);
    var t := s[i..e];
    SkipSpacesRun(s, i);
    assert t[j - i] == '#';
    assert forall x :: 0 <= x < j - i ==> IsSpace(t[x]) by {
      forall x | 0 <= x < j - i ensures IsSpace(t[x]) { assert t[x] == s[i + x]; }
    }
    assert forall x :: j - i < x < |t| ==> t[x] != '\n' by {
      forall x | j - i < x < |t| ensures t[x] != '\n' { assert t[x] == s[i + x]; }
    }
  }

  /** A closed literal whose body starts at `k` is where StringEnd stops. */
  lemma {:induction false} StringEndComplete(s: string, k: nat, e: nat)
    requires k < e <= |s| && s[e - 1] == '"' && EscapedBody(s[k..e - 1])
    ensures StringEnd(s, k) == Some(e)
    decreases e - k
  {
    var b := s[k..e - 1];
    if b != [] {
      if b[0] == '\\' {
        assert b[2..] == s[k + 2..e - 1];
        StringEndComplete(s, k + 2, e);
      } else {
        assert b[1..] == s[k + 1..e - 1];
        StringEndComplete(s, k + 1, e);
      }
    }
  }

  /** A comment body that runs up to its first star-slash is where
      CommentEnd stops. */
  lemma {:induction false} CommentEndComplete(s: string, k: nat, e: nat)
    requires k + 2 <= e <= |s| && s[e - 2] == '*' && s[e - 1] == '/'
    requires forall x :: k <= x < e - 2 ==> !(s[x] == '*' && s[x + 1] == '/')
    ensures CommentEnd(s, k) == Some(e)
    decreases e - k
  {
    if k + 2 < e {
      CommentEndComplete(s, k + 1, e);
    }
  }

  /** The lazy `.*?$` from `k` stops at the first line end. */
  lemma LineEndAt(s: string, k: nat, e: nat)
    requires k <= e <= |s|
    requires forall x :: k <= x < e ==> s[x] != '\n'
    requires e == |s| || s[e] == '\n'
    ensures LineEnd(s, k) == e
  {
  }

  /** A token that begins at `i` is what the scan redacts there: a character
      literal, a closed string literal or block comment, or a line comment or
      directive that runs to the end of its line (a directive only at the
      start of a line). The alternatives begin with different characters, so
      their order does not decide between them. */
  lemma TokenAtComplete(s: string, i: nat, e: nat)
    requires i < e <= |s|
    requires var t := s[i..e];
      IsCharLiteral(t) || IsStringLiteral(t) || IsBlockComment(t) ||
      ((IsLineComment(t) || (IsDirective(t) && AtLineStart(s, i))) && (e == |s| || s[e] == '\n'))
    ensures TokenAt(s, i) == Some(e)
  {
    var t := s[i..e];
    if IsCharLiteral(t) {
      assert s[i + 1] == t[1] && s[i + 2] == t[2];
    } else if IsStringLiteral(t) {
      assert forall x :: 0 <= x < |t| ==> t[x] == s[i + x];
      assert t[1..|t| - 1] == s[i + 1..e - 1];
      StringEndComplete(s, i + 1, e);
    } else if IsBlockComment(t) {
      forall x | i + 2 <= x < e - 2 ensures !(s[x] == '*' && s[x + 1] == '/') {
        assert !(t[x - i] == '*' && t[x - i + 1] == '/');
      }
      CommentEndComplete(s, i + 2, e);
    } else if IsLineComment(t) {
      assert s[i + 1] == t[1];
      forall x | i + 2 <= x < e ensures s[x] != '\n' {
        assert s[x] == t[x - i];
      }
      LineEndAt(s, i + 2, e);
    } else {
      DirectiveAt(s, i, e);
    }
  }

  lemma DirectiveAt(s: string, i: nat, e: nat)
    requires i < e <= |s| && IsDirective(s[i..e]) && AtLineStart(s, i)
    requires e == |s| || s[e] == '\n'
    ensures TokenAt(s, i) == Some(e)
  {
    var t := s[i..e];
    var j :| 0 <= j < |t| && t[j] == '#' &&
      (forall x :: 0 <= x < j ==> IsSpace(t[x])) &&
      (forall x :: j < x < |t| ==> t[x] != '\n');
    forall x | i <= x < i + j ensures IsSpace(s[x]) {
      assert s[x] == t[x - i];
    }
    forall x | i + j + 1 <= x < e ensures s[x] != '\n' {
      assert s[x] == t[x - i];
    }
    assert s[i + j] == t[j];
    assert s[i] == '#' || IsSpace(s[i]) by {
      assert s[i] == t[0];
    }
    SkipSpacesUnique(s, i, i + j);
    LineEndAt(s, i + j + 1, e);
  }

  /** The scan cuts the text into pieces without losing, adding or reordering
      anything: the pieces spell out the scanned text. */
  lemma {:induction false} ScanCovers(s: string, i: nat)
    requires i <= |s|
    ensures Source(Scan(s, i)) == s[i..]
    decreases |s| - i
  {
    if i < |s| {
      var e := if TokenAt(s, i).Some? then TokenAt(s, i).value else i + 1;
      ScanCovers(s, e);
      SourceStep(s, i, e);
    }
  }

  /** One step of the scan consumes `s[i..e]`: a token, or one character. */
  lemma SourceStep(s: string, i: nat, e: nat)
    requires i < e <= |s|
    requires TokenAt(s, i) == Some(e) || (TokenAt(s, i) == None && e == i + 1)
    ensures Source(Scan(s, i)) == s[i..e] + Source(Scan(s, e))
    ensures s[i..] == s[i..e] + s[e..]
  {
    var ps := Scan(s, i);
    assert ps[1..] == Scan(s, e);
    if TokenAt(s, i) == None {
      assert s[i..e] == [s[i]];
    }
  }

  /** Every redacted piece is a literal, a comment or a directive. */
  lemma {:induction false} ScanTokens(s: string, i: nat)
    requires i <= |s|
    ensures forall p :: p in Scan(s, i) && p.Redacted? ==> IsToken(p.text)
    decreases |s| - i
  {
    if i < |s| {
      match TokenAt(s, i)
      case Some(e) =>
        TokenAtSound(s, i);
        ScanTokens(s, e);
      case None =>
        ScanTokens(s, i + 1);
    }
  }

  /** Rendering never lengthens: each token is at least one character and becomes one. */
  lemma {:induction false} RenderShorter(ps: seq<Piece>)
    requires forall p :: p in ps && p.Redacted? ==> p.text != []
    ensures |Render(ps)| <= |Source(ps)|
  {
    if ps != [] {
      assert forall p :: p in ps[1..] ==> p in ps;
      RenderShorter(ps[1..]);
    }
  }

  lemma {:induction false} ScanNonEmpty(s: string, i: nat)
    requires i <= |s|
    ensures forall p :: p in Scan(s, i) && p.Redacted? ==> p.text != []
    decreases |s| - i
  {
    if i < |s| {
      match TokenAt(s, i)
      case Some(e) => ScanNonEmpty(s, e);
      case None => ScanNonEmpty(s, i + 1);
    }
  }

  /** The redacted text is never longer than the source. */
  lemma StripShorter(s: string)
    ensures |Strip(s)| <= |s|
  {
    ScanNonEmpty(s, 0);
    RenderShorter(Scan(s, 0));
    ScanCovers(s, 0);
  }

  /** Text with no quote, slash or `#` has nothing to redact. */
  lemma {:induction false} StripPlainFrom(s: string, i: nat)
    requires i <= |s|
    requires forall x :: 0 <= x < |s| ==> s[x] !in "'\"/#"
    ensures Render(Scan(s, i)) == s[i..]
    decreases |s| - i
  {
    if i < |s| {
      assert s[i] !in "'\"/#";
      if AtLineStart(s, i) {
        var j := SkipSpaces(s, i);
        assert j < |s| ==> s[j] !in "'\"/#";
      }
      assert TokenAt(s, i) == None;
      StripPlainFrom(s, i + 1);
      assert Scan(s, i)[1..] == Scan(s, i + 1);
      assert s[i..] == [s[i]] + s[i + 1..];
    }
  }

  lemma StripPlain(s: string)
    requires forall x :: 0 <= x < |s| ==> s[x] !in "'\"/#"
    ensures Strip(s) == s
  {
    StripPlainFrom(s, 0);
  }

  /** Braces inside a string literal are redacted with it and never reach the
      brace collapser. */
  lemma StringBracesRedacted()
    ensures Strip("\"{}\";") == " ;"
  {
    var s := "\"{}\";";
    assert StringEnd(s, 1) == Some(4);
    assert TokenAt(s, 4) == None;
    assert Scan(s, 5) == [];
    assert Scan(s, 4) == [Kept(';')];
    assert Scan(s, 0) == [Redacted(s[0..4]), Kept(';')];
  }

  /** A block comment at the start of a line turns into a space, and the `#`
      after it is no longer at a line start: `/**/ #x` strips to `  #x`. */
  lemma StripHidesDirective()
    ensures Strip("/**/ #x") == "  #x"
  {
    var s := "/**/ #x";
    assert CommentEnd(s, 2) == Some(4);
    assert TokenAt(s, 6) == None;
    assert TokenAt(s, 5) == None;
    assert TokenAt(s, 4) == None;
    assert Scan(s, 7) == [];
    assert Scan(s, 4) == [Kept(' '), Kept('#'), Kept('x')];
    assert Scan(s, 0) == [Redacted(s[0..4]), Kept(' '), Kept('#'), Kept('x')];
  }

  /** Stripping `  #x` redacts the whole line as a directive. */
  lemma StripDirectiveLine()
    ensures Strip("  #x") == " "
  {
    var s := "  #x";
    assert SkipSpaces(s, 2) == 2;
    assert SkipSpaces(s, 0) == 2;
    assert LineEnd(s, 3) == 4;
    assert TokenAt(s, 0) == Some(4);
    assert Scan(s, 0) == [Redacted(s[0..4])];
  }

  /** `_strip` is not idempotent: stripping its own output can change it. */
  lemma StripNotIdempotent()
    ensures Strip(Strip("/**/ #x")) != Strip("/**/ #x")
  {
    StripHidesDirective();
    StripDirectiveLine();
  }
}
