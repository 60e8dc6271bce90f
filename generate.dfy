/** `Preprocess._generateSFile` and `Preprocess.run`: derive the output file
    name from the sketch path, then write the master include, the hoisted
    includes, the prototypes, the marker line and the neutralized body to it.
    Reading the sketch and the file system are outside the model: the
    sketch's text is a parameter and the output file is an object that
    records what is written to it. */
module Preprocess {
  import opened Text
  import Includes
  import Prototypes

  /** `os.path.basename` (POSIX): what follows the last `/`. */
  function Basename(path: string): (b: string)
  {
    if path == [] then []
    else if path[|path| - 1] == '/' then []
    else Basename(path[..|path| - 1]) + [path[|path| - 1]]
  }

  /** The base name is the longest slash-free suffix of the path: a suffix,
      without `/`, and either the whole path or preceded by a `/`. */
  lemma {:induction false} BasenameSpec(path: string)
    ensures var b := Basename(path);
      |b| <= |path| && b == path[|path| - |b|..] && '/' !in b &&
      (|b| < |path| ==> path[|path| - |b| - 1] == '/')
  {
    if path != [] && path[|path| - 1] != '/' {
      var p' := path[..|path| - 1];
      BasenameSpec(p');
      var b' := Basename(p');
      assert Basename(path) == b' + [path[|path| - 1]];
      assert p'[|p'| - |b'|..] + [path[|path| - 1]] == path[|path| - |b'| - 1..];
    }
  }

  /** Start of the run of `\w` characters that ends at index `j`. */
  function WordRunStart(name: string, j: nat): (w: nat)
    requires j <= |name|
    ensures w <= j
    decreases j
  {
    if j > 0 && IsWordChar(name[j - 1]) then WordRunStart(name, j - 1) else j
  }

  lemma {:induction false} WordRunStartRun(name: string, j: nat)
    requires j <= |name|
    ensures forall x :: WordRunStart(name, j) <= x < j ==> IsWordChar(name[x])
    ensures WordRunStart(name, j) > 0 ==> !IsWordChar(name[WordRunStart(name, j) - 1])
    decreases j
  {
    if j > 0 && IsWordChar(name[j - 1]) {
      WordRunStartRun(name, j - 1);
    }
  }

  /** `_re_extension.search(name)` for `\.(\w+)\Z`: the index of the dot, when
      the name ends with a dot and at least one word character. */
  function ExtensionDot(name: string): (dot: Option<nat>)
  {
    var w := WordRunStart(name, |name|);
    if 0 < w < |name| && name[w - 1] == '.' then Some(w - 1) else None
  }

  /** The pattern read as a language: a match of `\.(\w+)\Z` starts at `d`. */
  ghost predicate ExtensionAt(name: string, d: nat) {
    d + 1 < |name| && name[d] == '.' && forall x :: d < x < |name| ==> IsWordChar(name[x])
  }

  /** The search reports exactly the matches of the pattern; there is at most one. */
  lemma ExtensionDotIff(name: string, d: nat)
    ensures ExtensionDot(name) == Some(d) <==> ExtensionAt(name, d)
  {
    var w := WordRunStart(name, |name|);
    WordRunStartRun(name, |name|);
    if ExtensionAt(name, d) {
      assert !IsWordChar(name[d]);
      assert w == d + 1;
    }
  }

  /** The base name with a trailing `.ext` taken off, if it has one. */
  function Stem(base: string): (stem: string)
  {
    match ExtensionDot(base)
    case Some(d) => base[..d]
    case None => base
  }

  /** The output file's name: the stem of the sketch's base name, then `.cpp`. */
  function OutputName(sketch: string): (name: string)
  {
    Stem(Basename(sketch)) + ".cpp"
  }

  /** `os.path.join(dir, name)` (POSIX) for two components. */
  function JoinPath(dir: string, name: string): (path: string)
  {
    if |name| > 0 && name[0] == '/' then name
    else if dir == [] || dir[|dir| - 1] == '/' then dir + name
    else dir + "/" + name
  }

  /** The output name is the base name with its trailing `.\w+` removed when
      there is one, else the whole base name, followed by `.cpp`. */
  lemma OutputNameSpec(sketch: string)
    ensures var base := Basename(sketch);
      (forall d: nat :: ExtensionAt(base, d) ==> OutputName(sketch) == base[..d] + ".cpp") &&
      ((forall d: nat :: !ExtensionAt(base, d)) ==> OutputName(sketch) == base + ".cpp")
  {
    var base := Basename(sketch);
    forall d: nat | ExtensionAt(base, d) ensures OutputName(sketch) == base[..d] + ".cpp" {
      ExtensionDotIff(base, d);
    }
    if ExtensionDot(base).Some? {
      ExtensionDotIff(base, ExtensionDot(base).value);
    }
  }

  /** A sketch named `stem.ext` in any directory gives `stem.cpp`. */
  lemma OutputNameOf(dir: string, stem: string, ext: string)
    requires '/' !in stem
    requires |ext| > 0 && forall x :: 0 <= x < |ext| ==> IsWordChar(ext[x])
    ensures OutputName(dir + "/" + stem + "." + ext) == stem + ".cpp"
  {
    var path := dir + "/" + stem + "." + ext;
    var base := stem + "." + ext;
    assert path == (dir + "/") + base;
    BasenameOf(dir + "/", base);
    assert base[..|stem|] == stem;
    assert ExtensionAt(base, |stem|);
    ExtensionDotIff(base, |stem|);
  }

  /** The base name of a slash-free name, alone or after a path that ends in
      `/`, is that name. */
  lemma {:induction false} BasenameOf(prefix: string, name: string)
    requires prefix == [] || prefix[|prefix| - 1] == '/'
    requires '/' !in name
    ensures Basename(prefix + name) == name
  {
    if name == [] {
      assert prefix + name == prefix;
    } else {
      var n' := name[..|name| - 1];
      assert (prefix + name)[..|prefix + name| - 1] == prefix + n';
      BasenameOf(prefix, n');
      assert n' + [name[|name| - 1]] == name;
    }
  }

  /** The output file lands in the output directory under the output name:
      the joined path starts with the directory and its base name is the
      output name. */
  lemma OutputPathSpec(dir: string, sketch: string)
    ensures |dir| <= |JoinPath(dir, OutputName(sketch))|
    ensures JoinPath(dir, OutputName(sketch))[..|dir|] == dir
    ensures Basename(JoinPath(dir, OutputName(sketch))) == OutputName(sketch)
  {
    var name := OutputName(sketch);
    var base := Basename(sketch);
    BasenameSpec(sketch);
    assert '/' !in Stem(base) by {
      if ExtensionDot(base).Some? {
        var d := ExtensionDot(base).value;
        assert forall c :: c in base[..d] ==> c in base;
      }
    }
    assert '/' !in ".cpp";
    assert '/' !in name;
    assert name[0] != '/' by {
      assert name[0] in name;
    }
    if dir == [] || dir[|dir| - 1] == '/' {
      assert JoinPath(dir, name) == dir + name;
      BasenameOf(dir, name);
    } else {
      assert dir + "/" + name == (dir + "/") + name;
      BasenameOf(dir + "/", name);
    }
  }

  const MasterInclude: string := "#include <Arduino.h>"

  /** The text `_generateSFile` writes for a sketch whose content is `text`.
      The marker line interpolates the sketch's whole text, because the name
      `sketch` has been rebound to it by then. */
  function Assemble(text: string): (out: string)
  {
    var lines := Split(text);
    MasterInclude + "\n" +
    JoinLines(Includes.IncludesOf(lines, |lines|)) + "\n" +
    JoinLines(Prototypes.Prototypes(text)) + "\n" +
    ("// line 1 " + text + "\n") +
    JoinLines(Includes.Neutralize(lines))
  }

  /** The body lines carry no newline: each is an input line or one with `//` before it. */
  lemma NeutralizeNoNewline(lines: seq<string>)
    requires forall k :: 0 <= k < |lines| ==> NoNewline(lines[k])
    ensures forall k :: 0 <= k < |lines| ==> NoNewline(Includes.Neutralize(lines)[k])
  {
    forall k | 0 <= k < |lines| ensures NoNewline(Includes.Neutralize(lines)[k]) {
      var line := lines[k];
      if Includes.IsIncludeLine(line) {
        assert forall x :: 2 <= x < |"//" + line| ==> ("//" + line)[x] == line[x - 2];
      }
    }
  }

  /** The includes section splits into the include lines themselves, or into
      one empty line when there are none. */
  lemma IncludesSection(lines: seq<string>)
    requires forall k :: 0 <= k < |lines| ==> NoNewline(lines[k])
    ensures var inc := Includes.IncludesOf(lines, |lines|);
      Split(JoinLines(inc)) == if inc == [] then [""] else inc
  {
    var inc := Includes.IncludesOf(lines, |lines|);
    if inc != [] {
      Includes.IncludesOfSpec(lines);
      SplitJoin(inc);
    }
  }

  /** Splitting the five sections joined by newlines splits each on its own. */
  lemma SplitSections(a: string, b: string, c: string, d: string, e: string)
    ensures Split(a + "\n" + b + "\n" + c + "\n" + (d + "\n") + e) ==
            Split(a) + Split(b) + Split(c) + Split(d) + Split(e)
  {
    var t3 := d + "\n" + e;
    var t2 := c + "\n" + t3;
    var t1 := b + "\n" + t2;
    JoinAssoc(a, b, c, d, e);
    SplitAppend(d, e);
    SplitAppend(c, t3);
    SplitAppend(b, t2);
    SplitAppend(a, t1);
    ConcatAssoc(Split(a), Split(b), Split(c), Split(d), Split(e));
  }

  lemma JoinAssoc(a: string, b: string, c: string, d: string, e: string)
    ensures a + "\n" + b + "\n" + c + "\n" + (d + "\n") + e ==
            a + "\n" + (b + "\n" + (c + "\n" + (d + "\n" + e)))
  {
  }

  lemma ConcatAssoc<T>(a: seq<T>, b: seq<T>, c: seq<T>, d: seq<T>, e: seq<T>)
    ensures a + (b + (c + (d + e))) == a + b + c + d + e
  {
  }

  /** The master include is a single line. */
  lemma MasterIncludeOneLine()
    ensures Split(MasterInclude) == [MasterInclude]
  {
    assert NoNewline(MasterInclude);
    SplitSingle(MasterInclude);
  }

  /** The output read back as lines: the master include, the includes (an
      empty line when there are none), the lines of the prototype section,
      the lines of the marker, which carries the whole sketch, and then the
      body, one line per line of the sketch. */
  lemma AssembledLines(text: string)
    ensures var lines := Split(text); var inc := Includes.IncludesOf(lines, |lines|);
      Split(Assemble(text)) ==
        [MasterInclude] + (if inc == [] then [""] else inc) +
        Split(JoinLines(Prototypes.Prototypes(text))) +
        Split("// line 1 " + text) +
        Includes.Neutralize(lines)
  {
    var lines := Split(text);
    var inc := Includes.IncludesOf(lines, |lines|);
    var body := Includes.Neutralize(lines);
    var I, P, L, B := JoinLines(inc), JoinLines(Prototypes.Prototypes(text)), "// line 1 " + text, JoinLines(body);
    assert Split(Assemble(text)) == Split(MasterInclude) + Split(I) + Split(P) + Split(L) + Split(B) by {
      assert Assemble(text) == MasterInclude + "\n" + I + "\n" + P + "\n" + (L + "\n") + B;
      SplitSections(MasterInclude, I, P, L, B);
    }
    assert Split(MasterInclude) == [MasterInclude] by {
      MasterIncludeOneLine();
    }
    assert Split(I) == if inc == [] then [""] else inc by {
      SplitNoNewline(text);
      IncludesSection(lines);
    }
    assert Split(B) == body by {
      SplitNoNewline(text);
      NeutralizeNoNewline(lines);
      SplitJoin(body);
    }
  }

  /** The marker line does not stand for one line: it spans as many output
      lines as the sketch has, so the body's first line is not the line after
      the marker. */
  lemma MarkerSpansSketch(text: string)
    ensures |Split("// line 1 " + text)| == |Split(text)|
  {
    SplitCount("// line 1 " + text);
    SplitCount(text);
    assert multiset("// line 1 " + text) == multiset("// line 1 ") + multiset(text);
  }

  /** The output ends with the body: its last lines are the sketch's lines, in
      order, each commented out exactly when it is an include. */
  lemma BodyLinesLast(text: string)
    ensures |Split(text)| <= |Split(Assemble(text))|
    ensures Split(Assemble(text))[|Split(Assemble(text))| - |Split(text)|..] == Includes.Neutralize(Split(text))
  {
    var lines := Split(text);
    var inc := Includes.IncludesOf(lines, |lines|);
    var body := Includes.Neutralize(lines);
    var head := [MasterInclude] + (if inc == [] then [""] else inc) +
                Split(JoinLines(Prototypes.Prototypes(text))) + Split("// line 1 " + text);
    assert Split(Assemble(text)) == head + body by {
      AssembledLines(text);
    }
    assert (head + body)[|head|..] == body;
  }

  /** An empty sketch gives the master include, two empty sections, the
      marker with nothing after it and one empty body line. */
  lemma EmptySketch()
    ensures Assemble("") == "#include <Arduino.h>\n\n\n// line 1 \n"
  {
    EmptySections();
    EmptyPrototypes();
  }

  lemma EmptySections()
    ensures Split("") == [""]
    ensures Includes.IncludesOf([""], 1) == [] && Includes.Neutralize([""]) == [""]
  {
    assert !Includes.IsIncludeLine("");
    assert Includes.IncludesOf([""], 1) == [];
  }

  lemma EmptyPrototypes()
    ensures Prototypes.Prototypes("") == []
  {
  }

  /** The output file `out` of `_generateSFile`: its path and what has been
      written to it so far. */
  class OutFile {
    const path: string
    var contents: string

    /** `open(path, 'wt')`: a new, empty file. */
    constructor Open(path: string)
      ensures this.path == path && contents == ""
    {
      this.path := path;
      contents := "";
    }

    /** `out.write(s)`: appends `s`. */
    method Write(s: string)
      modifies this
      ensures contents == old(contents) + s
    {
      contents := contents + s;
    }
  }

  /** `_generateSFile(sketch, outputPath)` for a sketch whose file holds `sketchText`. */
  method GenerateSFile(sketch: string, outputPath: string, sketchText: string) returns (out: OutFile)
    ensures fresh(out)
    ensures out.path == JoinPath(outputPath, OutputName(sketch))
    ensures out.contents == Assemble(sketchText)
  {
    var sketchBasename := Basename(sketch);
    var hasExt := ExtensionDot(sketchBasename);
    if hasExt.Some? {
      sketchBasename := sketchBasename[..hasExt.value];
    }
    var outputFile := JoinPath(outputPath, sketchBasename + ".cpp");
    out := new OutFile.Open(outputFile);

    var prototypes := Prototypes.Prototypes(sketchText);
    var lines := Split(sketchText);
    var includes, body := Includes.ExtractIncludes(lines);
    assert body == Includes.Neutralize(lines);

    out.Write(MasterInclude + "\n");
    assert out.contents == MasterInclude + "\n";
    out.Write(JoinLines(includes));
    out.Write("\n");
    out.Write(JoinLines(prototypes));
    out.Write("\n");
    out.Write("// line 1 " + sketchText + "\n");
    out.Write(JoinLines(body));
  }

  /** `out` is the file `_generateSFile` produces for `sketch` in `dir`. */
  predicate Generated(out: OutFile, dir: string, sketch: string, text: string)
    reads out
  {
    out.path == JoinPath(dir, OutputName(sketch)) && out.contents == Assemble(text)
  }

  /** `run`: one output file per sketch, in order. `sketches[k]` is a sketch
      path and `texts[k]` the text of that file. */
  method Run(outputDir: string, sketches: seq<string>, texts: seq<string>) returns (outs: seq<OutFile>)
    requires |texts| == |sketches|
    ensures |outs| == |sketches|
    ensures forall k :: 0 <= k < |outs| ==>
              fresh(outs[k]) && Generated(outs[k], outputDir, sketches[k], texts[k])
  {
    outs := [];
    for n := 0 to |sketches|
      invariant |outs| == n
      invariant forall k :: 0 <= k < n ==>
                  fresh(outs[k]) && Generated(outs[k], outputDir, sketches[k], texts[k])
    {
      outs := RunStep(outputDir, sketches, texts, outs);
    }
  }

  /** One turn of the loop of `run`: the file for the next sketch. */
  method RunStep(outputDir: string, sketches: seq<string>, texts: seq<string>, outs: seq<OutFile>)
    returns (outs': seq<OutFile>)
    requires |outs| < |sketches| == |texts|
    ensures |outs'| == |outs| + 1
    ensures forall k :: 0 <= k < |outs| ==> outs'[k] == outs[k]
    ensures fresh(outs'[|outs|])
    ensures Generated(outs'[|outs|], outputDir, sketches[|outs|], texts[|outs|])
  {
    var out := GenerateSFile(sketches[|outs|], outputDir, texts[|outs|]);
    outs' := outs + [out];
  }
}
