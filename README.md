# Arturo sketch preprocessor, modelled in Dafny

Arturo's `preprocess` command turns an Arduino sketch (`.ino`) into a C++
file. `Preprocess._generateSFile` writes the output in this order:

1. the master include `#include <Arduino.h>`;
2. the sketch's `#include` lines, hoisted;
3. one prototype for each match of the prototype pattern `_re_prototype` in
   the redacted, brace-collapsed text. A definition the pattern does not
   match, such as `void Foo::bar() {}` or `void f(int a = 1) {}`, gets none;
4. a marker line `// line 1 …`;
5. the sketch body, with its include lines commented out so that line
   numbers are kept.

The prototypes come from a three-step pipeline:

- `_strip` blanks out literals, comments and directives.
- `_collapse_braces` removes the contents of top-level `{…}` blocks.
- A `findall` of the prototype pattern runs over the result.

The model keeps the code's own behaviour, quirks included.

Each module of the model follows one part of `arturo/commands/build.py`:

| file | module | models |
|---|---|---|
| `text.dfy` | `Text` | `str.split('\n')`, `'\n'.join`, the character classes `\s` and `\w` (Python 2, no locale or Unicode flag) |
| `includes.dfy` | `Includes` | `_re_includes` and `_extract_includes` |
| `braces.dfy` | `Braces` | `_collapse_braces` |
| `redactor.dfy` | `Redactor` | `_re_strip` and `_strip` |
| `prototypes.dfy` | `Prototypes` | `_re_prototype` and `_prototypes` |
| `generate.dfy` | `Preprocess` | `_re_extension`, the output name, `_generateSFile` and `run` |

Each regular expression is modelled twice:

- A scanner, written as a function, says what Python's `re` engine returns at an index.
- A ghost predicate reads the pattern as a language.

Lemmas prove that the two agree.

The two loops of the source are methods over sequences:

- `Braces.CollapseBraces` is proved against the specification function `Braces.Collapse`.
- `Includes.ExtractIncludes` is proved against `Includes.IncludesOf`, the include lines among the first `n` input lines.

The output file is a class whose `Write` appends to its contents. `Preprocess.GenerateSFile` makes the same writes as the source, in the same order, and is proved to produce `Preprocess.Assemble` of the sketch text.

## Model

| member | source | states |
|---|---|---|
| Text.SkipSpacesRun | arturo/commands/build.py:50 | the greedy `\s*` run ends at the first non-space character, and everything it passes is a space |
| Text.SkipSpacesUnique | arturo/commands/build.py:50 | a run of spaces that ends at a non-space is exactly the one `\s*` takes |
| Text.JoinSplit | arturo/commands/build.py:97-110 | joining the lines of `split('\n')` with `\n` gives back the original text |
| Text.SplitCount | arturo/commands/build.py:97 | `split('\n')` gives one more line than the text has newlines, so an empty text gives one empty line |
| Text.SplitNoNewline | arturo/commands/build.py:97 | no line from `split('\n')` contains a newline |
| Text.SplitAppend | arturo/commands/build.py:97 | splitting `a + "\n" + b` gives the lines of `a` followed by the lines of `b` |
| Text.SplitJoin | arturo/commands/build.py:102-110 | a non-empty list of newline-free lines, once joined, splits back into the same list |
| Includes.IsIncludeLineSound | arturo/commands/build.py:50 | every line the include scanner accepts has the shape of `^\s*#include\s*[<"](\S+)[">]` |
| Includes.IsIncludeLineComplete | arturo/commands/build.py:50 | every line of that shape is accepted by the scanner |
| Includes.IsIncludeLineIff | arturo/commands/build.py:50 | the scanner accepts a line if and only if the line matches the include pattern |
| Includes.MismatchedDelimitersAccepted | arturo/commands/build.py:50 | the delimiters are not paired: `#include <foo"` is treated as an include |
| Includes.SpacedPathRejected | arturo/commands/build.py:50 | a space right after the opening delimiter makes the line not an include |
| Includes.ExtractIncludes | arturo/commands/build.py:117-132 | the returned includes are `IncludesOf` all the input lines; the body has exactly as many lines as the input; body line `k` is `'//' + line` when input line `k` is an include, and is the line itself otherwise |
| Includes.NeutralLineIff | arturo/commands/build.py:121-130 | a body line equals `'//' + line` exactly when the input line matches the include pattern; every other line passes through unchanged |
| Includes.IncludesOfSpec | arturo/commands/build.py:122-123 | the includes are exactly the matching input lines, verbatim and in input order: their indices ascend, every matching line is among them, and no other line is |
| Braces.CollapseBraces | arturo/commands/build.py:134-150 | the loop with its `nesting` counter returns `Collapse(src)`, which is the output of one scan step per character |
| Braces.CollapseNoBraces | arturo/commands/build.py:141-143 | text with neither `{` nor `}` comes back unchanged, and nesting ends at 0 |
| Braces.CollapseSubsequence | arturo/commands/build.py:141-148 | when every `}` is read at nesting 1 or more, the output is a subsequence of the input |
| Braces.CollapseKeepsCloses | arturo/commands/build.py:141-148 | when every `}` is read at nesting 1 or more, the output has exactly as many `}` as the input |
| Braces.CollapseAppend | arturo/commands/build.py:141-148 | after a prefix that brings nesting back to 0, the rest collapses on its own |
| Braces.CollapseFlatBlock | arturo/commands/build.py:141-148 | a top-level block with no inner braces collapses to `{}`, and nesting returns to 0 |
| Braces.StrayCloseDoubled | arturo/commands/build.py:141-148 | after any text that leaves nesting at 0, a `}` is emitted twice and nesting becomes -1 |
| Braces.NegativeNestingDrops | arturo/commands/build.py:141-148 | while nesting is negative, every character other than `}` is dropped, so text is lost until a `{` brings nesting back to 0 |
| Braces.NestedCloseLeaks | arturo/commands/build.py:141-148 | the inner `}` of a nested block is copied, so `{{}}` collapses to `{}}` |
| Redactor.LineEnd | arturo/commands/build.py:42-45 | the lazy `.*?$` under MULTILINE stops at the first newline, or at the end of the text |
| Redactor.StringEndSound | arturo/commands/build.py:39 | a string literal the scanner ends has a closing quote and a body in which every backslash escapes one character |
| Redactor.StringEndComplete | arturo/commands/build.py:39 | every closed string literal is ended exactly at its closing quote |
| Redactor.CommentEndSound | arturo/commands/build.py:42 | a block comment ends at the first `*/` after its opening |
| Redactor.CommentEndComplete | arturo/commands/build.py:42 | a block comment that runs to its first `*/` is ended there |
| Redactor.TokenAtSound | arturo/commands/build.py:35-48 | each span the scanner redacts is a character literal, a string literal, a line comment, a block comment or a directive |
| Redactor.StringTokenSound | arturo/commands/build.py:39 | a span the string alternative matches is a quoted literal whose body escapes correctly |
| Redactor.CommentTokenSound | arturo/commands/build.py:42 | a span the block-comment alternative matches opens with `/*`, closes with the first `*/` and holds no `*/` in between |
| Redactor.DirectiveTokenSound | arturo/commands/build.py:45 | a span the directive alternative matches is spaces, a `#`, and the rest of that line |
| Redactor.TokenAtComplete | arturo/commands/build.py:35-48 | each such token that starts at a scan position is redacted whole; a line comment or directive runs to the end of its line, and a directive must start a line |
| Redactor.DirectiveAt | arturo/commands/build.py:45 | a directive at the start of a line is redacted up to the end of that line; its leading `\s*` may cross blank lines |
| Redactor.ScanCovers | arturo/commands/build.py:157 | the substitution loses, adds and reorders nothing: the pieces spell out the input |
| Redactor.ScanTokens | arturo/commands/build.py:157 | every piece replaced by the substitution is a token of one of the five kinds |
| Redactor.StripShorter | arturo/commands/build.py:152-157 | `_strip` never makes the text longer |
| Redactor.StripPlain | arturo/commands/build.py:152-157 | text without `'`, `"`, `/` or `#` comes back unchanged |
| Redactor.StringBracesRedacted | arturo/commands/build.py:152-157 | braces inside a string literal go with the literal: `"{}";` becomes ` ;` |
| Redactor.StripHidesDirective | arturo/commands/build.py:42-45 | a block comment before a `#` on the first line is replaced by a space, and the `#` is then not at a line start, so `/**/ #x` strips to `  #x` |
| Redactor.StripDirectiveLine | arturo/commands/build.py:45 | a line of spaces, `#` and text is redacted whole: `  #x` strips to one space |
| Redactor.StripNotIdempotent | arturo/commands/build.py:152-157 | stripping the output of `_strip` can change it again: `/**/ #x` is a counterexample |
| Prototypes.MatchEndSound | arturo/commands/build.py:49 | every match the prototype scanner reports has the shape of `_re_prototype`, including the `(?=\s*\{)` lookahead |
| Prototypes.MatchEndComplete | arturo/commands/build.py:49 | every match of the pattern at an index is the one the scanner reports there |
| Prototypes.MatchesOrdered | arturo/commands/build.py:114 | the spans `findall` reports do not overlap and come in text order |
| Prototypes.MatchesSound | arturo/commands/build.py:114 | every span `findall` reports is a match of the pattern |
| Prototypes.MatchesLeftmost | arturo/commands/build.py:114 | at no index outside the reported spans does the scanner find a match |
| Prototypes.PrototypesComplete | arturo/commands/build.py:113-114 | no definition-shaped text of the collapsed source lacks a prototype unless it starts inside an earlier match |
| Prototypes.PrototypesSpec | arturo/commands/build.py:112-115 | there is one prototype per match of the collapsed source, in match order, and each is the matched text followed by `;`; repeated signatures are all kept, nothing is deduplicated |
| Prototypes.PrototypesRematch | arturo/commands/build.py:112-115 | a prototype without its `;`, followed by `{`, is matched again in full |
| Prototypes.SignatureRematch | arturo/commands/build.py:115 | the same for each entry of the list comprehension over the matches of already collapsed text |
| Prototypes.MatchStandsAlone | arturo/commands/build.py:49 | a match copied out on its own and followed by `{` is still a whole match |
| Prototypes.CollapseDefinition | arturo/commands/build.py:113 | a brace-free definition head with an empty body collapses to itself |
| Prototypes.DefinitionAt | arturo/commands/build.py:49 | the text `ty name(){}` built from two words has the shape of an empty definition, with the space after `ty` and the `(` where expected |
| Prototypes.DefinitionMatched | arturo/commands/build.py:49 | at an empty definition `ty name(){}` the scanner matches the head `ty name()`, ending just before the `{` |
| Prototypes.BracePairSkipped | arturo/commands/build.py:114 | `findall` finds nothing in a `{}` and resumes after it |
| Prototypes.CollapsedDefinition | arturo/commands/build.py:113 | an empty definition survives redaction and collapsing unchanged |
| Prototypes.DefinitionKept | arturo/commands/build.py:112-115 | an empty definition `h{}` that redaction and collapsing leave as it is gives exactly the one prototype `h;` |
| Prototypes.DefinitionPrototype | arturo/commands/build.py:112-115 | the prototypes of `ty name(){}` are exactly `["ty name();"]` |
| Preprocess.BasenameSpec | arturo/commands/build.py:84 | the base name is the longest suffix of the path without `/` |
| Preprocess.BasenameOf | arturo/commands/build.py:84 | a name without `/`, alone or after a path ending in `/`, is its own base name |
| Preprocess.ExtensionDotIff | arturo/commands/build.py:85-87 | the search with `_re_extension` (compiled at line 47) finds a dot exactly when a `.` followed by one or more `\w` characters ends the name, and reports that dot |
| Preprocess.OutputNameSpec | arturo/commands/build.py:84-89 | the output name is the base name with its trailing `.\w+` removed when there is one, and unchanged otherwise, followed by `.cpp` |
| Preprocess.OutputNameOf | arturo/commands/build.py:84-89 | a sketch `dir/stem.ext`, with `ext` made of word characters, gives `stem.cpp` |
| Preprocess.OutputPathSpec | arturo/commands/build.py:89 | for every output directory, including the empty one, the output path starts with the directory and its base name is the output name, so the file lies directly in that directory |
| Preprocess.GenerateSFile | arturo/commands/build.py:83-110 | the method opens the file at `join(outputPath, OutputName(sketch))` and writes exactly `Assemble(text)` to it |
| Preprocess.Run | arturo/commands/build.py:75-78 | `run` produces one output file per sketch, in order, each holding the assembly of its sketch |
| Preprocess.RunStep | arturo/commands/build.py:77-78 | one turn of the loop of `run` keeps the output objects made so far and adds a new one holding the assembly of the next sketch, at its output path |
| Preprocess.SplitSections | arturo/commands/build.py:100-110 | splitting the five sections, joined by newlines, gives the lines of each section in order |
| Preprocess.AssembledLines | arturo/commands/build.py:95-110 | read back as lines, the output is the master include, then the includes (one empty line when there are none), then the prototype section's lines, then the marker's lines, then the body with one line per sketch line |
| Preprocess.MarkerSpansSketch | arturo/commands/build.py:109 | the marker carries the whole sketch text, so it takes as many lines as the sketch itself |
| Preprocess.BodyLinesLast | arturo/commands/build.py:98-110 | the last lines of the output are the sketch's lines in order, each commented out exactly when it is an include |
| Preprocess.EmptySketch | arturo/commands/build.py:92-110 | an empty sketch gives exactly `#include <Arduino.h>\n\n\n// line 1 \n` |
| Preprocess.EmptySections | arturo/commands/build.py:97-98 | an empty sketch has one empty line, no includes and one empty body line |
| Preprocess.EmptyPrototypes | arturo/commands/build.py:112-115 | an empty sketch has no prototypes |

## Left out

- Reading the sketch file: the sketch's text is a parameter of `GenerateSFile` and `Run`.
- Writing the output: the output file is an object that records what is written to it. Failures of `open`, `read` and `write` are not modelled.
- `mkdirs` in `run`: it only touches the file system.
- Argument handling (`add_parser`, `onVisitArgParser`, `onVisitArgs`): this is argparse plumbing.
- The other commands in `arturo/commands/build.py`: `Cmd_source_headers`, `Cmd_source_files`, `Cmd_mkdirs` and `Cmd_d_to_ad`. They loop over configuration objects and libraries that are not part of this model, or wrap the file system.
- Python's `re` engine in general. Each of the four patterns has a scanner written for it alone, which is proved against the pattern read as a language. This covers the backtracking of `\S+` and `\s+`, the lazy `.*?$` and the lookahead `(?=\s*\{)`.
- Windows line endings: the source only has a TODO for them. Splitting is on `\n` alone, and text-mode newline translation is not modelled.
- `os.path.join` and `os.path.basename` follow their POSIX forms only.
- Redactor.TokenAtSound: does not state that a redacted line comment or directive stops at the end of its line. That fact is in `Redactor.LineEnd` and `Redactor.TokenAtComplete`.
- Preprocess.GenerateSFile: the sketch text is a free parameter. The source opens the output with `'wt'` (`arturo/commands/build.py:91`), which truncates it, before it reads the sketch (`arturo/commands/build.py:93-94`). A sketch whose path equals its output path is therefore read as empty; the model does not capture this.
- Preprocess.Run: each sketch gets a distinct fresh output object. In the source, two sketches with the same stem write the same path, and the later one replaces the earlier; file-system aliasing is not modelled.
- Preprocess.RunStep: it keeps the earlier output objects unchanged, while in the source a sketch with the stem of an earlier one overwrites that earlier file.
- Bytes and characters: the source is Python 2 (`ugettext`, `arturo/commands/build.py:17`) and its patterns are byte-string patterns, so they see bytes. A Dafny `char` here stands for one byte. Reading multi-byte text as code points (a `'é'` that is two bytes in UTF-8, so the character-literal alternative does not match it) is not modelled.

## Where the code departs from its docstrings or from what a reader would expect

The model follows the code in each of these cases.

- **Top-level braces.** The docstring of `_collapse_braces` (`arturo/commands/build.py:135-137`) says it removes the contents of all top-level curly brace pairs. In balanced input every `}` is read at nesting 1 or more, yet a nested `}` is still copied: `{{}}` collapses to `{}}`, so the output is not balanced (`Braces.NestedCloseLeaks`). Only unbalanced input reads a `}` at nesting 0. That `}` is copied twice (`Braces.StrayCloseDoubled`), and text is then dropped until a `{` brings nesting back to 0 (`Braces.NegativeNestingDrops`).
- **Unterminated string or comment.** The docstring of `_strip` (`arturo/commands/build.py:153-156`) says it strips comments and strings. A string or block comment that is never closed is not stripped: its alternative of `_re_strip` does not match, and the scan moves on one character. `Redactor.StringEnd` and `Redactor.CommentEnd` return `None` for it.
- **Stripping twice.** A reader would expect stripped text to be left alone by a second strip. It is not. A `#` that follows a block comment on its line is not a directive, because `^\s*#` allows only spaces before it; once the comment has become a space, the `#` starts a directive. `/**/ #x` strips to `  #x`, which strips to ` ` (`Redactor.StripNotIdempotent`).
- **Prototypes at the beginning.** The class docstring (`arturo/commands/build.py:29-30`) says the prototypes are added at the beginning of the file. They come after the master include and the hoisted includes (`Preprocess.AssembledLines`).
- **The marker line.** A reader would expect `// line 1` to name the file or be one line. It interpolates the whole sketch text, because `sketch` has been rebound to the file's contents by then (`Preprocess.MarkerSpansSketch`).
- **Empty sketch.** A reader would expect an empty sketch to have no body lines. `"".split('\n')` is `['']`, so it has one empty body line. The output text is the same either way (`Preprocess.EmptySketch`).
