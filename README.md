# Book tooling and status line: target resolution, notation, placeholders, status fragments

This project models three pieces of a plugin repository for writing books in LaTeX and for
drawing an editor status line, and proves properties of the model.

- **Target resolution** (`compile_latex.py`). A user names the `.tex` file to compile with a
  dotted numeric specifier such as `3.5.13` (part 3, chapter 5, section 13) or `A.2.5`
  (appendix 2, section 5). A name or name prefix works too. The book lives under a LaTeX
  directory:
  - `200-bodymatter/partNN-…/chNN-…/secNN-….tex` holds the body;
  - `300-backmatter/appNN-…/secNN-….tex` holds the appendices;
  - the first ten chapters may also be spelled `chi-…` to `chx-…`;
  - a chapter or appendix directory `X` may hold its aggregator `X.tex`, and a part directory
    `partNN-…` may hold `partNN.tex`; a lookup that needs a missing aggregator finds nothing.

  The resolver does four things:
  - it classifies the specifier;
  - it locates the file through the tree;
  - it falls back to a name search;
  - it reports an ambiguous name with the numeric notation of each candidate.

  `path_to_numeric_index` goes the other way, from a file back to its notation.
- **Template placeholders** (`init_latex.py`). `apply_metadata` fills the title, subtitle
  and author placeholders of a new book from the user's metadata. It also rewrites the
  `babel` language option.
- **Status line fragments** (`statusline.py`):
  - ANSI colours that can be switched off;
  - the two percentage colour classifiers;
  - the ASCII progress bar;
  - the context-window arithmetic;
  - the shortening of the current directory with `~`.

The filesystem is an in-memory tree. A `Path` is the sequence of its names. A `Tree` maps
each existing path to a file, or to a directory with its children in enumeration order:
- `exists()` is membership in the tree;
- `glob` is an order-preserving filter of a directory's children, and the first match wins;
- `rglob` filters a given enumeration of the whole subtree (`walk`), because the filesystem
  decides that order.

The modules follow the program:

| module | file | models |
|---|---|---|
| `Wrappers`, `Strings`, `Decimal`, `Roman` | `wrappers.dfy` … `roman.dfy` | Python's `None`, `str.replace`/`split`/`join`/`startswith`, `int()`, `str()`, `{:02d}`, the roman map |
| `FileTree` | `filetree.dfy` | `exists`, `glob`, `rglob` |
| `Classifier` | `classifier.dfy` | `parse_numeric_target` |
| `Locator` | `locator.dfy` | `find_by_numeric_index`, `find_appendix_file`, `find_bodymatter_file` |
| `PathIndex` | `pathindex.dfy` | `path_to_numeric_index` |
| `RoundTrip` | `roundtrip.dfy` | the locators and `path_to_numeric_index` composed |
| `Resolver` | `resolver.dfy` | `find_tex_file`, `AmbiguousTargetError` |
| `Statusline` | `statusline.dfy` | `color`, `rst`, the classifiers, `progress_bar`, lines 256-267 and 286-304 of `main` |
| `Metadata` | `metadata.dfy` | `apply_metadata` |

Where the source works step by step, the model does too. Those places are:
- the padding loops of `parse_numeric_target`;
- the name-by-name loop of `path_to_numeric_index`;
- the suggestion loop of `AmbiguousTargetError`;
- the replacement loop of `apply_metadata`;
- the rebinding of `current_dir` and of the context variables in `main`.

Each of them is a method proved equal to a specification function. The properties are then
proved about that function.

The central results are `RoundTrip.RescanLocates`, `RoundTrip.NotationRoundTrip` and
`Resolver.NotationResolves`. Together they say:
- a file that some coordinate locates gets a notation, unless the coordinate is all zeros;
- that notation classifies back to the coordinate, up to the unused section slot of a part
  aggregator;
- typing the notation resolves to the same file, whatever else the directory holds.

## Model

| member | source | states |
|---|---|---|
| Classifier.ParseNumericTarget | plugins/book-latex/skills/book-latex/cli/windows/compile_latex.py:44-77 | the loop version (int conversion, then padding with zeros) returns exactly `Classify(target)` |
| Classifier.ClassifyBody | plugins/book-latex/skills/book-latex/cli/windows/compile_latex.py:67-77 | one, two or three digit groups give `Body(d1, 0, 0)`, `Body(d1, d2, 0)`, `Body(d1, d2, d3)` with the groups' decimal values |
| Classifier.ClassifyAppendixOne | plugins/book-latex/skills/book-latex/cli/windows/compile_latex.py:57-65 | `A.` or `a.` followed by one digit group is appendix `d1`, section 0 |
| Classifier.ClassifyAppendixTwo | plugins/book-latex/skills/book-latex/cli/windows/compile_latex.py:57-65 | `A.d1.d2` (either case) is appendix `d1`, section `d2` |
| Classifier.ClassifyAppendixThree | plugins/book-latex/skills/book-latex/cli/windows/compile_latex.py:58-61 | a third group after `A.` makes the target not numeric; it is not retried as a body coordinate |
| Classifier.ClassifyBareA | plugins/book-latex/skills/book-latex/cli/windows/compile_latex.py:58-69 | a bare `A` or `a` is not numeric |
| Classifier.ClassifyPadding | plugins/book-latex/skills/book-latex/cli/windows/compile_latex.py:73-77 | `3`, `3.0`, `3.0.0` classify alike, and so do `3.5` and `3.5.0`: padding is with zeros |
| Classifier.ClassifyFourGroups | plugins/book-latex/skills/book-latex/cli/windows/compile_latex.py:68-69 | four digit groups are not numeric |
| Classifier.ClassifyEmptyGroup | plugins/book-latex/skills/book-latex/cli/windows/compile_latex.py:68-69 | a leading, trailing or doubled dot makes a target not numeric |
| Classifier.ClassifyFinalNewline | plugins/book-latex/skills/book-latex/cli/windows/compile_latex.py:60-71 | a final newline, which `$` accepts and `int()` ignores, leaves a numeric classification unchanged |
| Classifier.NewlineKeepsGroupValues | plugins/book-latex/skills/book-latex/cli/windows/compile_latex.py:62-71 | the groups of `s + "\n"` read as the same numbers as those of `s` |
| Classifier.ClassifySound | plugins/book-latex/skills/book-latex/cli/windows/compile_latex.py:57-77 | conversely, a numeric target is an appendix iff it starts with `A.` or `a.`; the rest (less a final newline) is one or two (appendix) or one to three (body) non-empty digit groups joined by dots, and the coordinate's slots are those groups' values, padded with 0 |
| Classifier.ClassifyBodyGroups | plugins/book-latex/skills/book-latex/cli/windows/compile_latex.py:67-77 | any one to three non-empty digit groups joined by dots, optionally followed by one newline, classify as the body coordinate of their values |
| Classifier.ClassifyBackGroups | plugins/book-latex/skills/book-latex/cli/windows/compile_latex.py:57-65 | `A.` or `a.` followed by one or two such groups, optionally followed by one newline, classify as the appendix coordinate of their values |
| Classifier.ClassifyLeadingZero | plugins/book-latex/skills/book-latex/cli/windows/compile_latex.py:62-71 | a leading zero on a target that starts with a digit changes nothing, since `int()` ignores it |
| Decimal.NatToString | plugins/book-latex/skills/book-latex/cli/windows/compile_latex.py:199-201 | `str(n)` is all digits, reads back as `n`, and has no leading zero beyond `0` itself |
| Decimal.Pad2 | plugins/book-latex/skills/book-latex/cli/windows/compile_latex.py:104 | `{n:02d}` has at least two digits, reads back as `n`, and has no leading zero once it is longer than two |
| Decimal.DigitRun | plugins/book-latex/skills/book-latex/cli/windows/compile_latex.py:191-193 | the `\d+` capture is a digit-only prefix, stopped by the first non-digit |
| Decimal.DigitRunOf | plugins/book-latex/skills/book-latex/cli/windows/compile_latex.py:191-193 | the capture of digits followed by a non-digit is exactly those digits |
| Roman.ToRoman | plugins/book-latex/skills/book-latex/cli/windows/compile_latex.py:153-154 | a numeral exists exactly for chapters 1 to 10 |
| Roman.RomanRun | plugins/book-latex/skills/book-latex/cli/windows/compile_latex.py:221 | the `[ivx]+` capture is the longest prefix of `i`, `v`, `x` |
| Roman.ToRomanInverse | plugins/book-latex/skills/book-latex/cli/windows/compile_latex.py:153 | every numeral of the forward map is a non-empty `[ivx]` run that the reverse map reads back as its number |
| Roman.FromRomanInverse | plugins/book-latex/skills/book-latex/cli/windows/compile_latex.py:220-223 | a numeral the reverse map knows is the forward numeral of the number it gives |
| FileTree.Filter | plugins/book-latex/skills/book-latex/cli/windows/compile_latex.py:105-108 | exactly the matching names are kept, and the first kept name is the first match in the listing |
| FileTree.Glob | plugins/book-latex/skills/book-latex/cli/windows/compile_latex.py:105-106 | every result is a matching child of the directory; it is empty iff the directory is missing or has no matching child |
| FileTree.FirstGlob | plugins/book-latex/skills/book-latex/cli/windows/compile_latex.py:105-108 | `glob(...)[0]`: nothing iff there is no match, otherwise the earliest matching child |
| FileTree.GlobExists | plugins/book-latex/skills/book-latex/cli/windows/compile_latex.py:105 | in a well-formed tree every glob result exists |
| FileTree.RGlob | plugins/book-latex/skills/book-latex/cli/windows/compile_latex.py:265-267 | a path is in the result iff it is in the enumeration and its own name matches |
| FileTree.RGlobAppend | plugins/book-latex/skills/book-latex/cli/windows/compile_latex.py:265-267 | the matches of a concatenated enumeration are the matches of the first part followed by those of the second, so the enumeration order is kept |
| FileTree.RGlobOne | plugins/book-latex/skills/book-latex/cli/windows/compile_latex.py:265-267 | a one-path enumeration gives that path iff its name matches, and nothing otherwise |
| Locator.AggregatorOf | plugins/book-latex/skills/book-latex/cli/windows/compile_latex.py:112-113 | the aggregator sits directly inside its directory and is named after it with `.tex` |
| Locator.FindLeaf | plugins/book-latex/skills/book-latex/cli/windows/compile_latex.py:110-122 | section 0 is the aggregator iff it exists; another section is the first `secNN-*.tex` child, whose name starts with `secNN-` |
| Locator.FindAppendixFile | plugins/book-latex/skills/book-latex/cli/windows/compile_latex.py:96-122 | a result requires `300-backmatter` to exist and is a path two levels below it |
| Locator.FindChapterDir | plugins/book-latex/skills/book-latex/cli/windows/compile_latex.py:148-159 | the first `chNN-*` entry; only when there is none and the chapter is 1 to 10, the first `ch<roman>-*`; its name spells the chapter |
| Locator.FindBodymatterFile | plugins/book-latex/skills/book-latex/cli/windows/compile_latex.py:125-173 | a result requires `200-bodymatter` to exist; it lies three levels below, or four inside a part |
| Locator.FindInPart | plugins/book-latex/skills/book-latex/cli/windows/compile_latex.py:136-146 | a result lies under the first `partNN-*` entry; chapter 0 gives that part's own aggregator, two levels down, and it exists; any other chapter is the chapter lookup run in that part directory, three levels down |
| Locator.FindChapterAndLeaf | plugins/book-latex/skills/book-latex/cli/windows/compile_latex.py:148-173 | the chapter directory, then its aggregator or section, two levels below the base |
| Locator.FindByNumericIndex | plugins/book-latex/skills/book-latex/cli/windows/compile_latex.py:80-93 | an appendix coordinate yields a file under `300-backmatter`, a body coordinate one under `200-bodymatter` |
| Locator.LocatedExists | plugins/book-latex/skills/book-latex/cli/windows/compile_latex.py:80-173 | in a well-formed tree whatever a locator returns exists |
| PathIndex.NumberAfter | plugins/book-latex/skills/book-latex/cli/windows/compile_latex.py:191-193 | `re.match(r'app(\d+)')` matches iff a digit follows the prefix |
| PathIndex.PathCoordinate | plugins/book-latex/skills/book-latex/cli/windows/compile_latex.py:186-227 | the path is scanned as an appendix path iff `300-backmatter` is one of its names |
| PathIndex.Notation | plugins/book-latex/skills/book-latex/cli/windows/compile_latex.py:198-202 | there is no notation iff every slot is 0; an appendix notation starts with `A`, a body one with a digit |
| PathIndex.PathToNumericIndex | plugins/book-latex/skills/book-latex/cli/windows/compile_latex.py:176-236 | the loop over the path's names returns `ToNotation(path, latexDir)` |
| PathIndex.ClassifyNotation | plugins/book-latex/skills/book-latex/cli/windows/compile_latex.py:229-236 | a notation classifies back to the coordinate it was written from |
| PathIndex.NotationInjective | plugins/book-latex/skills/book-latex/cli/windows/compile_latex.py:229-236 | two coordinates never share a notation |
| RoundTrip.ChapterDirNumber | plugins/book-latex/skills/book-latex/cli/windows/compile_latex.py:214-223 | a chapter directory found by `chNN-` or `ch<roman>-` is read back as that chapter |
| RoundTrip.RescanAppendix | plugins/book-latex/skills/book-latex/cli/windows/compile_latex.py:186-202 | the names of an appendix file spell its appendix and section |
| RoundTrip.RescanBodyNoPart | plugins/book-latex/skills/book-latex/cli/windows/compile_latex.py:204-227 | the names of a chapter file outside any part spell part 0, its chapter and its section |
| RoundTrip.RescanPartAggregator | plugins/book-latex/skills/book-latex/cli/windows/compile_latex.py:143-146 | the names of a part aggregator spell its part, chapter 0 and section 0 |
| RoundTrip.RescanPartChapter | plugins/book-latex/skills/book-latex/cli/windows/compile_latex.py:136-173 | the names of a chapter file inside a part spell the part, the chapter and the section |
| RoundTrip.RescanLocates | plugins/book-latex/skills/book-latex/cli/windows/compile_latex.py:80-236 | scanning a located file gives back its coordinate in canonical form, and that coordinate locates the same file |
| RoundTrip.NotationRoundTrip | plugins/book-latex/skills/book-latex/cli/windows/compile_latex.py:44-236 | a located file lacks a notation iff its coordinate is all zeros; otherwise the notation classifies to a coordinate that locates it again |
| RoundTrip.FrontMatterSectionHasNotation | plugins/book-latex/skills/book-latex/cli/windows/compile_latex.py:183-236 | a `secNN-` file directly under `100-frontmatter` gets the notation `0.0.NN` |
| Resolver.Suggestions | plugins/book-latex/skills/book-latex/cli/windows/compile_latex.py:35-39 | each suggestion pairs a match with its notation, and every match that has one is suggested |
| Resolver.SuggestionsAppend | plugins/book-latex/skills/book-latex/cli/windows/compile_latex.py:35-39 | the suggestions for concatenated matches are those for the first part followed by those for the second, so they follow the order of the matches |
| Resolver.SuggestionsOne | plugins/book-latex/skills/book-latex/cli/windows/compile_latex.py:35-39 | a single match gives one suggestion with its notation iff it has one, and none otherwise |
| Resolver.NewAmbiguityReport | plugins/book-latex/skills/book-latex/cli/windows/compile_latex.py:29-41 | the constructor's loop keeps the target, the matches and the directory, with exactly those suggestions and the message |
| Resolver.FindTexFile | plugins/book-latex/skills/book-latex/cli/windows/compile_latex.py:239-275 | the step-by-step resolver returns `Resolve(...)` |
| Resolver.NotFoundExactly | plugins/book-latex/skills/book-latex/cli/windows/compile_latex.py:251-270 | nothing is found iff the name is `localsettings`, or the numeric route fails and no entry is named `name.tex` or `name-*.tex` |
| Resolver.ResolvedIsMatch | plugins/book-latex/skills/book-latex/cli/windows/compile_latex.py:255-272 | a resolved file is the numeric hit, or else the only walk entry named `name.tex`, or when there is none the only one named `name-*.tex` |
| Resolver.AmbiguousIsReal | plugins/book-latex/skills/book-latex/cli/windows/compile_latex.py:264-275 | an ambiguity means the numeric route failed and two or more entries match the same pattern; it reports every match of that pattern in walk order, with exactly their suggestions and the message |
| Resolver.ResolvedExists | plugins/book-latex/skills/book-latex/cli/windows/compile_latex.py:239-272 | in a well-formed tree the resolved file exists below the LaTeX directory |
| Resolver.NotationResolves | plugins/book-latex/skills/book-latex/cli/windows/compile_latex.py:255-261 | the notation of a located file resolves to that same file through the whole resolver |
| Resolver.SuggestionResolves | plugins/book-latex/skills/book-latex/cli/windows/compile_latex.py:35-39 | a suggestion offered for a locatable match resolves to that match |
| Statusline.Color | plugins/statusline/statusline.py:26-28 | empty when colours are off, otherwise `ESC [ code m` |
| Statusline.Reset | plugins/statusline/statusline.py:31-33 | the reset sequence is the colour with code `0`, and is empty when colours are off |
| Statusline.ColorInjective | plugins/statusline/statusline.py:26-28 | with colours on, different codes give different sequences |
| Statusline.ContextColorCode | plugins/statusline/statusline.py:73-80 | code 203 iff remaining ≤ 20, 215 iff 20 < remaining ≤ 40, 158 iff remaining > 40 |
| Statusline.ContextColorBands | plugins/statusline/statusline.py:73-80 | two percentages share a colour iff they fall in the same band |
| Statusline.SessionColorCode | plugins/statusline/statusline.py:83-91 | code 210 iff elapsed ≥ 90, 228 iff 75 ≤ elapsed < 90, 194 iff elapsed < 75 |
| Statusline.SessionColorBands | plugins/statusline/statusline.py:83-91 | two elapsed percentages share a colour iff they fall in the same band |
| Statusline.ClampPct | plugins/statusline/statusline.py:97 | the clamped value lies in 0..100, equals the input when that already does, and is 0 below the range and 100 above it |
| Statusline.ProgressBar | plugins/statusline/statusline.py:95-100 | exactly `width` cells (none for a negative width), each `=` or `-`; cell `i` is `=` iff `100*(i+1) <= pct*width` |
| Statusline.ProgressBarMonotone | plugins/statusline/statusline.py:95-100 | a larger percentage never empties a filled cell |
| Statusline.ContextWindow | plugins/statusline/statusline.py:286-304 | the assignments leave the shown text, percentage and colour of `ContextSummary` |
| Statusline.ContextRemainingMeaning | plugins/statusline/statusline.py:294-304 | the percentage lies in 0..100 and is shown iff tokens and size are positive; it is 0 iff the window is full and 100 iff under one percent is used (details below) |
| Statusline.NormalizeMeaning | plugins/statusline/statusline.py:262 | same length; each backslash becomes `/`, every other character stays, and no backslash is left |
| Statusline.CurrentDirOf | plugins/statusline/statusline.py:260 | the directory is never empty (`unknown` is the last fallback) |
| Statusline.ShortenCurrentDir | plugins/statusline/statusline.py:256-267 | the rebinding steps, from the `HOME` and `USERPROFILE` reads on, return `DisplayDirAsWritten` of the directory and of `HOME` when set, else `USERPROFILE` when set, else empty |
| Statusline.HomeDirEffect | plugins/statusline/statusline.py:256-267 | a set `HOME` hides `USERPROFILE` entirely, so a set but empty `HOME` turns the shortening off; without `HOME`, `USERPROFILE` acts as `HOME`; with neither nothing is shortened |
| Statusline.DisplayDirAsWrittenInverse | plugins/statusline/statusline.py:262-267 | the shown path has no backslash, and expanding `~` again gives the normalised directory |
| Statusline.PrefixSiblingShortened | plugins/statusline/statusline.py:266-267 | as written, a directory `h + x` is shown as `~x` for every `x`, even outside the home directory |
| Statusline.DisplayDir | plugins/statusline/statusline.py:264-267 | the corrected shortening: the directory unchanged, or `~` followed by what follows the home directory at a `/` boundary |
| Statusline.DisplayDirMeaning | plugins/statusline/statusline.py:264-267 | the corrected shortening writes only `~` or `~/…`, and `~` still expands back to the directory |
| Statusline.PrefixSiblingKept | plugins/statusline/statusline.py:266-267 | the corrected shortening leaves a sibling that merely shares the home prefix unchanged |
| Metadata.AuthorsString | plugins/book-latex/skills/book-latex/cli/windows/init_latex.py:335-336 | falsy iff there are no authors or the only author is empty; otherwise it starts with the first author and ends with the last |
| Metadata.AuthorsSplit | plugins/book-latex/skills/book-latex/cli/windows/init_latex.py:334-336 | splitting the author line at `" and "` gives back the author list, when no author contains `" and "` or ends with `" and"` |
| Metadata.AuthorsTwo | plugins/book-latex/skills/book-latex/cli/windows/init_latex.py:334-336 | two authors are written as the first, `" and "`, then the second |
| Metadata.SubtitleValue | plugins/book-latex/skills/book-latex/cli/windows/init_latex.py:341-342 | the subtitle when set, else the description; falsy iff both are |
| Metadata.BabelMeaning | plugins/book-latex/skills/book-latex/cli/windows/init_latex.py:350-353 | without a language the content is unchanged; with one, it is cut at every `[english]{babel}` into pieces free of it, which joined with `[english]{babel}` give the content and joined with `[<language>]{babel}` give the result |
| Metadata.ApplyMetadata | plugins/book-latex/skills/book-latex/cli/windows/init_latex.py:329-355 | the loop over the replacements, then the language rewrite, returns `Applied(content, metadata)` |
| Metadata.FillMeaning | plugins/book-latex/skills/book-latex/cli/windows/init_latex.py:346-348 | a falsy value changes nothing; a truthy one cuts the content at every placeholder into placeholder-free pieces and joins them with the value |
| Metadata.FalsyMetadataUnchanged | plugins/book-latex/skills/book-latex/cli/windows/init_latex.py:331-332 | `None`, and metadata whose values are all falsy, return the content unchanged |
| Metadata.NoPlaceholderUnchanged | plugins/book-latex/skills/book-latex/cli/windows/init_latex.py:339-355 | a template with no placeholder and no `[english]{babel}` is returned unchanged, whatever the metadata |
| Metadata.FalsyPlaceholderStays | plugins/book-latex/skills/book-latex/cli/windows/init_latex.py:346-353 | a placeholder with a falsy value stays wherever the template has it, and so does `[english]{babel}` without a language |
| Metadata.PatternsDistinct | plugins/book-latex/skills/book-latex/cli/windows/init_latex.py:339-353 | the four replaced patterns each open with their only `[` and none starts another, so their occurrences never overlap |

Context window (`Statusline.ContextRemainingMeaning`):
- the remaining percentage lies in 0..100;
- the text is shown iff there is a usage with a positive token count and the window size is positive;
- when nothing is shown, the percentage is 0 and the colour is the default white;
- when shown:
  - the text is the percentage followed by `%`;
  - the colour is the context colour of that percentage;
  - the percentage is 0 iff the tokens fill the window;
  - it is 100 iff less than one percent is used;
  - otherwise `(100 - remaining) * size <= 100 * tokens < (101 - remaining) * size`.

## Left out

- Compiling (`run_compile`), every `main()`, the subprocesses (`pdflatex`, `biber`, `git`,
  `ccusage`), printing and exit codes are I/O. They are not modelled.
- `book_cli.py`, `init_book.py` and `scaffold_latex` are not part of this model. They are
  command wrappers and file writes.
- In `statusline.py` the following are not modelled:
  - the floating-point burn rate and tokens per minute;
  - the session timing (`parse_iso_timestamp`, `datetime`);
  - JSON parsing;
  - the emoji line layout.
- The `NO_COLOR` environment read is a `useColor` parameter.
- The `HOME`/`USERPROFILE` reads are `Option` parameters. `context_window_size` is a
  parameter, so its default of 200000 lives with the caller.
- The string values read with `or` (the directories, the metadata) and the token counts read
  with `or 0` are `""` or 0 when missing or `null`. `current_usage` is an `Option`.
- `context_window_size` is an integer parameter. A value there that is not an integer, such
  as a JSON `null`, is not modelled: Python raises a `TypeError` at the `> 0` comparison once
  the token count is positive.
- `""` also stands for missing metadata values. The `None`-or-empty metadata dict is `None`.
- `Metadata.AuthorsString`: does not model an `authors` value that is a string rather than
  a list. Python would join that string's characters.
- The real filesystem is an in-memory tree:
  - the `rglob` enumeration order is a given sequence, because the source defines no
    tie-break;
  - name matching is case-sensitive, whereas Windows `pathlib` matching is not;
  - glob metacharacters inside a target name are taken literally;
  - a target name containing `/` is compared with the final name only. `rglob` would match
    such a pattern across several path components;
  - `relative_to` is a plain path-prefix test, without Windows case folding.
- Digits are ASCII only. Python's `\d` and `int()` also accept other Unicode digits.
- Python's `$` matches before a final newline, so `"3.5\n"` is numeric. This behaviour is
  kept, not left out.
- Front matter files get notations like any other: `path_to_numeric_index` does not set
  `100-frontmatter` apart (`RoundTrip.FrontMatterSectionHasNotation`).
- `300-backmatter` is recognised anywhere in the relative path, not only as its first name.
- The part, chapter, appendix and section lookups take the first glob match. Nothing checks
  that it is the only one.
- `AmbiguousTargetError` is the `AmbiguityReport` value carried by `Ambiguous`. Raising it is
  returning that variant, and its message is a field.
- `if suggestion` in the error's loop is modelled as `Some`. A notation is never empty
  (`PathIndex.Notation`), so the two agree.
- `Resolver.ResolvedExists`: this needs the tree to be well formed and the walk to enumerate
  the LaTeX directory. The other resolver lemmas hold for any walk.

## Findings

| source | as written | input that shows it | evidently intended | confidence | as-written member | corrected member |
|---|---|---|---|---|---|---|
| plugins/statusline/statusline.py:266-267 | `current_dir.startswith(home_normalized)` is a raw string-prefix test | home `/home/al`, current directory `/home/alice/src`: shown as `~ice/src` | shorten only the home directory itself or a path below it (`~` or `~/…`) | medium, not executed | Statusline.PrefixSiblingShortened | Statusline.DisplayDir (with Statusline.DisplayDirMeaning and Statusline.PrefixSiblingKept) |
