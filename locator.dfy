/**
 * The coordinate locators of compile_latex.py: `find_by_numeric_index`,
 * `find_appendix_file` and `find_bodymatter_file` (lines 80-173).
 *
 * Body tree: under <latex>/200-bodymatter, an optional `partNN-…` directory, then a
 * `chNN-…` directory (for chapters 1-10, `chi-…` to `chx-…` when no `chNN-…` exists)
 * holding its aggregator `<chapter dir>.tex` and its `secNN-….tex` files; a whole
 * part is `partNN.tex` inside its directory.
 * Appendix tree: under <latex>/300-backmatter, an `appNN-…` directory holding its
 * aggregator `<appendix dir>.tex` and its `secNN-….tex` files.
 * Wherever a pattern matches several entries, the first in enumeration order wins.
 */
module Locator {
  import opened Wrappers
  import opened Strings
  import opened Decimal
  import opened Roman
  import opened FileTree
  import opened Classifier

  const BodyMatter: Name := "200-bodymatter"
  const BackMatter: Name := "300-backmatter"

  /** `dir / f"{dir.name}.tex"`: the aggregator file named after its directory. */
  function AggregatorOf(dir: Path): (f: Path)
    requires |dir| > 0
    ensures |f| == |dir| + 1 && f[..|dir|] == dir && Last(f) == Last(dir) + ".tex"
  {
    var f := dir + [Last(dir) + ".tex"];
    assert f[..|dir|] == dir;
    f
  }

  function SectionPattern(section: nat): Pattern {
    Wild("sec" + Pad2(section) + "-", ".tex")
  }

  /**
   * The last step shared by both trees: section 0 is the directory's own
   * aggregator if it exists; otherwise the first `secNN-*.tex` inside it.
   */
  function FindLeaf(t: Tree, dir: Path, section: nat): (r: Option<Path>)
    requires |dir| > 0
    ensures section == 0 ==> (r.Some? <==> AggregatorOf(dir) in t) && (r.Some? ==> r.value == AggregatorOf(dir))
    ensures section != 0 ==> r == FirstGlob(t, dir, SectionPattern(section))
    ensures r.Some? ==> |r.value| == |dir| + 1 && r.value[..|dir|] == dir
    ensures r.Some? && section != 0 ==> StartsWith(Last(r.value), "sec" + Pad2(section) + "-")
  {
    if section == 0 then
      var f := AggregatorOf(dir);
      if f in t then Some(f) else None
    else
      var r := FirstGlob(t, dir, SectionPattern(section));
      assert r.Some? ==> r.value in Glob(t, dir, SectionPattern(section));
      r
  }

  function AppendixPattern(appendix: nat): Pattern {
    Wild("app" + Pad2(appendix) + "-", "")
  }

  /** `find_appendix_file(latex_dir, appendix, section)`. */
  function FindAppendixFile(t: Tree, latexDir: Path, appendix: nat, section: nat): (r: Option<Path>)
    ensures r.Some? ==> latexDir + [BackMatter] in t
    ensures r.Some? ==> |r.value| == |latexDir| + 3 && r.value[..|latexDir| + 1] == latexDir + [BackMatter]
  {
    var back := latexDir + [BackMatter];
    if back !in t then None
    else
      match FirstGlob(t, back, AppendixPattern(appendix))
      case None => None
      case Some(appDir) =>
        assert appDir in Glob(t, back, AppendixPattern(appendix));
        var r := FindLeaf(t, appDir, section);
        assert r.Some? ==> r.value[..|latexDir| + 1] == appDir[..|latexDir| + 1];
        r
  }

  function ChapterPattern(chapter: nat): Pattern {
    Wild("ch" + Pad2(chapter) + "-", "")
  }

  function RomanChapterPattern(numeral: string): Pattern {
    Wild("ch" + numeral + "-", "")
  }

  /** A chapter directory's name: `chNN-…`, or for chapters 1-10 also `ch<roman>-…`. */
  predicate ChapterDirName(name: Name, chapter: nat) {
    StartsWith(name, "ch" + Pad2(chapter) + "-") ||
    (1 <= chapter <= 10 && StartsWith(name, "ch" + ToRoman(chapter).value + "-"))
  }

  /**
   * Lines 148-159: the first `chNN-*` entry of `base`; only when there is none and
   * the chapter is 1-10, the first `ch<roman>-*` entry; otherwise nothing.
   */
  function FindChapterDir(t: Tree, base: Path, chapter: nat): (r: Option<Path>)
    ensures FirstGlob(t, base, ChapterPattern(chapter)).Some? ==> r == FirstGlob(t, base, ChapterPattern(chapter))
    ensures FirstGlob(t, base, ChapterPattern(chapter)).None? ==>
              r == if 1 <= chapter <= 10 then FirstGlob(t, base, RomanChapterPattern(ToRoman(chapter).value)) else None
    ensures r.Some? ==> |r.value| == |base| + 1 && r.value[..|base|] == base
    ensures r.Some? ==> ChapterDirName(Last(r.value), chapter)
  {
    var numeric := FirstGlob(t, base, ChapterPattern(chapter));
    if numeric.Some? then
      assert numeric.value in Glob(t, base, ChapterPattern(chapter));
      numeric
    else
      match ToRoman(chapter)
      case None => None
      case Some(numeral) =>
        var r := FirstGlob(t, base, RomanChapterPattern(numeral));
        assert r.Some? ==> r.value in Glob(t, base, RomanChapterPattern(numeral));
        r
  }

  function PartPattern(part: nat): Pattern {
    Wild("part" + Pad2(part) + "-", "")
  }

  /** `part{part:02d}.tex`: the aggregator of a whole part. */
  function PartAggregatorName(part: nat): Name {
    "part" + Pad2(part) + ".tex"
  }

  /** `find_bodymatter_file(latex_dir, part, chapter, section)`. */
  function FindBodymatterFile(t: Tree, latexDir: Path, part: nat, chapter: nat, section: nat): (r: Option<Path>)
    ensures r.Some? ==> latexDir + [BodyMatter] in t
    ensures r.Some? ==> |r.value| == |latexDir| + (if part != 0 && chapter != 0 then 4 else 3) &&
                        r.value[..|latexDir| + 1] == latexDir + [BodyMatter]
  {
    var body := latexDir + [BodyMatter];
    assert |body| == |latexDir| + 1;
    if body !in t then None
    else if part == 0 then FindChapterAndLeaf(t, body, chapter, section)
    else
      var r := FindInPart(t, body, part, chapter, section);
      assert r.Some? ==> |r.value| == |body| + (if chapter == 0 then 2 else 3);
      r
  }

  /**
   * Lines 136-146: the first `partNN-*` entry of the body directory; chapter 0 is the
   * part's own `partNN.tex`, any other chapter is looked up inside the part.
   */
  function FindInPart(t: Tree, body: Path, part: nat, chapter: nat, section: nat): (r: Option<Path>)
    ensures r.Some? ==> |r.value| == |body| + (if chapter == 0 then 2 else 3) && r.value[..|body|] == body
    ensures r.Some? ==> FirstGlob(t, body, PartPattern(part)).Some? &&
                        r.value[..|body| + 1] == FirstGlob(t, body, PartPattern(part)).value
    ensures r.Some? && chapter == 0 ==> Last(r.value) == PartAggregatorName(part) && r.value in t
    ensures r.Some? && chapter != 0 ==> r == FindChapterAndLeaf(t, FirstGlob(t, body, PartPattern(part)).value, chapter, section)
  {
    match FirstGlob(t, body, PartPattern(part))
    case None => None
    case Some(partDir) =>
      if chapter == 0 then
        var f := partDir + [PartAggregatorName(part)];
        assert f[..|partDir|] == partDir;
        PrefixThrough(body, partDir, f);
        if f in t then Some(f) else None
      else
        var r := FindChapterAndLeaf(t, partDir, chapter, section);
        if r.Some? then PrefixThrough(body, partDir, r.value); r else r
  }

  /** Lines 148-173: the chapter directory under `base`, then the chapter aggregator or a section. */
  function FindChapterAndLeaf(t: Tree, base: Path, chapter: nat, section: nat): (r: Option<Path>)
    ensures r.Some? ==> |r.value| == |base| + 2 && r.value[..|base|] == base
  {
    match FindChapterDir(t, base, chapter)
    case None => None
    case Some(chDir) =>
      var r := FindLeaf(t, chDir, section);
      assert r.Some? ==> r.value[..|base|] == chDir[..|base|];
      r
  }

  /** `find_by_numeric_index`: the appendix route for `Back`, the body route for `Body`. */
  function FindByNumericIndex(t: Tree, latexDir: Path, c: Coordinate): (r: Option<Path>)
    ensures r.Some? ==> IsPrefix(latexDir, r.value) && |r.value| > |latexDir| + 1
    ensures r.Some? ==> r.value[|latexDir|] == (if c.Back? then BackMatter else BodyMatter)
  {
    match c
    case Back(appendix, section) =>
      var r := FindAppendixFile(t, latexDir, appendix, section);
      assert r.Some? ==> r.value[..|latexDir|] == (latexDir + [BackMatter])[..|latexDir|];
      assert r.Some? ==> r.value[|latexDir|] == r.value[..|latexDir| + 1][|latexDir|];
      r
    case Body(part, chapter, section) =>
      var r := FindBodymatterFile(t, latexDir, part, chapter, section);
      assert r.Some? ==> r.value[..|latexDir|] == (latexDir + [BodyMatter])[..|latexDir|];
      assert r.Some? ==> r.value[|latexDir|] == r.value[..|latexDir| + 1][|latexDir|];
      r
  }

  /** In a well-formed tree whatever a locator returns exists. */
  lemma LocatedExists(t: Tree, latexDir: Path, c: Coordinate)
    requires WellFormed(t)
    ensures FindByNumericIndex(t, latexDir, c).Some? ==> FindByNumericIndex(t, latexDir, c).value in t
  {
    var r := FindByNumericIndex(t, latexDir, c);
    if r.Some? {
      match c
      case Back(appendix, section) =>
        var back := latexDir + [BackMatter];
        var appDir := FirstGlob(t, back, AppendixPattern(appendix)).value;
        LeafExists(t, appDir, section);
      case Body(part, chapter, section) =>
        var body := latexDir + [BodyMatter];
        if part == 0 {
          ChapterAndLeafExists(t, body, chapter, section);
        } else if chapter != 0 {
          var partDir := FirstGlob(t, body, PartPattern(part)).value;
          ChapterAndLeafExists(t, partDir, chapter, section);
        }
    }
  }

  lemma LeafExists(t: Tree, dir: Path, section: nat)
    requires WellFormed(t) && |dir| > 0
    ensures FindLeaf(t, dir, section).Some? ==> FindLeaf(t, dir, section).value in t
  {
    GlobExists(t, dir, SectionPattern(section));
  }

  lemma ChapterAndLeafExists(t: Tree, base: Path, chapter: nat, section: nat)
    requires WellFormed(t)
    ensures FindChapterAndLeaf(t, base, chapter, section).Some? ==>
              FindChapterAndLeaf(t, base, chapter, section).value in t
  {
    var d := FindChapterDir(t, base, chapter);
    if d.Some? {
      LeafExists(t, d.value, section);
    }
  }
}
