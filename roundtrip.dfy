/**
 * The locators and `path_to_numeric_index` agree: scanning the names of a file that
 * a coordinate locates gives that coordinate back (up to the section slot of a part
 * aggregator, which the part route never reads), and that coordinate locates the
 * same file again.
 */
module RoundTrip {
  import opened Wrappers
  import opened Strings
  import opened Decimal
  import opened Roman
  import opened FileTree
  import opened Classifier
  import opened Locator
  import opened PathIndex

  /** Extending a string keeps its prefixes. */
  lemma StartsWithExtend(s: string, extra: string, prefix: string)
    requires StartsWith(s, prefix)
    ensures StartsWith(s + extra, prefix)
  {
    assert (s + extra)[..|prefix|] == s[..|prefix|];
  }

  /** A name `<pre>NN<sep>…` with a non-digit `sep` yields the number NN after `pre`. */
  lemma NumberAfterPadded(name: Name, pre: string, n: nat, sep: char)
    requires StartsWith(name, pre + Pad2(n) + [sep]) && !IsDigit(sep)
    ensures StartsWith(name, pre) && NumberAfter(name, |pre|) == Some(n)
  {
    var d := Pad2(n);
    var k := |pre|;
    assert name[..k] == (pre + d + [sep])[..k] == pre;
    var rest := name[k + |d|..];
    assert name[k..] == d + rest;
    assert rest[0] == (pre + d + [sep])[k + |d|] == sep;
    DigitRunOf(d, rest);
  }

  lemma AppendixNameStep(c: Coordinate, name: Name, a: nat)
    requires c.Back? && StartsWith(name, "app" + Pad2(a) + "-")
    ensures BackStep(c, name) == Back(a, c.section)
  {
    NumberAfterPadded(name, "app", a, '-');
  }

  lemma SectionNameStepBack(c: Coordinate, name: Name, s: nat)
    requires c.Back? && StartsWith(name, "sec" + Pad2(s) + "-")
    ensures BackStep(c, name) == Back(c.appendix, s)
  {
    NumberAfterPadded(name, "sec", s, '-');
    assert name[0] == 's';
  }

  lemma PartNameStep(c: Coordinate, name: Name, p: nat, sep: char)
    requires c.Body? && StartsWith(name, "part" + Pad2(p) + [sep]) && !IsDigit(sep)
    ensures BodyStep(c, name) == Body(p, c.chapter, c.section)
  {
    NumberAfterPadded(name, "part", p, sep);
  }

  /** A chapter directory's name spells its chapter, by digits or by the roman numeral. */
  lemma ChapterDirNumber(name: Name, ch: nat)
    requires ChapterDirName(name, ch)
    ensures StartsWith(name, "ch") && ChapterNumber(name) == Some(ch) && name[0] == 'c'
  {
    if StartsWith(name, "ch" + Pad2(ch) + "-") {
      NumberAfterPadded(name, "ch", ch, '-');
    } else {
      ChapterRomanNumber(name, ch, ToRoman(ch).value);
    }
  }

  /** A name `ch<numeral>-…` spells the chapter the numeral stands for. */
  lemma ChapterRomanNumber(name: Name, ch: nat, numeral: string)
    requires ToRoman(ch) == Some(numeral) && StartsWith(name, "ch" + numeral + "-")
    ensures StartsWith(name, "ch") && ChapterNumber(name) == Some(ch) && name[0] == 'c'
  {
    ToRomanInverse(ch);
    var pre := "ch" + numeral + "-";
    assert name[..|pre|] == pre;
    assert name[..2] == "ch";
    assert name[2] == numeral[0];
    var rest := name[2 + |numeral|..];
    assert name[2..] == numeral + rest;
    assert rest[0] == pre[2 + |numeral|] == '-';
    RomanRunOf(numeral, rest);
  }

  lemma ChapterNameStep(c: Coordinate, name: Name, ch: nat)
    requires c.Body? && ChapterDirName(name, ch)
    ensures BodyStep(c, name) == Body(c.part, ch, c.section)
  {
    ChapterDirNumber(name, ch);
    assert name[0] == 'c';
  }

  lemma SectionNameStepBody(c: Coordinate, name: Name, s: nat)
    requires c.Body? && StartsWith(name, "sec" + Pad2(s) + "-")
    ensures BodyStep(c, name) == Body(c.part, c.chapter, s)
  {
    NumberAfterPadded(name, "sec", s, '-');
    assert name[0] == 's';
  }

  lemma BackScan3(n0: Name, n1: Name, n2: Name)
    ensures BackScan([n0, n1, n2]) == BackStep(BackStep(BackStep(Back(0, 0), n0), n1), n2)
  {
    assert [n0][..0] == [];
    assert BackScan([n0]) == BackStep(Back(0, 0), n0);
    assert [n0, n1][..1] == [n0];
    assert BackScan([n0, n1]) == BackStep(BackScan([n0]), n1);
    assert [n0, n1, n2][..2] == [n0, n1];
  }

  lemma BodyScan2(n0: Name, n1: Name)
    ensures BodyScan([n0, n1]) == BodyStep(BodyStep(Body(0, 0, 0), n0), n1)
  {
    assert [n0][..0] == [];
    assert BodyScan([n0]) == BodyStep(Body(0, 0, 0), n0);
    assert [n0, n1][..1] == [n0];
  }

  lemma BodyScan3(n0: Name, n1: Name, n2: Name)
    ensures BodyScan([n0, n1, n2]) == BodyStep(BodyStep(BodyStep(Body(0, 0, 0), n0), n1), n2)
  {
    assert [n0][..0] == [];
    assert BodyScan([n0]) == BodyStep(Body(0, 0, 0), n0);
    assert [n0, n1][..1] == [n0];
    assert BodyScan([n0, n1]) == BodyStep(BodyScan([n0]), n1);
    assert [n0, n1, n2][..2] == [n0, n1];
  }

  lemma BodyScan4(n0: Name, n1: Name, n2: Name, n3: Name)
    ensures BodyScan([n0, n1, n2, n3]) ==
            BodyStep(BodyStep(BodyStep(BodyStep(Body(0, 0, 0), n0), n1), n2), n3)
  {
    assert [n0, n1, n2, n3][..3] == [n0, n1, n2];
    BodyScan3(n0, n1, n2);
  }

  /** A chapter aggregator `<chapter dir>.tex` spells the same chapter as its directory. */
  lemma ChapterAggregatorName(d: Name, ch: nat)
    requires ChapterDirName(d, ch)
    ensures ChapterDirName(d + ".tex", ch)
  {
    if StartsWith(d, "ch" + Pad2(ch) + "-") {
      StartsWithExtend(d, ".tex", "ch" + Pad2(ch) + "-");
    } else {
      StartsWithExtend(d, ".tex", "ch" + ToRoman(ch).value + "-");
    }
  }

  /** The name of a chapter's aggregator or section file sets the section, leaving 0 for the aggregator. */
  lemma ChapterLeafStep(t: Tree, chDir: Path, ch: nat, s: nat, p: nat)
    requires |chDir| > 0 && ChapterDirName(Last(chDir), ch) && FindLeaf(t, chDir, s).Some?
    ensures var leaf := Last(FindLeaf(t, chDir, s).value);
            leaf != BackMatter && BodyStep(Body(p, ch, 0), leaf) == Body(p, ch, s)
  {
    if s == 0 {
      ChapterAggregatorStep(t, chDir, ch, p);
    } else {
      SectionLeafStep(t, chDir, s, p, ch);
    }
  }

  lemma ChapterAggregatorStep(t: Tree, chDir: Path, ch: nat, p: nat)
    requires |chDir| > 0 && ChapterDirName(Last(chDir), ch) && FindLeaf(t, chDir, 0).Some?
    ensures var leaf := Last(FindLeaf(t, chDir, 0).value);
            leaf != BackMatter && BodyStep(Body(p, ch, 0), leaf) == Body(p, ch, 0)
  {
    var leaf := Last(FindLeaf(t, chDir, 0).value);
    assert leaf == Last(chDir) + ".tex";
    ChapterAggregatorName(Last(chDir), ch);
    ChapterNameStep(Body(p, ch, 0), leaf, ch);
    ChapterDirNumber(leaf, ch);
  }

  lemma SectionLeafStep(t: Tree, dir: Path, s: nat, p: nat, ch: nat)
    requires |dir| > 0 && s != 0 && FindLeaf(t, dir, s).Some?
    ensures var leaf := Last(FindLeaf(t, dir, s).value);
            leaf != BackMatter && BodyStep(Body(p, ch, 0), leaf) == Body(p, ch, s)
  {
    SectionNameFacts(Last(FindLeaf(t, dir, s).value), s, p, ch);
  }

  /** A `secNN-…` name is not the back matter directory and sets the section to NN. */
  lemma SectionNameFacts(name: Name, s: nat, p: nat, ch: nat)
    requires StartsWith(name, "sec" + Pad2(s) + "-")
    ensures name != BackMatter && BodyStep(Body(p, ch, 0), name) == Body(p, ch, s)
  {
    SectionNameStepBody(Body(p, ch, 0), name, s);
    assert name[0] == 's' && BackMatter[0] == '3';
  }

  /**
   * The two names a chapter lookup adds below `base` (the chapter directory, then its
   * aggregator or a section file) set the chapter and the section and nothing else.
   */
  lemma ChapterAndLeafSteps(t: Tree, base: Path, ch: nat, s: nat, p: nat)
    requires FindChapterAndLeaf(t, base, ch, s).Some?
    ensures var f := FindChapterAndLeaf(t, base, ch, s).value;
            |f| == |base| + 2 && f[|base|] != BackMatter && f[|base| + 1] != BackMatter &&
            BodyStep(BodyStep(Body(p, 0, 0), f[|base|]), f[|base| + 1]) == Body(p, ch, s)
  {
    var f := FindChapterAndLeaf(t, base, ch, s).value;
    var chDir := FindChapterDir(t, base, ch).value;
    assert FindLeaf(t, chDir, s) == Some(f);
    assert f[..|chDir|] == chDir;
    assert f[|base|] == Last(chDir);
    ChapterNameStep(Body(p, 0, 0), Last(chDir), ch);
    ChapterDirNumber(Last(chDir), ch);
    assert Last(chDir)[0] == 'c';
    ChapterLeafStep(t, chDir, ch, s, p);
    assert f[|base| + 1] == Last(f);
  }

  /** The name of an appendix's aggregator or section file sets the section, leaving 0 for the aggregator. */
  lemma AppendixLeafStep(t: Tree, appDir: Path, a: nat, s: nat)
    requires |appDir| > 0 && StartsWith(Last(appDir), "app" + Pad2(a) + "-") && FindLeaf(t, appDir, s).Some?
    ensures BackStep(Back(a, 0), Last(FindLeaf(t, appDir, s).value)) == Back(a, s)
  {
    var leaf := Last(FindLeaf(t, appDir, s).value);
    if s == 0 {
      assert leaf == Last(appDir) + ".tex";
      StartsWithExtend(Last(appDir), ".tex", "app" + Pad2(a) + "-");
      AppendixNameStep(Back(a, 0), leaf, a);
    } else {
      SectionNameStepBack(Back(a, 0), leaf, s);
    }
  }

  /** The names below the LaTeX directory of an appendix path spell its appendix and section. */
  lemma AppendixNamesSpell(n1: Name, n2: Name, a: nat, s: nat)
    requires StartsWith(n1, "app" + Pad2(a) + "-") && BackStep(Back(a, 0), n2) == Back(a, s)
    ensures PathCoordinate([BackMatter, n1, n2]) == Back(a, s)
  {
    MatterNames();
    BackScan3(BackMatter, n1, n2);
    AppendixNameStep(Back(0, 0), n1, a);
  }

  /** An appendix file is `<latex>/300-backmatter/<appendix dir>/<leaf>`. */
  lemma AppendixPathShape(t: Tree, latexDir: Path, a: nat, s: nat)
    requires FindAppendixFile(t, latexDir, a, s).Some?
    ensures var path := FindAppendixFile(t, latexDir, a, s).value;
            var appDir := FirstGlob(t, latexDir + [BackMatter], AppendixPattern(a)).value;
            FindLeaf(t, appDir, s) == Some(path) &&
            path[|latexDir|..] == [BackMatter, Last(appDir), Last(path)]
  {
    var path := FindAppendixFile(t, latexDir, a, s).value;
    var back := latexDir + [BackMatter];
    var appDir := FirstGlob(t, back, AppendixPattern(a)).value;
    assert FindLeaf(t, appDir, s) == Some(path);
    ThreeNamesBelow(latexDir, BackMatter, appDir, path);
  }

  /** A three-name path below `latexDir` whose first two names are `dir`'s last two. */
  lemma ThreeNamesBelow(latexDir: Path, m: Name, dir: Path, path: Path)
    requires |dir| == |latexDir| + 2 && dir[..|latexDir| + 1] == latexDir + [m]
    requires |path| == |dir| + 1 && path[..|dir|] == dir
    ensures path[|latexDir|..] == [m, Last(dir), Last(path)]
  {
    var k := |latexDir|;
    assert path[k] == dir[k] == dir[..k + 1][k] == m;
    assert path[k + 1] == dir[k + 1];
  }

  /** An appendix file's names spell its appendix and section. */
  lemma RescanAppendix(t: Tree, latexDir: Path, a: nat, s: nat)
    requires FindAppendixFile(t, latexDir, a, s).Some?
    ensures var path := FindAppendixFile(t, latexDir, a, s).value;
            PathCoordinate(path[|latexDir|..]) == Back(a, s)
  {
    var path := FindAppendixFile(t, latexDir, a, s).value;
    var appDir := FirstGlob(t, latexDir + [BackMatter], AppendixPattern(a)).value;
    AppendixPathShape(t, latexDir, a, s);
    AppendixLeafStep(t, appDir, a, s);
    AppendixNamesSpell(Last(appDir), Last(path), a, s);
  }

  /** The two matter directories differ, and neither spells a number. */
  lemma MatterNames()
    ensures BodyMatter != BackMatter
    ensures BodyStep(Body(0, 0, 0), BodyMatter) == Body(0, 0, 0)
    ensures BackStep(Back(0, 0), BackMatter) == Back(0, 0)
  {
    assert BodyMatter[0] == '2' && BackMatter[0] == '3';
    assert !StartsWith(BodyMatter, "part") && !StartsWith(BodyMatter, "ch") && !StartsWith(BodyMatter, "sec");
    assert !StartsWith(BackMatter, "app") && !StartsWith(BackMatter, "sec");
  }

  /** A body path below the LaTeX directory has no `300-backmatter` name and is scanned as a body path. */
  lemma BodyNames3(n1: Name, n2: Name)
    requires n1 != BackMatter && n2 != BackMatter
    ensures PathCoordinate([BodyMatter, n1, n2]) == BodyStep(BodyStep(Body(0, 0, 0), n1), n2)
  {
    MatterNames();
    assert BackMatter !in [BodyMatter, n1, n2];
    BodyScan3(BodyMatter, n1, n2);
  }

  lemma BodyNames4(n1: Name, n2: Name, n3: Name)
    requires n1 != BackMatter && n2 != BackMatter && n3 != BackMatter
    ensures PathCoordinate([BodyMatter, n1, n2, n3]) == BodyStep(BodyStep(BodyStep(Body(0, 0, 0), n1), n2), n3)
  {
    MatterNames();
    assert BackMatter !in [BodyMatter, n1, n2, n3];
    BodyScan4(BodyMatter, n1, n2, n3);
  }

  /** A chapter file outside any part is `<latex>/200-bodymatter/<chapter dir>/<leaf>`. */
  lemma NoPartPathShape(t: Tree, latexDir: Path, ch: nat, s: nat)
    requires FindBodymatterFile(t, latexDir, 0, ch, s).Some?
    ensures var path := FindBodymatterFile(t, latexDir, 0, ch, s).value;
            var body := latexDir + [BodyMatter];
            FindChapterAndLeaf(t, body, ch, s) == Some(path) &&
            path[|latexDir|..] == [BodyMatter, path[|body|], path[|body| + 1]]
  {
    var path := FindBodymatterFile(t, latexDir, 0, ch, s).value;
    var body := latexDir + [BodyMatter];
    assert FindChapterAndLeaf(t, body, ch, s) == Some(path);
    ThreeNamesUnder(latexDir, BodyMatter, path);
  }

  /** A path of three names below `latexDir` whose first one is `m`. */
  lemma ThreeNamesUnder(latexDir: Path, m: Name, path: Path)
    requires |path| == |latexDir| + 3 && path[..|latexDir| + 1] == latexDir + [m]
    ensures path[|latexDir|..] == [m, path[|latexDir| + 1], path[|latexDir| + 2]]
  {
    assert path[|latexDir|] == path[..|latexDir| + 1][|latexDir|] == m;
  }

  /** A chapter file outside any part: its names spell part 0, its chapter and its section. */
  lemma RescanBodyNoPart(t: Tree, latexDir: Path, ch: nat, s: nat)
    requires FindBodymatterFile(t, latexDir, 0, ch, s).Some?
    ensures var path := FindBodymatterFile(t, latexDir, 0, ch, s).value;
            PathCoordinate(path[|latexDir|..]) == Body(0, ch, s)
  {
    var path := FindBodymatterFile(t, latexDir, 0, ch, s).value;
    var body := latexDir + [BodyMatter];
    NoPartPathShape(t, latexDir, ch, s);
    ChapterAndLeafSteps(t, body, ch, s, 0);
    BodyNames3(path[|body|], path[|body| + 1]);
  }

  /** The first `partNN-*` directory's name spells part NN. */
  lemma PartDirStep(t: Tree, body: Path, p: nat)
    requires FirstGlob(t, body, PartPattern(p)).Some?
    ensures var partDir := FirstGlob(t, body, PartPattern(p)).value;
            Last(partDir) != BackMatter && BodyStep(Body(0, 0, 0), Last(partDir)) == Body(p, 0, 0)
  {
    PartDirNameStep(Last(FirstGlob(t, body, PartPattern(p)).value), p);
  }

  /** A `partNN-…` name spells part NN and is not the back matter directory. */
  lemma PartDirNameStep(name: Name, p: nat)
    requires StartsWith(name, "part" + Pad2(p) + "-")
    ensures name != BackMatter && BodyStep(Body(0, 0, 0), name) == Body(p, 0, 0)
  {
    PartNameStep(Body(0, 0, 0), name, p, '-');
    assert name[0] == 'p';
  }

  /** `partNN.tex` spells part NN. */
  lemma PartAggregatorStep(p: nat)
    ensures PartAggregatorName(p) != BackMatter &&
            BodyStep(Body(p, 0, 0), PartAggregatorName(p)) == Body(p, 0, 0)
  {
    var agg := PartAggregatorName(p);
    assert agg[..|"part" + Pad2(p) + "."|] == "part" + Pad2(p) + ".";
    PartNameStep(Body(p, 0, 0), agg, p, '.');
    assert agg[0] == 'p';
  }

  /** A part aggregator is `<latex>/200-bodymatter/<part dir>/partNN.tex`. */
  lemma PartAggregatorPathShape(t: Tree, latexDir: Path, p: nat, s: nat)
    requires p != 0 && FindBodymatterFile(t, latexDir, p, 0, s).Some?
    ensures var path := FindBodymatterFile(t, latexDir, p, 0, s).value;
            var partDir := FirstGlob(t, latexDir + [BodyMatter], PartPattern(p)).value;
            path[|latexDir|..] == [BodyMatter, Last(partDir), PartAggregatorName(p)]
  {
    var path := FindBodymatterFile(t, latexDir, p, 0, s).value;
    var body := latexDir + [BodyMatter];
    var partDir := FirstGlob(t, body, PartPattern(p)).value;
    assert path == partDir + [PartAggregatorName(p)];
    assert path[|latexDir|] == partDir[..|body|][|latexDir|] == BodyMatter;
  }

  /** A part aggregator's names spell its part, with chapter and section 0. */
  lemma RescanPartAggregator(t: Tree, latexDir: Path, p: nat, s: nat)
    requires p != 0 && FindBodymatterFile(t, latexDir, p, 0, s).Some?
    ensures var path := FindBodymatterFile(t, latexDir, p, 0, s).value;
            PathCoordinate(path[|latexDir|..]) == Body(p, 0, 0)
  {
    var body := latexDir + [BodyMatter];
    var partDir := FirstGlob(t, body, PartPattern(p)).value;
    PartAggregatorPathShape(t, latexDir, p, s);
    PartDirStep(t, body, p);
    PartAggregatorStep(p);
    BodyNames3(Last(partDir), PartAggregatorName(p));
  }

  /** Inside a part, the chapter lookup starts from the part's first `partNN-*` directory. */
  lemma PartChapterLookup(t: Tree, latexDir: Path, p: nat, ch: nat, s: nat)
    requires p != 0 && ch != 0 && FindBodymatterFile(t, latexDir, p, ch, s).Some?
    ensures var partDir := FirstGlob(t, latexDir + [BodyMatter], PartPattern(p));
            partDir.Some? && |partDir.value| == |latexDir| + 2 &&
            partDir.value[..|latexDir| + 1] == latexDir + [BodyMatter] &&
            FindChapterAndLeaf(t, partDir.value, ch, s) == FindBodymatterFile(t, latexDir, p, ch, s)
  {
    var body := latexDir + [BodyMatter];
    assert FindBodymatterFile(t, latexDir, p, ch, s) == FindInPart(t, body, p, ch, s);
  }

  /** A four-name path below `latexDir` whose first two names are `dir`'s last two. */
  lemma FourNamesBelow(latexDir: Path, dir: Path, path: Path)
    requires |dir| == |latexDir| + 2 && dir[..|latexDir| + 1] == latexDir + [BodyMatter]
    requires |path| == |dir| + 2 && path[..|dir|] == dir
    ensures path[|latexDir|..] == [BodyMatter, Last(dir), path[|dir|], path[|dir| + 1]]
  {
    var k := |latexDir|;
    assert path[k] == dir[k] == dir[..k + 1][k] == BodyMatter;
    assert path[k + 1] == dir[k + 1];
  }

  /** A chapter file inside a part is `<latex>/200-bodymatter/<part dir>/<chapter dir>/<leaf>`. */
  lemma PartChapterPathShape(t: Tree, latexDir: Path, p: nat, ch: nat, s: nat)
    requires p != 0 && ch != 0 && FindBodymatterFile(t, latexDir, p, ch, s).Some?
    ensures var path := FindBodymatterFile(t, latexDir, p, ch, s).value;
            var partDir := FirstGlob(t, latexDir + [BodyMatter], PartPattern(p)).value;
            FindChapterAndLeaf(t, partDir, ch, s) == Some(path) &&
            path[|latexDir|..] == [BodyMatter, Last(partDir), path[|partDir|], path[|partDir| + 1]]
  {
    var path := FindBodymatterFile(t, latexDir, p, ch, s).value;
    var partDir := FirstGlob(t, latexDir + [BodyMatter], PartPattern(p)).value;
    PartChapterLookup(t, latexDir, p, ch, s);
    FourNamesBelow(latexDir, partDir, path);
  }

  /** A chapter file inside a part: its names spell the part, the chapter and the section. */
  lemma RescanPartChapter(t: Tree, latexDir: Path, p: nat, ch: nat, s: nat)
    requires p != 0 && ch != 0 && FindBodymatterFile(t, latexDir, p, ch, s).Some?
    ensures var path := FindBodymatterFile(t, latexDir, p, ch, s).value;
            PathCoordinate(path[|latexDir|..]) == Body(p, ch, s)
  {
    var path := FindBodymatterFile(t, latexDir, p, ch, s).value;
    var body := latexDir + [BodyMatter];
    var partDir := FirstGlob(t, body, PartPattern(p)).value;
    PartChapterPathShape(t, latexDir, p, ch, s);
    PartDirStep(t, body, p);
    ChapterAndLeafSteps(t, partDir, ch, s, p);
    BodyNames4(Last(partDir), path[|partDir|], path[|partDir| + 1]);
  }

  /**
   * The coordinate a file's names spell. It is the coordinate that located the file,
   * except that a part aggregator spells section 0 whatever section was asked for.
   */
  function Canonical(c: Coordinate): Coordinate {
    if c.Body? && c.part != 0 && c.chapter == 0 then Body(c.part, 0, 0) else c
  }

  /**
   * Scanning the names of a located file gives back the coordinate that located it
   * (in canonical form), and that coordinate locates the same file again.
   */
  lemma RescanLocates(t: Tree, latexDir: Path, x: Coordinate)
    requires FindByNumericIndex(t, latexDir, x).Some?
    ensures var path := FindByNumericIndex(t, latexDir, x).value;
            PathCoordinate(path[|latexDir|..]) == Canonical(x) &&
            FindByNumericIndex(t, latexDir, Canonical(x)) == Some(path)
  {
    match x
    case Back(a, s) => RescanAppendix(t, latexDir, a, s);
    case Body(p, ch, s) =>
      if p == 0 {
        RescanBodyNoPart(t, latexDir, ch, s);
      } else if ch == 0 {
        RescanPartAggregator(t, latexDir, p, s);
      } else {
        RescanPartChapter(t, latexDir, p, ch, s);
      }
  }

  /**
   * The round trip locate, write the notation, classify it, locate again: every
   * located file has a notation unless its coordinate is all zeros, and that notation
   * classifies to a coordinate that locates the same file.
   */
  lemma NotationRoundTrip(t: Tree, latexDir: Path, x: Coordinate)
    requires FindByNumericIndex(t, latexDir, x).Some?
    ensures var path := FindByNumericIndex(t, latexDir, x).value;
            var n := ToNotation(path, latexDir);
            (n.None? <==> x == Body(0, 0, 0) || x == Back(0, 0)) &&
            (n.Some? ==> Classify(n.value) == Some(Canonical(x)) &&
                         FindByNumericIndex(t, latexDir, Canonical(x)) == Some(path))
  {
    RescanLocates(t, latexDir, x);
    ClassifyNotation(Canonical(x));
  }

  /**
   * Front matter is not set apart: the scan reads a front-matter path as a body path, so
   * a `secNN-…` file directly under `100-frontmatter` is given the notation `0.0.NN`.
   */
  lemma FrontMatterSectionHasNotation(latexDir: Path, name: Name, s: nat)
    requires s != 0 && StartsWith(name, "sec" + Pad2(s) + "-")
    ensures ToNotation(latexDir + ["100-frontmatter", name], latexDir) == Notation(Body(0, 0, s))
    ensures Notation(Body(0, 0, s)).Some?
  {
    var front: Name := "100-frontmatter";
    var path := latexDir + [front, name];
    assert path[|latexDir|..] == [front, name];
    assert IsPrefix(latexDir, path);
    FrontMatterNames(name, s);
  }

  /** The names `100-frontmatter`, `secNN-…` spell section NN of part 0, chapter 0. */
  lemma FrontMatterNames(name: Name, s: nat)
    requires StartsWith(name, "sec" + Pad2(s) + "-")
    ensures PathCoordinate(["100-frontmatter", name]) == Body(0, 0, s)
  {
    var front: Name := "100-frontmatter";
    SectionNameFacts(name, s, 0, 0);
    FrontMatterStep();
    assert BackMatter !in [front, name] by {
      assert front[0] == '1' && BackMatter[0] == '3';
    }
    BodyScan2(front, name);
  }

  /** The name `100-frontmatter` spells no number. */
  lemma FrontMatterStep()
    ensures BodyStep(Body(0, 0, 0), "100-frontmatter") == Body(0, 0, 0)
  {
    var front: Name := "100-frontmatter";
    assert front[0] == '1';
    assert !StartsWith(front, "part") && !StartsWith(front, "ch") && !StartsWith(front, "sec");
  }
}
