/**
 * The reverse direction of the resolver, `path_to_numeric_index`
 * (plugins/book-latex/skills/book-latex/cli/windows/compile_latex.py lines 176-237):
 * the names of a path below the LaTeX directory are scanned one by one, each
 * `appNN`, `partNN`, `chNN` / `ch<roman>` or `secNN` name overwriting its slot,
 * and the coordinate found is written in dotted notation without trailing zeros.
 */
module PathIndex {
  import opened Wrappers
  import opened Strings
  import opened Decimal
  import opened Roman
  import opened FileTree
  import opened Classifier
  import opened Locator

  /** `re.match(r'<prefix>(\d+)', name)` for a name known to start with a `k`-letter prefix. */
  function NumberAfter(name: Name, k: nat): (r: Option<nat>)
    requires k <= |name|
    ensures r.Some? <==> k < |name| && IsDigit(name[k])
  {
    var run := DigitRun(name[k..]);
    if |run| > 0 then Some(DigitsValue(run)) else None
  }

  /** One name of an appendix path: `app<digits>` sets the appendix, `sec<digits>` the section. */
  function BackStep(c: Coordinate, name: Name): (r: Coordinate)
    requires c.Back?
    ensures r.Back?
  {
    if StartsWith(name, "app") then
      match NumberAfter(name, 3)
      case Some(n) => Back(n, c.section)
      case None => c
    else if StartsWith(name, "sec") then
      match NumberAfter(name, 3)
      case Some(n) => Back(c.appendix, n)
      case None => c
    else c
  }

  /** The chapter a `ch…` name spells after its prefix: digits, or else a roman run (0 when unknown). */
  function ChapterNumber(name: Name): Option<nat>
    requires StartsWith(name, "ch")
  {
    match NumberAfter(name, 2)
    case Some(n) => Some(n)
    case None =>
      var run := RomanRun(name[2..]);
      if |run| == 0 then None
      else match FromRoman(run)
        case Some(n) => Some(n)
        case None => Some(0)
  }

  /**
   * One name of a body path. The tests are tried in the source's order, so a name
   * starting with `part` never counts as a chapter.
   */
  function BodyStep(c: Coordinate, name: Name): (r: Coordinate)
    requires c.Body?
    ensures r.Body?
  {
    if StartsWith(name, "part") then
      match NumberAfter(name, 4)
      case Some(n) => Body(n, c.chapter, c.section)
      case None => c
    else if StartsWith(name, "ch") then
      match ChapterNumber(name)
      case Some(n) => Body(c.part, n, c.section)
      case None => c
    else if StartsWith(name, "sec") then
      match NumberAfter(name, 3)
      case Some(n) => Body(c.part, c.chapter, n)
      case None => c
    else c
  }

  /** The appendix scan over `parts`, from `Back(0, 0)`: later names overwrite earlier ones. */
  function BackScan(parts: seq<Name>): (r: Coordinate)
    ensures r.Back?
  {
    if parts == [] then Back(0, 0) else BackStep(BackScan(parts[..|parts| - 1]), parts[|parts| - 1])
  }

  /** The body scan over `parts`, from `Body(0, 0, 0)`. */
  function BodyScan(parts: seq<Name>): (r: Coordinate)
    ensures r.Body?
  {
    if parts == [] then Body(0, 0, 0) else BodyStep(BodyScan(parts[..|parts| - 1]), parts[|parts| - 1])
  }

  /** The coordinate a relative path spells: the appendix scan when `300-backmatter` is one of its names. */
  function PathCoordinate(rel: seq<Name>): (r: Coordinate)
    ensures r.Back? <==> BackMatter in rel
  {
    if BackMatter in rel then BackScan(rel) else BodyScan(rel)
  }

  /**
   * The dotted notation of a coordinate, trailing zero slots left out. A coordinate
   * whose slots are all zero has no notation.
   */
  function Notation(c: Coordinate): (r: Option<string>)
    ensures r.None? <==> c == Body(0, 0, 0) || c == Back(0, 0)
    ensures r.Some? ==> |r.value| > 0 && (c.Back? <==> r.value[0] == 'A') && (c.Body? ==> IsDigit(r.value[0]))
  {
    match c
    case Back(a, s) =>
      if s != 0 then Some("A." + NatToString(a) + "." + NatToString(s))
      else if a != 0 then Some("A." + NatToString(a))
      else None
    case Body(p, ch, s) =>
      if s != 0 then Some(NatToString(p) + "." + NatToString(ch) + "." + NatToString(s))
      else if ch != 0 then Some(NatToString(p) + "." + NatToString(ch))
      else if p != 0 then Some(NatToString(p))
      else None
  }

  /** `path_to_numeric_index(path, latex_dir)`: nothing for a path outside the LaTeX directory. */
  function ToNotation(path: Path, latexDir: Path): Option<string> {
    if IsPrefix(latexDir, path) then Notation(PathCoordinate(path[|latexDir|..])) else None
  }

  /** The loop of `path_to_numeric_index`, name by name. */
  method PathToNumericIndex(path: Path, latexDir: Path) returns (r: Option<string>)
    ensures r == ToNotation(path, latexDir)
  {
    if !(|latexDir| <= |path| && path[..|latexDir|] == latexDir) {
      return None;
    }
    var parts := path[|latexDir|..];
    var c: Coordinate;
    if BackMatter in parts {
      c := Back(0, 0);
      for i := 0 to |parts|
        invariant c == BackScan(parts[..i])
      {
        assert parts[..i + 1][..i] == parts[..i];
        c := BackStep(c, parts[i]);
      }
    } else {
      c := Body(0, 0, 0);
      for i := 0 to |parts|
        invariant c == BodyScan(parts[..i])
      {
        assert parts[..i + 1][..i] == parts[..i];
        c := BodyStep(c, parts[i]);
      }
    }
    assert parts[..|parts|] == parts;
    r := Notation(c);
  }

  /** Reading a notation back with `parse_numeric_target` gives the coordinate it was written from. */
  lemma ClassifyNotation(c: Coordinate)
    ensures Notation(c).Some? ==> Classify(Notation(c).value) == Some(c)
  {
    match c
    case Back(a, s) =>
      if s != 0 {
        ClassifyTwoAppendixSlots(a, s);
      } else {
        ClassifyAppendixOne('A', NatToString(a));
      }
    case Body(p, ch, s) =>
      ClassifyBody(NatToString(p), NatToString(ch), NatToString(s));
  }

  /** The two-slot appendix notation reads back as its coordinate. */
  lemma ClassifyTwoAppendixSlots(a: nat, s: nat)
    ensures Classify("A." + NatToString(a) + "." + NatToString(s)) == Some(Back(a, s))
  {
    var x, y := NatToString(a), NatToString(s);
    ClassifyAppendixTwo('A', x, y);
    assert "A." + x + "." + y == ['A', '.'] + (x + "." + y);
  }

  /** Different coordinates never share a notation. */
  lemma NotationInjective(c1: Coordinate, c2: Coordinate)
    requires Notation(c1).Some? && Notation(c1) == Notation(c2)
    ensures c1 == c2
  {
    ClassifyNotation(c1);
    ClassifyNotation(c2);
  }
}
