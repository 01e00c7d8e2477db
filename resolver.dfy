/**
 * The target resolver `find_tex_file` and the ambiguity report it raises
 * (plugins/book-latex/skills/book-latex/cli/windows/compile_latex.py lines 26-41 and
 * 240-280). A target is tried as a numeric coordinate first, then as a file name,
 * then as a file-name prefix; several prefix or name matches are reported with the
 * numeric notation of each match that has one.
 */
module Resolver {
  import opened Wrappers
  import opened Strings
  import opened Decimal
  import opened FileTree
  import opened Classifier
  import opened Locator
  import opened PathIndex
  import opened RoundTrip

  /**
   * `AmbiguousTargetError`: the target, every match in enumeration order, the LaTeX
   * directory, the `(notation, match)` suggestions and the exception's message.
   */
  datatype AmbiguityReport = AmbiguityReport(
    target: string, matches: seq<Path>, latexDir: Path,
    suggestions: seq<(string, Path)>, message: string)

  /** What `find_tex_file` does: return a file, raise the ambiguity error, or return `None`. */
  datatype Resolution = Resolved(path: Path) | Ambiguous(report: AmbiguityReport) | NotFound

  /** The suggestions the error offers: each match that has a notation, paired with it, in match order. */
  function Suggestions(matches: seq<Path>, latexDir: Path): (r: seq<(string, Path)>)
    ensures |r| <= |matches|
    ensures forall k :: 0 <= k < |r| ==> r[k].1 in matches && ToNotation(r[k].1, latexDir) == Some(r[k].0)
    ensures forall m :: m in matches && ToNotation(m, latexDir).Some? ==> (ToNotation(m, latexDir).value, m) in r
    decreases |matches|
  {
    if matches == [] then []
    else
      var init := Suggestions(matches[..|matches| - 1], latexDir);
      var m := matches[|matches| - 1];
      assert forall x :: x in matches[..|matches| - 1] ==> x in matches;
      assert forall x :: x in matches ==> x in matches[..|matches| - 1] || x == m;
      match ToNotation(m, latexDir)
      case Some(n) => init + [(n, m)]
      case None => init
  }

  /**
   * The suggestions keep the match order: those of a list of matches are the
   * suggestions of its first part followed by those of the rest.
   */
  lemma {:induction false} SuggestionsAppend(a: seq<Path>, b: seq<Path>, latexDir: Path)
    ensures Suggestions(a + b, latexDir) == Suggestions(a, latexDir) + Suggestions(b, latexDir)
    decreases |b|
  {
    if b == [] {
      assert a + b == a;
    } else {
      var b' := b[..|b| - 1];
      var m := b[|b| - 1];
      assert b == b' + [m];
      assert a + b == (a + b') + [m];
      SuggestionsAppend(a, b', latexDir);
      SuggestionsSnoc(a + b', m, latexDir);
      SuggestionsSnoc(b', m, latexDir);
    }
  }

  /** One more match adds its own suggestion, if any, at the end. */
  lemma SuggestionsSnoc(ms: seq<Path>, m: Path, latexDir: Path)
    ensures Suggestions(ms + [m], latexDir) == Suggestions(ms, latexDir) + Suggestions([m], latexDir)
  {
    var s := ms + [m];
    assert s[..|s| - 1] == ms;
    assert [m][..0] == [];
  }

  /** A single match gives a suggestion exactly when it has a notation. */
  lemma SuggestionsOne(m: Path, latexDir: Path)
    ensures Suggestions([m], latexDir) ==
            match ToNotation(m, latexDir) case Some(n) => [(n, m)] case None => []
  {
    assert [m][..0] == [];
  }

  function AmbiguityMessage(target: string): string {
    "Ambiguous target '" + target + "'"
  }

  /** `AmbiguousTargetError(target, matches, latex_dir)`: the constructor's loop over the matches. */
  method NewAmbiguityReport(target: string, matches: seq<Path>, latexDir: Path) returns (e: AmbiguityReport)
    ensures e == AmbiguityReport(target, matches, latexDir, Suggestions(matches, latexDir), AmbiguityMessage(target))
  {
    var suggestions: seq<(string, Path)> := [];
    for i := 0 to |matches|
      invariant suggestions == Suggestions(matches[..i], latexDir)
    {
      assert matches[..i + 1][..i] == matches[..i];
      var suggestion := PathToNumericIndex(matches[i], latexDir);
      if suggestion.Some? {
        suggestions := suggestions + [(suggestion.value, matches[i])];
      }
    }
    assert matches[..|matches|] == matches;
    e := AmbiguityReport(target, matches, latexDir, suggestions, AmbiguityMessage(target));
  }

  /** The numeric route: the file a numeric target locates, if it is numeric and locates one. */
  function NumericHit(t: Tree, latexDir: Path, name: string): Option<Path> {
    match Classify(name)
    case Some(c) => FindByNumericIndex(t, latexDir, c)
    case None => None
  }

  function ExactPattern(name: string): Pattern {
    Exact(name + ".tex")
  }

  function PrefixPattern(name: string): Pattern {
    Wild(name + "-", ".tex")
  }

  /** `rglob(f"{name}.tex")`, or when that finds nothing `rglob(f"{name}-*.tex")`. */
  function NameCandidates(walk: seq<Path>, name: string): seq<Path> {
    var exact := RGlob(walk, ExactPattern(name));
    if |exact| > 0 then exact else RGlob(walk, PrefixPattern(name))
  }

  /** The outcome of `find_tex_file(latex_dir, name)` when `walk` is the enumeration `rglob` sees. */
  function Resolve(t: Tree, latexDir: Path, walk: seq<Path>, name: string): Resolution {
    if name == "localsettings" then NotFound
    else if NumericHit(t, latexDir, name).Some? then Resolved(NumericHit(t, latexDir, name).value)
    else
      var matches := NameCandidates(walk, name);
      if |matches| == 0 then NotFound
      else if |matches| == 1 then Resolved(matches[0])
      else Ambiguous(AmbiguityReport(name, matches, latexDir, Suggestions(matches, latexDir), AmbiguityMessage(name)))
  }

  /** `find_tex_file`, step by step. */
  method FindTexFile(t: Tree, latexDir: Path, walk: seq<Path>, name: string) returns (r: Resolution)
    ensures r == Resolve(t, latexDir, walk, name)
  {
    if name == "localsettings" {
      return NotFound;
    }
    var numeric := ParseNumericTarget(name);
    if numeric.Some? {
      var result := FindByNumericIndex(t, latexDir, numeric.value);
      if result.Some? {
        return Resolved(result.value);
      }
    }
    var matches := RGlob(walk, ExactPattern(name));
    if |matches| == 0 {
      matches := RGlob(walk, PrefixPattern(name));
    }
    if |matches| == 0 {
      r := NotFound;
    } else if |matches| == 1 {
      r := Resolved(matches[0]);
    } else {
      var e := NewAmbiguityReport(name, matches, latexDir);
      r := Ambiguous(e);
    }
  }

  /** Some entry of the walk is named exactly `name.tex`. */
  predicate HasExactName(walk: seq<Path>, name: string) {
    exists k :: 0 <= k < |walk| && |walk[k]| > 0 && NameMatches(Last(walk[k]), ExactPattern(name))
  }

  /** Some entry of the walk is named `name-*.tex`. */
  predicate HasPrefixName(walk: seq<Path>, name: string) {
    exists k :: 0 <= k < |walk| && |walk[k]| > 0 && NameMatches(Last(walk[k]), PrefixPattern(name))
  }

  lemma RGlobEmpty(walk: seq<Path>, pat: Pattern)
    ensures |RGlob(walk, pat)| == 0 <==> !exists k :: 0 <= k < |walk| && |walk[k]| > 0 && NameMatches(Last(walk[k]), pat)
  {
    var r := RGlob(walk, pat);
    if |r| > 0 {
      assert r[0] in r;
      var k :| 0 <= k < |walk| && walk[k] == r[0];
    }
    if k :| 0 <= k < |walk| && |walk[k]| > 0 && NameMatches(Last(walk[k]), pat) {
      assert walk[k] in walk;
      assert walk[k] in r;
    }
  }

  /**
   * Nothing is found exactly when the target is `localsettings`, or it neither locates
   * a file numerically nor names any entry of the walk, exactly or as a prefix.
   */
  lemma NotFoundExactly(t: Tree, latexDir: Path, walk: seq<Path>, name: string)
    ensures Resolve(t, latexDir, walk, name) == NotFound <==>
            name == "localsettings" ||
            (NumericHit(t, latexDir, name).None? && !HasExactName(walk, name) && !HasPrefixName(walk, name))
  {
    RGlobEmpty(walk, ExactPattern(name));
    RGlobEmpty(walk, PrefixPattern(name));
  }

  /**
   * What a resolved file is: the numeric hit when there is one; otherwise the only entry
   * of the walk named `name.tex`, or when there is none the only entry named `name-*.tex`.
   */
  lemma ResolvedIsMatch(t: Tree, latexDir: Path, walk: seq<Path>, name: string)
    requires Resolve(t, latexDir, walk, name).Resolved?
    ensures var p := Resolve(t, latexDir, walk, name).path;
            var pat := if HasExactName(walk, name) then ExactPattern(name) else PrefixPattern(name);
            name != "localsettings" &&
            (NumericHit(t, latexDir, name) == Some(p) ||
             (NumericHit(t, latexDir, name).None? && p in walk && |p| > 0 && NameMatches(Last(p), pat) &&
              forall q :: q in walk && |q| > 0 && NameMatches(Last(q), pat) ==> q == p))
  {
    var p := Resolve(t, latexDir, walk, name).path;
    if NumericHit(t, latexDir, name).None? {
      RGlobEmpty(walk, ExactPattern(name));
      var matches := NameCandidates(walk, name);
      assert matches == [p];
      assert matches[0] in matches;
    }
  }

  /**
   * An ambiguity is raised only when the numeric route failed and two or more same-kind
   * matches exist; it reports all of them, in walk order, with their suggestions.
   */
  lemma AmbiguousIsReal(t: Tree, latexDir: Path, walk: seq<Path>, name: string)
    requires Resolve(t, latexDir, walk, name).Ambiguous?
    ensures var e := Resolve(t, latexDir, walk, name).report;
            name != "localsettings" && NumericHit(t, latexDir, name).None? &&
            e.target == name && e.latexDir == latexDir && |e.matches| >= 2 &&
            e.matches == NameCandidates(walk, name) &&
            e.suggestions == Suggestions(e.matches, latexDir) &&
            e.message == AmbiguityMessage(name) &&
            (forall k :: 0 <= k < |e.matches| ==> e.matches[k] in walk && |e.matches[k]| > 0) &&
            ((forall k :: 0 <= k < |e.matches| ==> NameMatches(Last(e.matches[k]), ExactPattern(name))) ||
             (!HasExactName(walk, name) &&
              forall k :: 0 <= k < |e.matches| ==> NameMatches(Last(e.matches[k]), PrefixPattern(name))))
  {
    var matches := NameCandidates(walk, name);
    assert Resolve(t, latexDir, walk, name).report.matches == matches;
    CandidatesMatch(walk, name);
  }

  /** Every name candidate is a named entry of the walk, all of one kind: exact, or prefix when no exact one exists. */
  lemma CandidatesMatch(walk: seq<Path>, name: string)
    ensures var m := NameCandidates(walk, name);
            (forall k :: 0 <= k < |m| ==> m[k] in walk && |m[k]| > 0) &&
            ((forall k :: 0 <= k < |m| ==> NameMatches(Last(m[k]), ExactPattern(name))) ||
             (!HasExactName(walk, name) &&
              forall k :: 0 <= k < |m| ==> NameMatches(Last(m[k]), PrefixPattern(name))))
  {
    var m := NameCandidates(walk, name);
    RGlobEmpty(walk, ExactPattern(name));
    assert forall k :: 0 <= k < |m| ==> m[k] in m;
  }

  /** In a well-formed tree whose walk enumerates the LaTeX directory, whatever is resolved exists below it. */
  lemma ResolvedExists(t: Tree, latexDir: Path, walk: seq<Path>, name: string)
    requires WellFormed(t) && Enumerates(t, latexDir, walk)
    requires Resolve(t, latexDir, walk, name).Resolved?
    ensures var p := Resolve(t, latexDir, walk, name).path;
            p in t && IsPrefix(latexDir, p)
  {
    var p := Resolve(t, latexDir, walk, name).path;
    if NumericHit(t, latexDir, name).Some? {
      LocatedExists(t, latexDir, Classify(name).value);
    } else {
      ResolvedIsMatch(t, latexDir, walk, name);
      var k :| 0 <= k < |walk| && walk[k] == p;
    }
  }

  /**
   * The notation of a file that a coordinate locates resolves back to that file through
   * the whole resolver, whatever else the directory holds.
   */
  lemma NotationResolves(t: Tree, latexDir: Path, walk: seq<Path>, x: Coordinate)
    requires FindByNumericIndex(t, latexDir, x).Some?
    requires ToNotation(FindByNumericIndex(t, latexDir, x).value, latexDir).Some?
    ensures var path := FindByNumericIndex(t, latexDir, x).value;
            Resolve(t, latexDir, walk, ToNotation(path, latexDir).value) == Resolved(path)
  {
    var path := FindByNumericIndex(t, latexDir, x).value;
    var n := ToNotation(path, latexDir).value;
    NotationRoundTrip(t, latexDir, x);
    RescanLocates(t, latexDir, x);
    assert n == Notation(Canonical(x)).value;
    assert n[0] == 'A' || IsDigit(n[0]);
    assert "localsettings"[0] == 'l';
  }

  /**
   * A suggestion offered for a match that some coordinate locates names that match:
   * typing the suggested notation resolves to it.
   */
  lemma SuggestionResolves(t: Tree, latexDir: Path, walk: seq<Path>, matches: seq<Path>, k: nat, x: Coordinate)
    requires k < |Suggestions(matches, latexDir)|
    requires FindByNumericIndex(t, latexDir, x) == Some(Suggestions(matches, latexDir)[k].1)
    ensures var (n, m) := Suggestions(matches, latexDir)[k];
            Resolve(t, latexDir, walk, n) == Resolved(m)
  {
    NotationResolves(t, latexDir, walk, x);
  }
}
