/**
 * The numeric-specifier classifier, `parse_numeric_target`
 * (plugins/book-latex/skills/book-latex/cli/windows/compile_latex.py lines 44-77).
 *
 * A specifier is an appendix coordinate (`A.2`, `a.2.5`), a body coordinate
 * (`3`, `3.5`, `3.5.13`) or not numeric at all. Python's `$` also matches just
 * before a final newline, and `int()` ignores that newline, so `"3.5\n"` is
 * numeric too; the model keeps that.
 */
module Classifier {
  import opened Wrappers
  import opened Strings
  import opened Decimal

  /**
   * A numeric coordinate. In every slot 0 means "this level itself" (the part,
   * chapter or appendix aggregator); real indices start at 1. The source's
   * `("back", n1, n2, 0)` tuple is `Back(n1, n2)`.
   */
  datatype Coordinate = Body(part: nat, chapter: nat, section: nat) | Back(appendix: nat, section: nat)

  /** `target.upper().startswith('A.')`. */
  predicate HasAppendixPrefix(target: string) {
    |target| >= 2 && (target[0] == 'A' || target[0] == 'a') && target[1] == '.'
  }

  function DropFinalNewline(s: string): string {
    if |s| > 0 && s[|s| - 1] == '\n' then s[..|s| - 1] else s
  }

  predicate DigitGroup(g: string) {
    |g| > 0 && AllDigits(g)
  }

  /**
   * `re.match(r'^\d+(\.\d+){0,n}$', s)` with `maxGroups == n + 1`: one to
   * `maxGroups` non-empty digit groups separated by dots, optionally followed by
   * one newline.
   */
  predicate MatchesDotted(s: string, maxGroups: nat) {
    var g := Split(DropFinalNewline(s), ".");
    |g| <= maxGroups && forall k :: 0 <= k < |g| ==> DigitGroup(g[k])
  }

  /** `int(g)` for a group the pattern accepted: its digits, without the newline `$` let through. */
  function GroupValue(g: string): nat {
    DigitsValue(DigitRun(g))
  }

  /** The outcome of `parse_numeric_target`: `None` for "not numeric". */
  function Classify(target: string): Option<Coordinate> {
    if HasAppendixPrefix(target) then
      var rest := target[2..];
      if !MatchesDotted(rest, 2) then None
      else
        var g := Split(rest, ".");
        Some(Back(GroupValue(g[0]), if |g| > 1 then GroupValue(g[1]) else 0))
    else if !MatchesDotted(target, 3) then None
    else
      var g := Split(target, ".");
      Some(Body(GroupValue(g[0]), if |g| > 1 then GroupValue(g[1]) else 0,
                if |g| > 2 then GroupValue(g[2]) else 0))
  }

  /** Splitting before or after dropping the final newline gives the same number of groups. */
  lemma SplitCountIgnoresNewline(s: string)
    ensures |Split(s, ".")| == |Split(DropFinalNewline(s), ".")|
  {
    if |s| > 0 && s[|s| - 1] == '\n' {
      var d := s[..|s| - 1];
      assert s == d + ['\n'];
      SplitAppendChar(d, '.', '\n');
    }
  }

  /**
   * `parse_numeric_target` as written: check the pattern, convert every group
   * with `int()`, then pad the list with zeros in a loop.
   */
  method ParseNumericTarget(target: string) returns (r: Option<Coordinate>)
    ensures r == Classify(target)
  {
    if HasAppendixPrefix(target) {
      var rest := target[2..];
      if !MatchesDotted(rest, 2) {
        return None;
      }
      var groups := Split(rest, ".");
      SplitCountIgnoresNewline(rest);
      var nums := seq(|groups|, i requires 0 <= i < |groups| => GroupValue(groups[i]));
      while |nums| < 2
        invariant |groups| <= |nums| <= 2
        invariant forall k :: 0 <= k < |nums| ==>
                    nums[k] == if k < |groups| then GroupValue(groups[k]) else 0
        decreases 2 - |nums|
      {
        nums := nums + [0];
      }
      return Some(Back(nums[0], nums[1]));
    }

    if !MatchesDotted(target, 3) {
      return None;
    }
    var parts := Split(target, ".");
    SplitCountIgnoresNewline(target);
    var nums := seq(|parts|, i requires 0 <= i < |parts| => GroupValue(parts[i]));
    while |nums| < 3
      invariant |parts| <= |nums| <= 3
      invariant forall k :: 0 <= k < |nums| ==>
                  nums[k] == if k < |parts| then GroupValue(parts[k]) else 0
      decreases 3 - |nums|
    {
      nums := nums + [0];
    }
    return Some(Body(nums[0], nums[1], nums[2]));
  }

  lemma DigitGroupHasNoDot(d: string)
    requires DigitGroup(d)
    ensures forall i :: 0 <= i < |d| ==> d[i] != '.'
  {
    forall i | 0 <= i < |d| ensures d[i] != '.' {
      assert IsDigit(d[i]);
    }
  }

  lemma GroupValueOfDigits(d: string)
    requires DigitGroup(d)
    ensures GroupValue(d) == DigitsValue(d)
  {
    DigitRunOf(d, []);
    assert d + [] == d;
  }

  /** Splitting two dotted digit groups on `.` gives the two groups back. */
  lemma SplitTwoGroups(d1: string, d2: string)
    requires DigitGroup(d1) && DigitGroup(d2)
    ensures Split(d1 + "." + d2, ".") == [d1, d2]
  {
    DigitGroupHasNoDot(d1);
    DigitGroupHasNoDot(d2);
    SplitWithoutSeparator(d2, '.');
    SplitAfterPiece(d1, '.', d2);
  }

  /** Splitting dotted digit groups on `.` gives the groups back. */
  lemma SplitGroups(d1: string, d2: string, d3: string)
    requires DigitGroup(d1) && DigitGroup(d2) && DigitGroup(d3)
    ensures Split(d1, ".") == [d1]
    ensures Split(d1 + "." + d2, ".") == [d1, d2]
    ensures Split(d1 + "." + d2 + "." + d3, ".") == [d1, d2, d3]
  {
    DigitGroupHasNoDot(d1);
    DigitGroupHasNoDot(d2);
    DigitGroupHasNoDot(d3);
    SplitWithoutSeparator(d1, '.');
    SplitWithoutSeparator(d2, '.');
    SplitWithoutSeparator(d3, '.');
    SplitAfterPiece(d1, '.', d2);
    SplitAfterPiece(d2, '.', d3);
    assert d1 + "." + d2 + "." + d3 == d1 + ['.'] + (d2 + "." + d3);
    SplitAfterPiece(d1, '.', d2 + "." + d3);
  }

  lemma DropFinalNewlineOfDigits(s: string)
    requires |s| > 0 && IsDigit(s[|s| - 1])
    ensures DropFinalNewline(s) == s
  {
  }

  /**
   * One to three digit groups classify as a body coordinate padded with zeros;
   * each group is read as a decimal number, leading zeros included.
   */
  lemma ClassifyBody(d1: string, d2: string, d3: string)
    requires DigitGroup(d1) && DigitGroup(d2) && DigitGroup(d3)
    ensures Classify(d1) == Some(Body(DigitsValue(d1), 0, 0))
    ensures Classify(d1 + "." + d2) == Some(Body(DigitsValue(d1), DigitsValue(d2), 0))
    ensures Classify(d1 + "." + d2 + "." + d3) ==
            Some(Body(DigitsValue(d1), DigitsValue(d2), DigitsValue(d3)))
  {
    SplitGroups(d1, d2, d3);
    GroupValueOfDigits(d1);
    GroupValueOfDigits(d2);
    GroupValueOfDigits(d3);
    var s2 := d1 + "." + d2;
    var s3 := d1 + "." + d2 + "." + d3;
    assert s2[|s2| - 1] == d2[|d2| - 1];
    assert s3[|s3| - 1] == d3[|d3| - 1];
    DropFinalNewlineOfDigits(d1);
    DropFinalNewlineOfDigits(s2);
    DropFinalNewlineOfDigits(s3);
    assert IsDigit(d1[0]) && s2[0] == d1[0] && s3[0] == d1[0];
  }

  /** How a specifier without the `A.` prefix and without a final newline classifies, given its groups. */
  lemma ClassifyFromGroups(s: string, g: seq<string>)
    requires !HasAppendixPrefix(s) && DropFinalNewline(s) == s && Split(s, ".") == g
    ensures (|g| > 3 || exists k :: 0 <= k < |g| && !DigitGroup(g[k])) ==> Classify(s) == None
  {
  }

  /** How an `A.`-prefixed specifier without a final newline classifies, given the groups after the prefix. */
  lemma ClassifyAppendixFromGroups(s: string, g: seq<string>)
    requires HasAppendixPrefix(s) && DropFinalNewline(s[2..]) == s[2..] && Split(s[2..], ".") == g
    ensures (|g| > 2 || exists k :: 0 <= k < |g| && !DigitGroup(g[k])) ==> Classify(s) == None
    ensures |g| <= 2 && (forall k :: 0 <= k < |g| ==> DigitGroup(g[k])) ==>
            Classify(s) == Some(Back(GroupValue(g[0]), if |g| > 1 then GroupValue(g[1]) else 0))
  {
  }

  /** A dotted string of digit groups ends in a digit, so it has no final newline to drop. */
  lemma DottedEndsInDigit(a: string, d: string)
    requires DigitGroup(d)
    ensures DropFinalNewline(a + d) == a + d
  {
    var s := a + d;
    assert s[|s| - 1] == d[|d| - 1];
  }

  /** `A.` (either case) followed by one digit group is the aggregator of that appendix. */
  lemma ClassifyAppendixOne(a: char, d1: string)
    requires a == 'A' || a == 'a'
    requires DigitGroup(d1)
    ensures Classify([a, '.'] + d1) == Some(Back(DigitsValue(d1), 0))
  {
    var s := [a, '.'] + d1;
    assert s[2..] == d1;
    SplitGroups(d1, d1, d1);
    GroupValueOfDigits(d1);
    DottedEndsInDigit([], d1);
    assert [] + d1 == d1;
    ClassifyAppendixFromGroups(s, [d1]);
  }

  /** `A.` (either case) followed by two digit groups is a section of that appendix. */
  lemma ClassifyAppendixTwo(a: char, d1: string, d2: string)
    requires a == 'A' || a == 'a'
    requires DigitGroup(d1) && DigitGroup(d2)
    ensures Classify([a, '.'] + (d1 + "." + d2)) == Some(Back(DigitsValue(d1), DigitsValue(d2)))
  {
    var rest := d1 + "." + d2;
    SplitTwoGroups(d1, d2);
    DottedEndsInDigit(d1 + ".", d2);
    GroupValueOfDigits(d1);
    GroupValueOfDigits(d2);
    ClassifyAppendixRest(a, rest, [d1, d2]);
  }

  /** An `A.`-prefixed specifier whose rest splits into one or two digit groups. */
  lemma ClassifyAppendixRest(a: char, rest: string, g: seq<string>)
    requires a == 'A' || a == 'a'
    requires DropFinalNewline(rest) == rest && Split(rest, ".") == g
    requires |g| <= 2 && forall k :: 0 <= k < |g| ==> DigitGroup(g[k])
    ensures Classify([a, '.'] + rest) == Some(Back(GroupValue(g[0]), if |g| > 1 then GroupValue(g[1]) else 0))
  {
    AppendixRest(a, rest);
  }

  /** The prefix `A.` or `a.` is recognised, and what follows it is the rest. */
  lemma AppendixRest(a: char, rest: string)
    requires a == 'A' || a == 'a'
    ensures HasAppendixPrefix([a, '.'] + rest) && ([a, '.'] + rest)[2..] == rest
  {
  }

  /** After `A.` a third group makes the specifier not numeric: it is not tried as a body coordinate. */
  lemma ClassifyAppendixThree(a: char, d1: string, d2: string, d3: string)
    requires a == 'A' || a == 'a'
    requires DigitGroup(d1) && DigitGroup(d2) && DigitGroup(d3)
    ensures Classify([a, '.'] + d1 + "." + d2 + "." + d3) == None
  {
    var s := [a, '.'] + d1 + "." + d2 + "." + d3;
    assert s[2..] == d1 + "." + d2 + "." + d3;
    SplitGroups(d1, d2, d3);
    DottedEndsInDigit(d1 + "." + d2 + ".", d3);
    assert d1 + "." + d2 + "." + d3 == (d1 + "." + d2 + ".") + d3;
    ClassifyAppendixFromGroups(s, [d1, d2, d3]);
  }

  /** A bare `A` has no dot: it is not numeric and is left to the name search. */
  lemma ClassifyBareA(a: char)
    requires a == 'A' || a == 'a'
    ensures Classify([a]) == None
  {
    SplitWithoutSeparator([a], '.');
    assert !DigitGroup([a]) by {
      assert !IsDigit([a][0]);
    }
    ClassifyFromGroups([a], [[a]]);
  }

  /** `"3"`, `"3.0"` and `"3.0.0"` classify identically, and so do `"3.5"` and `"3.5.0"`. */
  lemma ClassifyPadding(d1: string, d2: string)
    requires DigitGroup(d1) && DigitGroup(d2)
    ensures Classify(d1) == Classify(d1 + ".0") == Classify(d1 + ".0.0")
    ensures Classify(d1 + "." + d2) == Classify(d1 + "." + d2 + ".0")
  {
    PadOneGroup(d1);
    PadTwoGroups(d1, d2);
  }

  /** `"0"` is a digit group worth 0. */
  lemma ZeroGroup()
    ensures DigitGroup("0") && DigitsValue("0") == 0
  {
    assert "0"[..0] == [];
  }

  lemma PadOneGroup(d1: string)
    requires DigitGroup(d1)
    ensures Classify(d1) == Classify(d1 + ".0") == Classify(d1 + ".0.0")
  {
    ZeroGroup();
    var s2 := d1 + "." + "0";
    assert d1 + ".0" == s2;
    assert d1 + ".0.0" == s2 + "." + "0";
    ClassifyBody(d1, "0", "0");
  }

  lemma PadTwoGroups(d1: string, d2: string)
    requires DigitGroup(d1) && DigitGroup(d2)
    ensures Classify(d1 + "." + d2) == Classify(d1 + "." + d2 + ".0")
  {
    ZeroGroup();
    ClassifyBody(d1, d2, "0");
    assert d1 + "." + d2 + ".0" == d1 + "." + d2 + "." + "0";
  }

  /** A fourth group makes a specifier not numeric. */
  lemma ClassifyFourGroups(d1: string, d2: string, d3: string, d4: string)
    requires DigitGroup(d1) && DigitGroup(d2) && DigitGroup(d3) && DigitGroup(d4)
    ensures Classify(d1 + "." + d2 + "." + d3 + "." + d4) == None
  {
    DigitGroupHasNoDot(d1);
    DigitGroupHasNoDot(d2);
    SplitGroups(d3, d4, d4);
    assert d2 + "." + d3 + "." + d4 == d2 + ['.'] + (d3 + "." + d4);
    SplitAfterPiece(d2, '.', d3 + "." + d4);
    var s := d1 + "." + d2 + "." + d3 + "." + d4;
    assert s == d1 + ['.'] + (d2 + "." + d3 + "." + d4);
    SplitAfterPiece(d1, '.', d2 + "." + d3 + "." + d4);
    assert s == (d1 + "." + d2 + "." + d3 + ".") + d4;
    DottedEndsInDigit(d1 + "." + d2 + "." + d3 + ".", d4);
    assert IsDigit(s[0]);
    ClassifyFromGroups(s, [d1, d2, d3, d4]);
  }

  /** An empty group, before, between or after the digits, makes a specifier not numeric. */
  lemma ClassifyEmptyGroup(d1: string, d2: string)
    requires DigitGroup(d1) && DigitGroup(d2)
    ensures Classify(d1 + ".") == None
    ensures Classify("." + d1) == None
    ensures Classify(d1 + ".." + d2) == None
  {
    DigitGroupHasNoDot(d1);
    DigitGroupHasNoDot(d2);
    assert !DigitGroup("");

    var e1 := d1 + ".";
    assert e1 == d1 + ['.'] + "";
    SplitAfterPiece(d1, '.', "");
    assert Split("", ".") == [""];
    assert IsDigit(e1[0]);
    ClassifyFromGroups(e1, [d1, ""]);

    var e2 := "." + d1;
    assert e2 == [] + ['.'] + d1;
    SplitAfterPiece([], '.', d1);
    SplitWithoutSeparator(d1, '.');
    DottedEndsInDigit(".", d1);
    ClassifyFromGroups(e2, ["", d1]);

    var e3 := d1 + ".." + d2;
    assert e3 == d1 + ['.'] + ([] + ['.'] + d2);
    SplitAfterPiece(d1, '.', "." + d2);
    SplitAfterPiece([], '.', d2);
    SplitWithoutSeparator(d2, '.');
    assert [] + ['.'] + d2 == "." + d2;
    assert e3 == (d1 + "..") + d2;
    DottedEndsInDigit(d1 + "..", d2);
    assert IsDigit(e3[0]);
    ClassifyFromGroups(e3, [d1, "", d2]);
  }

  /** A final newline, which `$` lets through, does not change a numeric classification. */
  lemma ClassifyFinalNewline(s: string)
    requires Classify(s).Some? && |s| > 0 && s[|s| - 1] != '\n'
    ensures Classify(s + "\n") == Classify(s)
  {
    var s' := s + "\n";
    assert DropFinalNewline(s') == s;
    assert s'[..|s|] == s;
    if HasAppendixPrefix(s) {
      var rest := s[2..];
      assert s'[2..] == rest + "\n";
      assert DropFinalNewline(rest) == rest;
      assert DropFinalNewline(rest + "\n") == rest;
      NewlineKeepsGroupValues(rest);
    } else {
      assert |s| == 1 ==> s'[1] == '\n';
      assert !HasAppendixPrefix(s');
      assert DropFinalNewline(s) == s;
      NewlineKeepsGroupValues(s);
    }
  }

  /** The groups of `s + "\n"` have the values of the groups of `s`. */
  lemma NewlineKeepsGroupValues(s: string)
    requires forall k :: 0 <= k < |Split(s, ".")| ==> DigitGroup(Split(s, ".")[k])
    ensures var g := Split(s, ".");
            var g' := Split(s + "\n", ".");
            |g'| == |g| && forall k :: 0 <= k < |g| ==> GroupValue(g'[k]) == GroupValue(g[k])
  {
    var g := Split(s, ".");
    SplitAppendChar(s, '.', '\n');
    var g' := Split(s + "\n", ".");
    forall k | 0 <= k < |g| ensures GroupValue(g'[k]) == GroupValue(g[k]) {
      if k == |g| - 1 {
        assert g'[k] == g[k] + "\n";
        DigitRunOf(g[k], "\n");
        GroupValueOfDigits(g[k]);
      }
    }
  }

  /** Every group is a non-empty run of digits. */
  predicate DigitGroups(g: seq<string>) {
    forall k :: 0 <= k < |g| ==> DigitGroup(g[k])
  }

  /** The value of group `k`, or 0 when there are fewer groups: the zero padding. */
  function Slot(g: seq<string>, k: nat): nat
    requires DigitGroups(g)
  {
    if k < |g| then DigitsValue(g[k]) else 0
  }

  /**
   * The groups `int()` is applied to have the values of the digit groups the pattern
   * checked, which leave out the final newline.
   */
  lemma GroupValuesOfDropped(x: string)
    requires DigitGroups(Split(DropFinalNewline(x), "."))
    ensures var g := Split(DropFinalNewline(x), ".");
            |Split(x, ".")| == |g| && forall k :: 0 <= k < |g| ==> GroupValue(Split(x, ".")[k]) == DigitsValue(g[k])
  {
    var g := Split(DropFinalNewline(x), ".");
    SplitCountIgnoresNewline(x);
    if |x| > 0 && x[|x| - 1] == '\n' {
      var d := x[..|x| - 1];
      assert x == d + "\n";
      NewlineKeepsGroupValues(d);
    }
    forall k | 0 <= k < |g| ensures GroupValue(Split(x, ".")[k]) == DigitsValue(g[k]) {
      GroupValueOfDigits(g[k]);
    }
  }

  /**
   * Whatever classifies as numeric has the shape the patterns describe: after an `A.`
   * or `a.` prefix one or two digit groups joined by `.`, otherwise one to three, in
   * both cases followed by at most one newline; the coordinate holds the groups' decimal
   * values, padded with zeros.
   */
  lemma ClassifySound(s: string)
    requires Classify(s).Some?
    ensures Classify(s).value.Back? <==> HasAppendixPrefix(s)
    ensures HasAppendixPrefix(s) ==>
              var g := Split(DropFinalNewline(s[2..]), ".");
              1 <= |g| <= 2 && DigitGroups(g) && Join(g, ".") == DropFinalNewline(s[2..]) &&
              Classify(s).value == Back(Slot(g, 0), Slot(g, 1))
    ensures !HasAppendixPrefix(s) ==>
              var g := Split(DropFinalNewline(s), ".");
              1 <= |g| <= 3 && DigitGroups(g) && Join(g, ".") == DropFinalNewline(s) &&
              Classify(s).value == Body(Slot(g, 0), Slot(g, 1), Slot(g, 2))
  {
    var x := if HasAppendixPrefix(s) then s[2..] else s;
    JoinOfSplit(DropFinalNewline(x), ".");
    GroupValuesOfDropped(x);
  }

  /** Digit groups joined by `.` split back into those groups. */
  lemma SplitDottedGroups(g: seq<string>)
    requires 1 <= |g| && DigitGroups(g)
    ensures Split(Join(g, "."), ".") == g
  {
    forall k | 0 <= k < |g| ensures FirstAtEnd(g[k], ".") {
      DigitGroupHasNoDot(g[k]);
      assert forall i :: 0 <= i < |g[k]| ==> (g[k] + ".")[i] == g[k][i];
    }
    SplitOfJoin(g, ".");
  }

  /** Digit groups joined by `.` start and end with a digit. */
  lemma DottedEnds(g: seq<string>)
    requires 1 <= |g| && DigitGroups(g)
    ensures var j := Join(g, ".");
            |j| > 0 && IsDigit(j[0]) && IsDigit(j[|j| - 1])
  {
    JoinBounds(g, ".");
    var j := Join(g, ".");
    var last := g[|g| - 1];
    assert j[0] == g[0][0];
    assert j[|j| - 1] == j[|j| - |last|..][|last| - 1] == last[|last| - 1];
  }

  /** A newline that may follow the digit groups. */
  predicate FinalNewline(nl: string) {
    nl == "" || nl == "\n"
  }

  /** A newline after digit groups joined by `.` is the one `$` lets through. */
  lemma DropAfterGroups(g: seq<string>, nl: string)
    requires 1 <= |g| && DigitGroups(g) && FinalNewline(nl)
    ensures var j := Join(g, ".");
            DropFinalNewline(j + nl) == j && |j + nl| > 0 && IsDigit((j + nl)[0]) &&
            Split(DropFinalNewline(j + nl), ".") == g
  {
    var j := Join(g, ".");
    var x := j + nl;
    DottedEnds(g);
    SplitDottedGroups(g);
    assert x[0] == j[0];
    if nl == "\n" {
      assert x[..|x| - 1] == j;
    } else {
      assert x == j;
    }
  }

  /** A specifier without the `A.` prefix whose pattern groups are one to three digit groups. */
  lemma ClassifyBodyShape(x: string)
    requires !HasAppendixPrefix(x)
    requires var g := Split(DropFinalNewline(x), "."); |g| <= 3 && DigitGroups(g)
    ensures var g := Split(DropFinalNewline(x), ".");
            Classify(x) == Some(Body(Slot(g, 0), Slot(g, 1), Slot(g, 2)))
  {
    GroupValuesOfDropped(x);
  }

  /** An `A.`-prefixed specifier whose pattern groups after the prefix are one or two digit groups. */
  lemma ClassifyBackShape(s: string)
    requires HasAppendixPrefix(s)
    requires var g := Split(DropFinalNewline(s[2..]), "."); |g| <= 2 && DigitGroups(g)
    ensures var g := Split(DropFinalNewline(s[2..]), ".");
            Classify(s) == Some(Back(Slot(g, 0), Slot(g, 1)))
  {
    GroupValuesOfDropped(s[2..]);
  }

  /**
   * The converse of `ClassifySound`: one to three digit groups joined by `.`, followed by
   * at most one newline, classify as the body coordinate of their values padded with zeros.
   */
  lemma ClassifyBodyGroups(g: seq<string>, nl: string)
    requires 1 <= |g| <= 3 && DigitGroups(g) && FinalNewline(nl)
    ensures Classify(Join(g, ".") + nl) == Some(Body(Slot(g, 0), Slot(g, 1), Slot(g, 2)))
  {
    DropAfterGroups(g, nl);
    ClassifyBodyShape(Join(g, ".") + nl);
  }

  /**
   * The converse of `ClassifySound` for appendices: `A.` or `a.`, then one or two digit
   * groups joined by `.`, then at most one newline, classify as that appendix and section.
   */
  lemma ClassifyBackGroups(a: char, g: seq<string>, nl: string)
    requires a == 'A' || a == 'a'
    requires 1 <= |g| <= 2 && DigitGroups(g) && FinalNewline(nl)
    ensures Classify([a, '.'] + Join(g, ".") + nl) == Some(Back(Slot(g, 0), Slot(g, 1)))
  {
    var x := Join(g, ".") + nl;
    assert [a, '.'] + Join(g, ".") + nl == [a, '.'] + x;
    AppendixRest(a, x);
    DropAfterGroups(g, nl);
    ClassifyBackShape([a, '.'] + x);
  }

  /** `int()` ignores a leading zero: `int("03") == int("3")`. */
  lemma GroupValueLeadingZero(y: string)
    ensures GroupValue("0" + y) == GroupValue(y)
  {
    assert ("0" + y)[1..] == y;
    assert DigitRun("0" + y) == "0" + DigitRun(y);
    LeadingZero(DigitRun(y));
  }

  /** Prepending `0` to a specifier that starts with a digit prepends it to the first pattern group. */
  lemma LeadingZeroGroups(s: string)
    requires |s| > 0 && IsDigit(s[0])
    ensures var g := Split(DropFinalNewline(s), ".");
            var h := Split(DropFinalNewline("0" + s), ".");
            |h| == |g| && h == ["0" + g[0]] + g[1..] && (DigitGroups(h) <==> DigitGroups(g))
  {
    DropLeadingZero(s);
    ZeroFirstGroup(DropFinalNewline(s));
  }

  /** The final newline `$` lets through is the same with or without a leading `0`. */
  lemma DropLeadingZero(s: string)
    requires |s| > 0 && IsDigit(s[0])
    ensures var d := DropFinalNewline(s);
            DropFinalNewline("0" + s) == "0" + d && |d| > 0 && IsDigit(d[0])
  {
    var x := "0" + s;
    if s[|s| - 1] == '\n' {
      assert x[..|x| - 1] == "0" + s[..|s| - 1];
    }
  }

  /** Hence the groups of `"0" + d` are those of `d` with `0` before the first. */
  lemma ZeroFirstGroup(d: string)
    requires |d| > 0 && IsDigit(d[0])
    ensures var g := Split(d, ".");
            var h := Split("0" + d, ".");
            |h| == |g| && h == ["0" + g[0]] + g[1..] && (DigitGroups(h) <==> DigitGroups(g))
  {
    assert d == [d[0]] + d[1..];
    SplitConsChar(d[0], d[1..], '.');
    SplitConsChar('0', d, '.');
    var g := Split(d, ".");
    var h := Split("0" + d, ".");
    assert h[0] == "0" + g[0] && |g[0]| > 0;
    assert forall k :: 1 <= k < |g| ==> h[k] == g[k];
    assert DigitGroup(h[0]) <==> DigitGroup(g[0]) by {
      assert forall i :: 0 <= i < |g[0]| ==> h[0][i + 1] == g[0][i];
    }
  }

  /**
   * Leading zeros read as decimal: prepending `0` to a specifier that starts with a digit
   * does not change how it classifies (`03.5` is `3.5`).
   */
  lemma ClassifyLeadingZero(s: string)
    requires |s| > 0 && IsDigit(s[0])
    ensures Classify("0" + s) == Classify(s)
  {
    var x := "0" + s;
    assert x[0] == '0';
    LeadingZeroGroups(s);
    var g := Split(DropFinalNewline(s), ".");
    var h := Split(DropFinalNewline(x), ".");
    if |g| <= 3 && DigitGroups(g) {
      ClassifyBodyShape(s);
      ClassifyBodyShape(x);
      LeadingZero(g[0]);
      assert Slot(h, 0) == Slot(g, 0);
      assert Slot(h, 1) == Slot(g, 1) && Slot(h, 2) == Slot(g, 2);
    } else {
      assert !MatchesDotted(x, 3) && !MatchesDotted(s, 3);
    }
  }
}
