/**
 * The lowercase roman numerals used for the first ten chapters (`chi-…`, …, `chx-…`).
 * The source writes the table twice, once per direction (compile_latex.py lines 153
 * and 220); here it is one table read both ways.
 */
module Roman {
  import opened Wrappers

  const Numerals: seq<string> := ["i", "ii", "iii", "iv", "v", "vi", "vii", "viii", "ix", "x"]

  /** `roman_map[n]` for `n in roman_map`. */
  function ToRoman(n: nat): (r: Option<string>)
    ensures r.Some? <==> 1 <= n <= 10
  {
    if 1 <= n <= 10 then Some(Numerals[n - 1]) else None
  }

  /** `roman_map.get(s)` in the reverse direction: the number whose numeral is `s`. */
  function FromRoman(s: string): Option<nat> {
    Position(s, 0)
  }

  function Position(s: string, k: nat): Option<nat>
    requires k <= |Numerals|
    decreases |Numerals| - k
  {
    if k == |Numerals| then None
    else if Numerals[k] == s then Some(k + 1)
    else Position(s, k + 1)
  }

  predicate IsRomanChar(c: char) {
    c == 'i' || c == 'v' || c == 'x'
  }

  /** The run of `[ivx]` at the start of `s`: what `re.match(r'[ivx]+', s)` captures. */
  function RomanRun(s: string): (r: string)
    ensures |r| <= |s| && r == s[..|r|]
    ensures forall i :: 0 <= i < |r| ==> IsRomanChar(r[i])
    ensures |r| < |s| ==> !IsRomanChar(s[|r|])
    decreases |s|
  {
    if s != [] && IsRomanChar(s[0]) then [s[0]] + RomanRun(s[1..]) else []
  }

  lemma {:induction false} RomanRunOf(x: string, y: string)
    requires forall i :: 0 <= i < |x| ==> IsRomanChar(x[i])
    requires y == [] || !IsRomanChar(y[0])
    ensures RomanRun(x + y) == x
    decreases |x|
  {
    if x == [] {
      assert x + y == y;
    } else {
      assert (x + y)[1..] == x[1..] + y;
      RomanRunOf(x[1..], y);
      assert x == [x[0]] + x[1..];
    }
  }

  /** Every numeral of the table is a non-empty run of `i`, `v`, `x`, read back as its own number. */
  lemma ToRomanInverse(n: nat)
    requires 1 <= n <= 10
    ensures var s := ToRoman(n).value;
            |s| >= 1 && (forall i :: 0 <= i < |s| ==> IsRomanChar(s[i])) && FromRoman(s) == Some(n)
  {
    var s := Numerals[n - 1];
    assert s == Numerals[n - 1];
    if n == 1 { assert FromRoman(s) == Some(1); }
    else if n == 2 { assert Position(s, 1) == Some(2); }
    else if n == 3 { assert Position(s, 2) == Some(3); }
    else if n == 4 { assert Position(s, 3) == Some(4); }
    else if n == 5 { assert Position(s, 4) == Some(5); }
    else if n == 6 { assert Position(s, 5) == Some(6); }
    else if n == 7 { assert Position(s, 6) == Some(7); }
    else if n == 8 { assert Position(s, 7) == Some(8); }
    else if n == 9 { assert Position(s, 8) == Some(9); }
    else { assert Position(s, 9) == Some(10); }
  }

  lemma {:induction false} PositionSound(s: string, k: nat)
    requires k <= |Numerals|
    ensures Position(s, k).Some? ==> var n := Position(s, k).value;
              k < n <= 10 && Numerals[n - 1] == s
    decreases |Numerals| - k
  {
    if k < |Numerals| && Numerals[k] != s {
      PositionSound(s, k + 1);
    }
  }

  /** Reading a numeral back gives a number whose numeral it is. */
  lemma FromRomanInverse(s: string)
    ensures FromRoman(s).Some? ==> ToRoman(FromRoman(s).value) == Some(s)
  {
    PositionSound(s, 0);
  }
}
