/**
 * The few operations on Python `str` that the core relies on:
 * `startswith`, `replace` (all occurrences, left to right, without overlap),
 * `split` on a separator and `sep.join(pieces)`.
 */
module Strings {

  predicate StartsWith(s: string, prefix: string) {
    |prefix| <= |s| && s[..|prefix|] == prefix
  }

  predicate EndsWith(s: string, suffix: string) {
    |suffix| <= |s| && s[|s| - |suffix|..] == suffix
  }

  /** `p` occurs in `s` starting at index `i`. */
  predicate OccursAt(s: string, p: string, i: int) {
    0 <= i && i + |p| <= |s| && s[i..i + |p|] == p
  }

  /** Python's `p in s`. */
  predicate Occurs(s: string, p: string) {
    exists i :: 0 <= i <= |s| && OccursAt(s, p, i)
  }

  /** `s.replace(p, v)`: every occurrence of `p`, scanning left to right, becomes `v`. */
  function ReplaceAll(s: string, p: string, v: string): string
    requires |p| > 0
    decreases |s|
  {
    if |s| < |p| then s
    else if s[..|p|] == p then v + ReplaceAll(s[|p|..], p, v)
    else [s[0]] + ReplaceAll(s[1..], p, v)
  }

  /** `s.split(p)`: the pieces between the occurrences of `p`, at least one piece. */
  function Split(s: string, p: string): (r: seq<string>)
    requires |p| > 0
    ensures |r| >= 1
    decreases |s|
  {
    if |s| < |p| then [s]
    else if s[..|p|] == p then [""] + Split(s[|p|..], p)
    else
      var t := Split(s[1..], p);
      [[s[0]] + t[0]] + t[1..]
  }

  /** `sep.join(pieces)`. */
  function Join(pieces: seq<string>, sep: string): string
    decreases |pieces|
  {
    if |pieces| == 0 then ""
    else if |pieces| == 1 then pieces[0]
    else pieces[0] + sep + Join(pieces[1..], sep)
  }

  /** A join starts with the first piece, ends with the last, and is empty only for one empty piece. */
  lemma {:induction false} JoinBounds(pieces: seq<string>, sep: string)
    requires |pieces| >= 1 && |sep| > 0
    ensures StartsWith(Join(pieces, sep), pieces[0])
    ensures EndsWith(Join(pieces, sep), pieces[|pieces| - 1])
    ensures Join(pieces, sep) == "" <==> pieces == [""]
    decreases |pieces|
  {
    if |pieces| > 1 {
      JoinBounds(pieces[1..], sep);
      var rest := Join(pieces[1..], sep);
      var j := pieces[0] + sep + rest;
      assert j[..|pieces[0]|] == pieces[0];
      assert j[|j| - |rest|..] == rest;
      assert j[|j| - |pieces[|pieces| - 1]|..] == rest[|rest| - |pieces[|pieces| - 1]|..];
    }
  }

  lemma JoinConsHead(c: char, t: seq<string>, sep: string)
    requires |t| >= 1
    ensures Join([[c] + t[0]] + t[1..], sep) == [c] + Join(t, sep)
  {
    var u := [[c] + t[0]] + t[1..];
    assert u[1..] == t[1..];
  }

  /** Python documents `s.replace(p, v)` as `v.join(s.split(p))`; the two definitions agree. */
  lemma {:induction false} ReplaceAllIsJoinOfSplit(s: string, p: string, v: string)
    requires |p| > 0
    ensures ReplaceAll(s, p, v) == Join(Split(s, p), v)
    decreases |s|
  {
    if |s| < |p| {
    } else if s[..|p|] == p {
      ReplaceAllIsJoinOfSplit(s[|p|..], p, v);
      var t := Split(s[|p|..], p);
      assert ([""] + t)[1..] == t;
    } else {
      ReplaceAllIsJoinOfSplit(s[1..], p, v);
      JoinConsHead(s[0], Split(s[1..], p), v);
    }
  }

  /** Joining the pieces back with the separator gives the original string. */
  lemma {:induction false} JoinOfSplit(s: string, p: string)
    requires |p| > 0
    ensures Join(Split(s, p), p) == s
    decreases |s|
  {
    if |s| < |p| {
    } else if s[..|p|] == p {
      JoinOfSplit(s[|p|..], p);
      var t := Split(s[|p|..], p);
      assert ([""] + t)[1..] == t;
      assert s == s[..|p|] + s[|p|..];
    } else {
      JoinOfSplit(s[1..], p);
      JoinConsHead(s[0], Split(s[1..], p), p);
      assert s == [s[0]] + s[1..];
    }
  }

  /** The first piece of a split is a prefix of the string. */
  lemma {:induction false} SplitHeadIsPrefix(s: string, p: string)
    requires |p| > 0
    ensures StartsWith(s, Split(s, p)[0])
    decreases |s|
  {
    if |s| < |p| {
    } else if s[..|p|] == p {
    } else {
      SplitHeadIsPrefix(s[1..], p);
    }
  }

  /** No piece of a split contains the separator: every occurrence was cut out. */
  lemma {:induction false} SplitPiecesAvoidSeparator(s: string, p: string)
    requires |p| > 0
    ensures forall k :: 0 <= k < |Split(s, p)| ==> !Occurs(Split(s, p)[k], p)
    decreases |s|
  {
    var r := Split(s, p);
    if |s| < |p| {
      assert r == [s];
      assert forall i :: !OccursAt(s, p, i);
    } else if s[..|p|] == p {
      SplitPiecesAvoidSeparator(s[|p|..], p);
      var t := Split(s[|p|..], p);
      assert r == [""] + t;
      assert forall i :: !OccursAt("", p, i);
      forall k | 1 <= k < |r| ensures !Occurs(r[k], p) {
        assert r[k] == t[k - 1];
      }
    } else {
      SplitPiecesAvoidSeparator(s[1..], p);
      SplitHeadIsPrefix(s[1..], p);
      var t := Split(s[1..], p);
      var h := [s[0]] + t[0];
      assert r == [h] + t[1..];
      assert StartsWith(s, h);
      forall i | OccursAt(h, p, i) ensures false {
        if i > 0 {
          assert h[i..i + |p|] == t[0][i - 1..i - 1 + |p|];
          assert OccursAt(t[0], p, i - 1);
        }
      }
      forall k | 1 <= k < |r| ensures !Occurs(r[k], p) {
        assert r[k] == t[k];
      }
    }
  }

  /** When `p` does not occur in `s`, `s.replace(p, v)` leaves `s` unchanged. */
  lemma {:induction false} ReplaceAllAbsent(s: string, p: string, v: string)
    requires |p| > 0 && !Occurs(s, p)
    ensures ReplaceAll(s, p, v) == s
    decreases |s|
  {
    if |s| < |p| {
    } else {
      assert !OccursAt(s, p, 0);
      forall i | OccursAt(s[1..], p, i) ensures false {
        assert s[1..][i..i + |p|] == s[i + 1..i + 1 + |p|];
        assert OccursAt(s, p, i + 1);
      }
      ReplaceAllAbsent(s[1..], p, v);
      assert s == [s[0]] + s[1..];
    }
  }

  /** Splitting on a one-character separator a string that does not contain it gives one piece. */
  lemma {:induction false} SplitWithoutSeparator(a: string, sep: char)
    requires forall i :: 0 <= i < |a| ==> a[i] != sep
    ensures Split(a, [sep]) == [a]
    decreases |a|
  {
    if |a| >= 1 {
      SplitWithoutSeparator(a[1..], sep);
      assert a == [a[0]] + a[1..];
    }
  }

  /** Splitting `a + sep + b`, where `a` has no separator, peels off `a` as the first piece. */
  lemma {:induction false} SplitAfterPiece(a: string, sep: char, b: string)
    requires forall i :: 0 <= i < |a| ==> a[i] != sep
    ensures Split(a + [sep] + b, [sep]) == [a] + Split(b, [sep])
    decreases |a|
  {
    var s := a + [sep] + b;
    if |a| == 0 {
      assert s == [sep] + b;
      assert s[..1] == [sep];
      assert s[1..] == b;
    } else {
      assert s[..1] == [a[0]];
      assert s[1..] == a[1..] + [sep] + b;
      SplitAfterPiece(a[1..], sep, b);
      assert a == [a[0]] + a[1..];
    }
  }

  /** Prepending a non-separator character extends the first piece only. */
  lemma SplitConsChar(c: char, x: string, sep: char)
    requires c != sep
    ensures var t := Split(x, [sep]);
            Split([c] + x, [sep]) == [[c] + t[0]] + t[1..]
  {
    var s := [c] + x;
    assert s[..1] == [c];
    assert s[1..] == x;
  }

  /** Appending a non-separator character extends the last piece only. */
  lemma {:induction false} SplitAppendChar(s: string, sep: char, c: char)
    requires c != sep
    ensures var t := Split(s, [sep]);
            Split(s + [c], [sep]) == t[..|t| - 1] + [t[|t| - 1] + [c]]
    decreases |s|
  {
    var t := Split(s, [sep]);
    if |s| == 0 {
      SplitOneChar(sep, c);
      assert s + [c] == [c];
      assert t == [""];
    } else if s[..1] == [sep] {
      assert (s + [c])[..1] == [sep];
      assert (s + [c])[1..] == s[1..] + [c];
      SplitAppendChar(s[1..], sep, c);
      var u := Split(s[1..], [sep]);
      assert t == [""] + u;
    } else {
      assert (s + [c])[..1] == [s[0]];
      assert (s + [c])[1..] == s[1..] + [c];
      SplitAppendChar(s[1..], sep, c);
      var u := Split(s[1..], [sep]);
      var w := Split(s[1..] + [c], [sep]);
      assert t == [[s[0]] + u[0]] + u[1..];
      assert Split(s + [c], [sep]) == [[s[0]] + w[0]] + w[1..];
      ExtendFirstPiece(s[0], u, w, c);
    }
  }

  /** A one-character string other than the separator is a single piece. */
  lemma SplitOneChar(sep: char, c: char)
    requires c != sep
    ensures Split([c], [sep]) == [[c]]
  {
    assert [c][1..] == [] && [c][..1] == [c];
    assert Split([], [sep]) == [""];
    assert [c][0] != [sep][0];
    assert Split([c], [sep]) == [[c] + Split([], [sep])[0]] + Split([], [sep])[1..];
    assert [c] + "" == [c];
  }

  /** Prepending a character to the first piece commutes with extending the last piece. */
  lemma ExtendFirstPiece(x: char, u: seq<string>, w: seq<string>, c: char)
    requires |u| >= 1 && w == u[..|u| - 1] + [u[|u| - 1] + [c]]
    ensures var t := [[x] + u[0]] + u[1..];
            [[x] + w[0]] + w[1..] == t[..|t| - 1] + [t[|t| - 1] + [c]]
  {
    var t := [[x] + u[0]] + u[1..];
    if |u| == 1 {
      assert w == [u[0] + [c]];
      assert [x] + (u[0] + [c]) == ([x] + u[0]) + [c];
    } else {
      assert t[..|t| - 1] == [[x] + u[0]] + u[1..|u| - 1];
      assert w[0] == u[0] && w[1..] == u[1..|u| - 1] + [u[|u| - 1] + [c]];
    }
  }

  /** Replacing one character by another keeps the length and changes exactly the occurrences. */
  lemma {:induction false} ReplaceChar(s: string, a: char, b: char)
    ensures |ReplaceAll(s, [a], [b])| == |s|
    ensures forall i :: 0 <= i < |s| ==> ReplaceAll(s, [a], [b])[i] == if s[i] == a then b else s[i]
    decreases |s|
  {
    if |s| > 0 {
      ReplaceChar(s[1..], a, b);
      var rest := ReplaceAll(s[1..], [a], [b]);
      assert s[..1] == [s[0]];
      var r := ReplaceAll(s, [a], [b]);
      assert r == [if s[0] == a then b else s[0]] + rest;
      forall i | 0 <= i < |s| ensures r[i] == if s[i] == a then b else s[i] {
        if i > 0 {
          assert r[i] == rest[i - 1] && s[1..][i - 1] == s[i];
        }
      }
    }
  }

  /** Splitting a string that does not contain the separator gives the string itself. */
  lemma {:induction false} SplitAbsent(s: string, p: string)
    requires |p| > 0 && !Occurs(s, p)
    ensures Split(s, p) == [s]
    decreases |s|
  {
    if |s| >= |p| {
      assert !OccursAt(s, p, 0);
      forall i | OccursAt(s[1..], p, i) ensures false {
        assert s[1..][i..i + |p|] == s[i + 1..i + 1 + |p|];
        assert OccursAt(s, p, i + 1);
      }
      SplitAbsent(s[1..], p);
      assert s == [s[0]] + s[1..];
    }
  }

  /** In `a + p` the separator `p` first occurs where `a` ends. */
  predicate FirstAtEnd(a: string, p: string) {
    forall i :: 0 <= i < |a| ==> !OccursAt(a + p, p, i)
  }

  lemma FirstAtEndAbsent(a: string, p: string)
    requires |p| > 0 && FirstAtEnd(a, p)
    ensures !Occurs(a, p)
  {
    forall i | OccursAt(a, p, i) ensures false {
      assert (a + p)[i..i + |p|] == a[i..i + |p|];
      assert OccursAt(a + p, p, i);
    }
  }

  /** Splitting `a + p + b`, where `p` first occurs after `a`, peels off `a` as the first piece. */
  lemma {:induction false} SplitAtFirst(a: string, p: string, b: string)
    requires |p| > 0 && FirstAtEnd(a, p)
    ensures Split(a + p + b, p) == [a] + Split(b, p)
    decreases |a|
  {
    var s := a + p + b;
    if |a| == 0 {
      assert s == p + b;
      assert s[..|p|] == p;
      assert s[|p|..] == b;
    } else {
      assert !OccursAt(a + p, p, 0);
      assert s[..|p|] == (a + p)[..|p|];
      assert s[1..] == a[1..] + p + b;
      var ap := a + p;
      assert a[1..] + p == ap[1..];
      forall i | 0 <= i < |a[1..]| ensures !OccursAt(a[1..] + p, p, i) {
        assert ap[1..][i..i + |p|] == ap[i + 1..i + 1 + |p|];
        assert !OccursAt(ap, p, i + 1);
      }
      SplitAtFirst(a[1..], p, b);
      assert a == [a[0]] + a[1..];
    }
  }

  /**
   * Splitting a join undoes it, provided the separator occurs in no piece and no piece
   * ends with a beginning of the separator that the next separator completes.
   */
  lemma {:induction false} SplitOfJoin(pieces: seq<string>, p: string)
    requires |p| > 0 && |pieces| >= 1
    requires forall k :: 0 <= k < |pieces| ==> FirstAtEnd(pieces[k], p)
    ensures Split(Join(pieces, p), p) == pieces
    decreases |pieces|
  {
    if |pieces| == 1 {
      FirstAtEndAbsent(pieces[0], p);
      SplitAbsent(pieces[0], p);
    } else {
      SplitOfJoin(pieces[1..], p);
      SplitAtFirst(pieces[0], p, Join(pieces[1..], p));
      assert pieces == [pieces[0]] + pieces[1..];
    }
  }
}
