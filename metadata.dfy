/**
 * `apply_metadata` of init_latex.py (lines 329-355): the template placeholders of a
 * new book are filled from the user's metadata, and the `babel` language option is
 * rewritten when a language is given.
 */
module Metadata {
  import opened Wrappers
  import opened Strings

  /**
   * The metadata keys `apply_metadata` reads. A missing key, `None` and `""` all read
   * as `""` here, since the code only ever tests them for truthiness; `authors` is the
   * list of author names.
   */
  datatype BookMetadata = BookMetadata(
    title: string, subtitle: string, description: string, authors: seq<string>, language: string)

  const TitlePlaceholder: string := "[PROMPT: Book Title]"
  const SubtitlePlaceholder: string := "[PROMPT: Subtitle or description]"
  const AuthorPlaceholder: string := "[PROMPT: Author name(s)]"
  const EnglishBabel: string := "[english]{babel}"

  /** `f"[{language}]{{babel}}"`. */
  function BabelOption(language: string): string {
    "[" + language + "]{babel}"
  }

  /**
   * `" and ".join(authors) if authors else None`, with `""` for `None`: it is falsy
   * exactly when there are no authors or the one author is empty.
   */
  function AuthorsString(authors: seq<string>): (r: string)
    ensures r == "" <==> authors == [] || authors == [""]
    ensures authors != [] ==> StartsWith(r, authors[0]) && EndsWith(r, authors[|authors| - 1])
  {
    if authors == [] then "" else
      JoinBounds(authors, " and ");
      Join(authors, " and ")
  }

  /**
   * The author line reads back as the author list: splitting it at `" and "` gives the
   * authors again, as long as no author contains `" and "` or ends with `" and"`.
   */
  lemma AuthorsSplit(authors: seq<string>)
    requires authors != []
    requires forall k :: 0 <= k < |authors| ==> !Occurs(authors[k], " and ") && !EndsWith(authors[k], " and")
    ensures Split(AuthorsString(authors), " and ") == authors
  {
    forall k | 0 <= k < |authors| ensures FirstAtEnd(authors[k], " and ") {
      SeparatorFirstAtEnd(authors[k]);
    }
    SplitOfJoin(authors, " and ");
  }

  /** `John Doe and Jane Smith`: two authors are joined by `" and "`. */
  lemma AuthorsTwo(a: string, b: string)
    ensures AuthorsString([a, b]) == a + " and " + b
  {
    assert [a, b][1..] == [b];
    assert Join([b], " and ") == b;
  }

  /**
   * `" and "` occurs in `a + " and "` first at the end of `a`, unless `a` contains it or
   * ends with `" and"` (the only beginning of the separator that another separator completes).
   */
  lemma SeparatorFirstAtEnd(a: string)
    requires !Occurs(a, " and ") && !EndsWith(a, " and")
    ensures FirstAtEnd(a, " and ")
  {
    var p := " and ";
    forall i | 0 <= i < |a| ensures !OccursAt(a + p, p, i) {
      if i + |p| <= |a| {
        assert (a + p)[i..i + |p|] == a[i..i + |p|];
        assert !OccursAt(a, p, i);
      } else {
        var j := |a| - i;
        if j == 4 {
          assert (a + p)[i..i + 4] == a[|a| - 4..];
          assert a[|a| - 4..] != p[..4];
        } else if i + |p| <= |a + p| {
          assert (a + p)[i..i + |p|][j] == p[0];
          assert p[j] != ' ';
        }
      }
    }
  }

  /** `metadata.get("subtitle") or metadata.get("description")`. */
  function SubtitleValue(m: BookMetadata): (r: string)
    ensures r == "" <==> m.subtitle == "" && m.description == ""
    ensures m.subtitle != "" ==> r == m.subtitle
    ensures m.subtitle == "" ==> r == m.description
  {
    if m.subtitle != "" then m.subtitle else m.description
  }

  /** The `replacements` dict, in its insertion order. */
  function Replacements(m: BookMetadata): seq<(string, string)> {
    [(TitlePlaceholder, m.title),
     (SubtitlePlaceholder, SubtitleValue(m)),
     (AuthorPlaceholder, AuthorsString(m.authors))]
  }

  /** One pass of the loop: every occurrence of the placeholder is replaced, but only by a truthy value. */
  function Fill(content: string, placeholder: string, value: string): string
    requires |placeholder| > 0
  {
    if value == "" then content else ReplaceAll(content, placeholder, value)
  }

  /** The loop over the replacements, as a left fold. */
  function FillAll(content: string, pairs: seq<(string, string)>): string
    requires forall k :: 0 <= k < |pairs| ==> |pairs[k].0| > 0
    decreases |pairs|
  {
    if pairs == [] then content
    else
      var last := pairs[|pairs| - 1];
      Fill(FillAll(content, pairs[..|pairs| - 1]), last.0, last.1)
  }

  /** The language rewrite of lines 351-353. */
  function Babel(content: string, language: string): string {
    if language == "" then content else ReplaceAll(content, EnglishBabel, BabelOption(language))
  }

  /** What `apply_metadata(content, metadata)` returns; `None` stands for `None` and for `{}`. */
  function Applied(content: string, metadata: Option<BookMetadata>): string {
    match metadata
    case None => content
    case Some(m) => Babel(FillAll(content, Replacements(m)), m.language)
  }

  /** `apply_metadata`, step by step. */
  method ApplyMetadata(content: string, metadata: Option<BookMetadata>) returns (r: string)
    ensures r == Applied(content, metadata)
  {
    if metadata.None? {
      return content;
    }
    var m := metadata.value;
    var replacements := Replacements(m);
    r := content;
    for i := 0 to |replacements|
      invariant r == FillAll(content, replacements[..i])
    {
      assert replacements[..i + 1][..i] == replacements[..i];
      var (placeholder, value) := replacements[i];
      if value != "" {
        r := ReplaceAll(r, placeholder, value);
      }
    }
    assert replacements[..|replacements|] == replacements;
    if m.language != "" {
      r := ReplaceAll(r, EnglishBabel, BabelOption(m.language));
    }
  }

  /** The three passes of the loop, written out. */
  lemma FillAllThree(content: string, m: BookMetadata)
    ensures FillAll(content, Replacements(m)) ==
            Fill(Fill(Fill(content, TitlePlaceholder, m.title), SubtitlePlaceholder, SubtitleValue(m)),
                 AuthorPlaceholder, AuthorsString(m.authors))
  {
    var r := Replacements(m);
    assert r[..2][..1] == r[..1];
    assert r[..1][..0] == [];
    assert FillAll(content, r[..1]) == Fill(content, TitlePlaceholder, m.title);
    assert FillAll(content, r[..2]) == Fill(FillAll(content, r[..1]), SubtitlePlaceholder, SubtitleValue(m));
    assert r[..3] == r;
  }

  /**
   * One pass replaces every occurrence: the content is cut at each occurrence into
   * pieces free of the placeholder, and the pieces are joined back with the value.
   * A falsy value leaves the content as it is.
   */
  lemma FillMeaning(content: string, placeholder: string, value: string)
    requires |placeholder| > 0
    ensures value == "" ==> Fill(content, placeholder, value) == content
    ensures var pieces := Split(content, placeholder);
            value != "" ==>
              Fill(content, placeholder, value) == Join(pieces, value) &&
              Join(pieces, placeholder) == content &&
              forall k :: 0 <= k < |pieces| ==> !Occurs(pieces[k], placeholder)
  {
    ReplaceAllIsJoinOfSplit(content, placeholder, value);
    JoinOfSplit(content, placeholder);
    SplitPiecesAvoidSeparator(content, placeholder);
  }

  /**
   * The language rewrite: without a language the content is unchanged; with one, the
   * content is cut at every `[english]{babel}` into pieces free of it, and the pieces are
   * joined back with `[<language>]{babel}`.
   */
  lemma BabelMeaning(content: string, language: string)
    ensures language == "" ==> Babel(content, language) == content
    ensures var pieces := Split(content, EnglishBabel);
            language != "" ==>
              Babel(content, language) == Join(pieces, BabelOption(language)) &&
              Join(pieces, EnglishBabel) == content &&
              forall k :: 0 <= k < |pieces| ==> !Occurs(pieces[k], EnglishBabel)
  {
    ReplaceAllIsJoinOfSplit(content, EnglishBabel, BabelOption(language));
    JoinOfSplit(content, EnglishBabel);
    SplitPiecesAvoidSeparator(content, EnglishBabel);
  }

  /** Metadata with every value falsy (an empty dict among them) leaves the content unchanged. */
  lemma FalsyMetadataUnchanged(content: string, m: BookMetadata)
    requires m.title == "" && m.subtitle == "" && m.description == "" && m.language == ""
    requires m.authors == [] || m.authors == [""]
    ensures Applied(content, Some(m)) == content
    ensures Applied(content, None) == content
  {
    FillAllThree(content, m);
  }

  /** A template with none of the placeholders and no `[english]{babel}` comes back unchanged, whatever the metadata. */
  lemma NoPlaceholderUnchanged(content: string, metadata: Option<BookMetadata>)
    requires !Occurs(content, TitlePlaceholder) && !Occurs(content, SubtitlePlaceholder)
    requires !Occurs(content, AuthorPlaceholder) && !Occurs(content, EnglishBabel)
    ensures Applied(content, metadata) == content
  {
    if metadata.Some? {
      var m := metadata.value;
      FillAllThree(content, m);
      ReplaceAllAbsent(content, TitlePlaceholder, m.title);
      ReplaceAllAbsent(content, SubtitlePlaceholder, SubtitleValue(m));
      ReplaceAllAbsent(content, AuthorPlaceholder, AuthorsString(m.authors));
      ReplaceAllAbsent(content, EnglishBabel, BabelOption(m.language));
    }
  }

  /** A pattern whose only `[` is its first character, like every pattern `apply_metadata` replaces. */
  predicate OpensOnce(p: string) {
    |p| >= 1 && p[0] == '[' && forall k :: 0 < k < |p| ==> p[k] != '['
  }

  /** Two such patterns neither of which starts the other: their occurrences can never overlap. */
  predicate Distinct(p: string, q: string) {
    OpensOnce(p) && OpensOnce(q) && !StartsWith(p, q) && !StartsWith(q, p)
  }

  lemma NoOverlap(s: string, p: string, q: string, i: int, j: int)
    requires Distinct(p, q) && OccursAt(s, q, i) && OccursAt(s, p, j)
    ensures j + |p| <= i || i + |q| <= j
  {
    assert forall k :: j <= k < j + |p| ==> s[k] == s[j..j + |p|][k - j];
    assert forall k :: i <= k < i + |q| ==> s[k] == s[i..i + |q|][k - i];
    assert s[i] == '[' && s[j] == '[';
    var n := if |p| <= |q| then |p| else |q|;
    assert s[j..j + n] == p[..n];
    assert s[i..i + n] == q[..n];
  }

  /** The four patterns are pairwise distinct in that sense. */
  lemma PatternsDistinct()
    ensures Distinct(TitlePlaceholder, SubtitlePlaceholder)
    ensures Distinct(TitlePlaceholder, AuthorPlaceholder)
    ensures Distinct(TitlePlaceholder, EnglishBabel)
    ensures Distinct(SubtitlePlaceholder, AuthorPlaceholder)
    ensures Distinct(SubtitlePlaceholder, EnglishBabel)
    ensures Distinct(AuthorPlaceholder, EnglishBabel)
  {
    PatternsOpenOnce();
    assert TitlePlaceholder[9] == 'B' && SubtitlePlaceholder[9] == 'S' && AuthorPlaceholder[9] == 'A';
    assert EnglishBabel[1] == 'e' && TitlePlaceholder[1] == 'P';
  }

  lemma PatternsOpenOnce()
    ensures OpensOnce(TitlePlaceholder) && OpensOnce(SubtitlePlaceholder)
    ensures OpensOnce(AuthorPlaceholder) && OpensOnce(EnglishBabel)
  {
  }

  /** Replacing `p` keeps a prefix of the content in which no occurrence of `p` starts. */
  lemma {:induction false} ReplaceKeepsPrefix(s: string, p: string, v: string, k: nat)
    requires |p| > 0 && k <= |s|
    requires forall j :: 0 <= j < k ==> !OccursAt(s, p, j)
    ensures StartsWith(ReplaceAll(s, p, v), s[..k])
    decreases |s|
  {
    if k > 0 && |s| >= |p| {
      assert !OccursAt(s, p, 0);
      forall j | 0 <= j < k - 1 ensures !OccursAt(s[1..], p, j) {
        if OccursAt(s[1..], p, j) {
          assert s[1..][j..j + |p|] == s[j + 1..j + 1 + |p|];
          assert OccursAt(s, p, j + 1);
        }
      }
      ReplaceKeepsPrefix(s[1..], p, v, k - 1);
      assert s[..k] == [s[0]] + s[1..][..k - 1];
    }
  }

  /** Replacing `p` keeps an occurrence of `q` that no occurrence of `p` overlaps. */
  lemma {:induction false} ReplaceKeepsOccurrence(s: string, p: string, v: string, q: string, i: nat)
    requires |p| > 0 && |q| > 0 && OccursAt(s, q, i)
    requires forall j :: OccursAt(s, p, j) ==> j + |p| <= i || i + |q| <= j
    ensures Occurs(ReplaceAll(s, p, v), q)
    decreases |s|
  {
    var r := ReplaceAll(s, p, v);
    if |s| < |p| {
      assert OccursAt(r, q, i);
    } else if i == 0 {
      ReplaceKeepsPrefix(s, p, v, |q|);
      assert OccursAt(r, q, 0);
    } else {
      var k := if s[..|p|] == p then |p| else 1;
      var pre := if s[..|p|] == p then v else [s[0]];
      assert OccursAt(s, p, 0) ==> |p| <= i;
      assert r == pre + ReplaceAll(s[k..], p, v);
      OccursInSuffix(s, q, k, i - k);
      forall j | OccursAt(s[k..], p, j) ensures j + |p| <= i - k || i - k + |q| <= j {
        OccursInSuffix(s, p, k, j);
      }
      ReplaceKeepsOccurrence(s[k..], p, v, q, i - k);
      var x :| 0 <= x <= |ReplaceAll(s[k..], p, v)| && OccursAt(ReplaceAll(s[k..], p, v), q, x);
      OccursAfterPrefix(pre, ReplaceAll(s[k..], p, v), q, x);
    }
  }

  /** An occurrence in a suffix is an occurrence in the whole string, shifted. */
  lemma OccursInSuffix(s: string, p: string, k: nat, j: int)
    requires k <= |s|
    ensures OccursAt(s[k..], p, j) <==> 0 <= j && OccursAt(s, p, j + k)
  {
    if 0 <= j && j + |p| <= |s| - k {
      assert s[k..][j..j + |p|] == s[j + k..j + k + |p|];
    }
  }

  /** An occurrence survives a prefix being put in front, shifted by its length. */
  lemma OccursAfterPrefix(pre: string, r: string, q: string, x: int)
    requires OccursAt(r, q, x)
    ensures OccursAt(pre + r, q, |pre| + x)
  {
    assert (pre + r)[|pre| + x..|pre| + x + |q|] == r[x..x + |q|];
  }

  /** Replacing one pattern keeps every occurrence of a distinct pattern. */
  lemma ReplaceKeeps(s: string, p: string, v: string, q: string)
    requires Distinct(p, q) && Occurs(s, q)
    ensures Occurs(ReplaceAll(s, p, v), q)
  {
    var i :| 0 <= i <= |s| && OccursAt(s, q, i);
    forall j | OccursAt(s, p, j) ensures j + |p| <= i || i + |q| <= j {
      NoOverlap(s, p, q, i, j);
    }
    ReplaceKeepsOccurrence(s, p, v, q, i);
  }

  /**
   * A placeholder whose value is falsy stays in the result wherever the template has
   * it, and `[english]{babel}` stays when no language is given: the other rewrites
   * never touch it, whatever values they insert.
   */
  lemma FalsyPlaceholderStays(content: string, m: BookMetadata)
    ensures m.title == "" && Occurs(content, TitlePlaceholder) ==>
              Occurs(Applied(content, Some(m)), TitlePlaceholder)
    ensures SubtitleValue(m) == "" && Occurs(content, SubtitlePlaceholder) ==>
              Occurs(Applied(content, Some(m)), SubtitlePlaceholder)
    ensures AuthorsString(m.authors) == "" && Occurs(content, AuthorPlaceholder) ==>
              Occurs(Applied(content, Some(m)), AuthorPlaceholder)
    ensures m.language == "" && Occurs(content, EnglishBabel) ==>
              Occurs(Applied(content, Some(m)), EnglishBabel)
  {
    KeptThrough(content, m, TitlePlaceholder, m.title);
    KeptThrough(content, m, SubtitlePlaceholder, SubtitleValue(m));
    KeptThrough(content, m, AuthorPlaceholder, AuthorsString(m.authors));
    KeptThrough(content, m, EnglishBabel, m.language);
  }

  /** The pass for `q` is skipped, and every other pass keeps `q`. */
  lemma KeptThrough(content: string, m: BookMetadata, q: string, value: string)
    requires (q == TitlePlaceholder && value == m.title) ||
             (q == SubtitlePlaceholder && value == SubtitleValue(m)) ||
             (q == AuthorPlaceholder && value == AuthorsString(m.authors)) ||
             (q == EnglishBabel && value == m.language)
    ensures value == "" && Occurs(content, q) ==> Occurs(Applied(content, Some(m)), q)
  {
    if value == "" && Occurs(content, q) {
      FillAllThree(content, m);
      PatternsDistinct();
      var c1 := Fill(content, TitlePlaceholder, m.title);
      FillKeeps(content, TitlePlaceholder, m.title, q);
      var c2 := Fill(c1, SubtitlePlaceholder, SubtitleValue(m));
      FillKeeps(c1, SubtitlePlaceholder, SubtitleValue(m), q);
      var c3 := Fill(c2, AuthorPlaceholder, AuthorsString(m.authors));
      FillKeeps(c2, AuthorPlaceholder, AuthorsString(m.authors), q);
      if m.language != "" {
        ReplaceKeeps(c3, EnglishBabel, BabelOption(m.language), q);
      }
    }
  }

  /** A pass keeps `q` when it is skipped or replaces a pattern distinct from `q`. */
  lemma FillKeeps(content: string, p: string, v: string, q: string)
    requires |p| > 0 && Occurs(content, q)
    requires v == "" || p == q || Distinct(p, q)
    ensures v == "" || p != q ==> Occurs(Fill(content, p, v), q)
  {
    if v != "" && p != q {
      ReplaceKeeps(content, p, v, q);
    }
  }
}
