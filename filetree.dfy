/**
 * An in-memory stand-in for the part of `pathlib` the resolver uses.
 * A path is the sequence of its names; a tree maps each existing path to a file
 * or to a directory with its children in enumeration order.
 * `exists()` is membership, `glob(pattern)` on a directory is an order-preserving
 * filter of its children, and `rglob(pattern)` is a filter of a given enumeration
 * of the whole subtree, whose order the filesystem decides.
 */
module FileTree {
  import opened Wrappers
  import opened Strings

  type Name = string
  type Path = seq<Name>

  datatype Entry = File | Dir(children: seq<Name>)

  type Tree = map<Path, Entry>

  /** A single-name glob pattern: a literal name, or `prefix*suffix`. */
  datatype Pattern = Exact(name: Name) | Wild(prefix: string, suffix: string)

  predicate NameMatches(n: Name, pat: Pattern) {
    match pat
    case Exact(x) => n == x
    case Wild(pre, suf) => |pre| + |suf| <= |n| && StartsWith(n, pre) && EndsWith(n, suf)
  }

  function Last(p: Path): Name
    requires |p| > 0
  {
    p[|p| - 1]
  }

  predicate IsPrefix(root: Path, p: Path) {
    |root| <= |p| && p[..|root|] == root
  }

  /** Every child a directory lists exists in the tree. */
  ghost predicate WellFormed(t: Tree) {
    forall d, i :: d in t && t[d].Dir? && 0 <= i < |t[d].children| ==> d + [t[d].children[i]] in t
  }

  /** The names that match, in their original order; the first of them is the first match. */
  function Filter(names: seq<Name>, pat: Pattern): (r: seq<Name>)
    ensures |r| <= |names|
    ensures forall n :: n in r <==> n in names && NameMatches(n, pat)
    ensures |r| > 0 ==> exists k :: 0 <= k < |names| && names[k] == r[0] &&
                          forall j :: 0 <= j < k ==> !NameMatches(names[j], pat)
    decreases |names|
  {
    if names == [] then []
    else
      var rest := Filter(names[1..], pat);
      if NameMatches(names[0], pat) then [names[0]] + rest
      else
        assert |rest| > 0 ==> names[0] != rest[0] || !NameMatches(names[0], pat);
        rest
  }

  function Children(dir: Path, names: seq<Name>): (r: seq<Path>)
    ensures |r| == |names| && forall k :: 0 <= k < |r| ==> r[k] == dir + [names[k]]
  {
    seq(|names|, k requires 0 <= k < |names| => dir + [names[k]])
  }

  /**
   * `dir.glob(pattern)`: the children of `dir` whose names match, in enumeration order;
   * nothing when `dir` is missing or is a file.
   */
  function Glob(t: Tree, dir: Path, pat: Pattern): (r: seq<Path>)
    ensures forall k :: 0 <= k < |r| ==>
              |r[k]| == |dir| + 1 && r[k][..|dir|] == dir && NameMatches(Last(r[k]), pat)
    ensures |r| == 0 <==> !(dir in t && t[dir].Dir? && exists n :: n in t[dir].children && NameMatches(n, pat))
  {
    if dir in t && t[dir].Dir? then
      var names := Filter(t[dir].children, pat);
      var r := Children(dir, names);
      assert forall k :: 0 <= k < |r| ==> r[k][..|dir|] == dir && Last(r[k]) == names[k];
      assert |names| > 0 ==> names[0] in t[dir].children;
      r
    else []
  }

  /** `list(dir.glob(pattern))[0]` when the list is not empty: the first match wins. */
  function FirstGlob(t: Tree, dir: Path, pat: Pattern): (r: Option<Path>)
    ensures r.None? <==> !(dir in t && t[dir].Dir? && exists n :: n in t[dir].children && NameMatches(n, pat))
    ensures r.Some? ==> exists k :: 0 <= k < |t[dir].children| && r.value == dir + [t[dir].children[k]] &&
                          NameMatches(t[dir].children[k], pat) &&
                          forall j :: 0 <= j < k ==> !NameMatches(t[dir].children[j], pat)
    ensures r.Some? ==> |r.value| == |dir| + 1 && r.value[..|dir|] == dir && NameMatches(Last(r.value), pat)
  {
    var g := Glob(t, dir, pat);
    if |g| > 0 then Some(g[0]) else None
  }

  /** In a well-formed tree every glob result exists. */
  lemma GlobExists(t: Tree, dir: Path, pat: Pattern)
    requires WellFormed(t)
    ensures forall k :: 0 <= k < |Glob(t, dir, pat)| ==> Glob(t, dir, pat)[k] in t
  {
    var g := Glob(t, dir, pat);
    if dir in t && t[dir].Dir? {
      var cs := t[dir].children;
      var names := Filter(cs, pat);
      forall k | 0 <= k < |g| ensures g[k] in t {
        assert g[k] == dir + [names[k]];
        assert names[k] in cs;
        var i :| 0 <= i < |cs| && cs[i] == names[k];
      }
    }
  }

  /** `walk` lists every entry strictly below `root`, and nothing else: an `rglob` enumeration. */
  ghost predicate Enumerates(t: Tree, root: Path, walk: seq<Path>) {
    (forall k :: 0 <= k < |walk| ==> walk[k] in t && IsPrefix(root, walk[k]) && |walk[k]| > |root|) &&
    (forall p :: p in t && IsPrefix(root, p) && |p| > |root| ==> p in walk)
  }

  /** A prefix of a prefix: `p` starts with `q`, which starts with `root`. */
  lemma PrefixThrough(root: Path, q: Path, p: Path)
    requires |root| <= |q| <= |p| && p[..|q|] == q && q[..|root|] == root
    ensures p[..|root|] == root
  {
    assert p[..|root|] == p[..|q|][..|root|];
  }

  /** `root.rglob(pattern)` over the enumeration `walk`: the entries whose own name matches, in order. */
  function RGlob(walk: seq<Path>, pat: Pattern): (r: seq<Path>)
    ensures |r| <= |walk|
    ensures forall p :: p in r <==> p in walk && |p| > 0 && NameMatches(Last(p), pat)
    decreases |walk|
  {
    if walk == [] then []
    else
      var rest := RGlob(walk[1..], pat);
      if |walk[0]| > 0 && NameMatches(Last(walk[0]), pat) then [walk[0]] + rest else rest
  }

  /**
   * `rglob` keeps the enumeration order: the matches of a walk are the matches of its
   * first part followed by those of the rest.
   */
  lemma {:induction false} RGlobAppend(a: seq<Path>, b: seq<Path>, pat: Pattern)
    ensures RGlob(a + b, pat) == RGlob(a, pat) + RGlob(b, pat)
    decreases |a|
  {
    if a == [] {
      assert a + b == b;
    } else {
      assert (a + b)[0] == a[0];
      assert (a + b)[1..] == a[1..] + b;
      RGlobAppend(a[1..], b, pat);
    }
  }

  /** A single entry is kept exactly when its name matches. */
  lemma RGlobOne(p: Path, pat: Pattern)
    ensures RGlob([p], pat) == if |p| > 0 && NameMatches(Last(p), pat) then [p] else []
  {
    assert [p][1..] == [];
  }
}
