/**
 * The integer logic of the status line (plugins/statusline/statusline.py): ANSI colour
 * codes switched off by `NO_COLOR`, the two threshold colourings, the ASCII progress
 * bar, the remaining-context percentage and the `~` shortening of the current
 * directory. Whether colours are on is a parameter; the JSON fields arrive as values.
 */
module Statusline {
  import opened Wrappers
  import opened Strings
  import opened Decimal

  const Escape: char := '\U{1B}'

  /** `color(code)`: `ESC [ code m` when colours are on, and nothing when they are off. */
  function Color(code: string, useColor: bool): (r: string)
    ensures !useColor ==> r == ""
    ensures useColor ==> |r| == |code| + 3 && r[..2] == [Escape, '['] && r[2..|r| - 1] == code && r[|r| - 1] == 'm'
  {
    if useColor then
      var r := [Escape, '['] + code + "m";
      assert r[2..|r| - 1] == code;
      r
    else ""
  }

  /** `rst()`: the reset sequence, which is the colour with code `0`. */
  function Reset(useColor: bool): (r: string)
    ensures r == Color("0", useColor)
  {
    if useColor then [Escape] + "[0m" else ""
  }

  /** With colours on, different codes give different sequences. */
  lemma ColorInjective(a: string, b: string)
    requires Color(a, true) == Color(b, true)
    ensures a == b
  {
    var r := Color(a, true);
    assert a == r[2..|r| - 1] == b;
  }

  /** The three colour codes of `context_color_by_pct`, by remaining percentage. */
  function ContextColorCode(remainingPct: int): (code: string)
    ensures code == "38;5;203" <==> remainingPct <= 20
    ensures code == "38;5;215" <==> 20 < remainingPct <= 40
    ensures code == "38;5;158" <==> 40 < remainingPct
  {
    if remainingPct <= 20 then "38;5;203"
    else if remainingPct <= 40 then "38;5;215"
    else "38;5;158"
  }

  /** `context_color_by_pct(remaining_pct)`. */
  function ContextColorByPct(remainingPct: int, useColor: bool): string {
    Color(ContextColorCode(remainingPct), useColor)
  }

  /**
   * With colours on, two remaining percentages share a colour exactly when they fall in
   * the same band (at most 20, 21 to 40, above 40).
   */
  lemma ContextColorBands(a: int, b: int)
    ensures ContextColorByPct(a, true) == ContextColorByPct(b, true) <==>
            ((a <= 20) == (b <= 20) && (a <= 40) == (b <= 40))
  {
    if ContextColorByPct(a, true) == ContextColorByPct(b, true) {
      ColorInjective(ContextColorCode(a), ContextColorCode(b));
    }
  }

  /** The three colour codes of `session_color_by_pct`, by elapsed percentage of the session. */
  function SessionColorCode(sessionPct: int): (code: string)
    ensures code == "38;5;210" <==> sessionPct >= 90
    ensures code == "38;5;228" <==> 75 <= sessionPct < 90
    ensures code == "38;5;194" <==> sessionPct < 75
  {
    var remPct := 100 - sessionPct;
    if remPct <= 10 then "38;5;210"
    else if remPct <= 25 then "38;5;228"
    else "38;5;194"
  }

  /** `session_color_by_pct(session_pct)`. */
  function SessionColorByPct(sessionPct: int, useColor: bool): string {
    Color(SessionColorCode(sessionPct), useColor)
  }

  /** With colours on, two elapsed percentages share a colour exactly when they fall in the same band. */
  lemma SessionColorBands(a: int, b: int)
    ensures SessionColorByPct(a, true) == SessionColorByPct(b, true) <==>
            ((a >= 90) == (b >= 90) && (a >= 75) == (b >= 75))
  {
    if SessionColorByPct(a, true) == SessionColorByPct(b, true) {
      ColorInjective(SessionColorCode(a), SessionColorCode(b));
    }
  }

  /** `max(0, min(100, pct))`. */
  function ClampPct(pct: int): (r: int)
    ensures 0 <= r <= 100
    ensures 0 <= pct <= 100 ==> r == pct
    ensures pct < 0 ==> r == 0
    ensures pct > 100 ==> r == 100
  {
    if pct < 0 then 0 else if pct > 100 then 100 else pct
  }

  /** `c * n`: `n` copies of `c`, none when `n` is not positive. */
  function Repeat(c: char, n: int): (r: string)
    ensures |r| == (if n > 0 then n else 0) && forall i :: 0 <= i < |r| ==> r[i] == c
    decreases n
  {
    if n <= 0 then "" else [c] + Repeat(c, n - 1)
  }

  /**
   * `progress_bar(pct, width)`: `width` cells, cell `i` filled (`=`) exactly when the
   * clamped percentage covers it completely, the rest `-`. Python's `//` rounds towards
   * minus infinity, as Dafny's `/` does for a positive divisor; a negative width gives
   * an empty bar.
   */
  function ProgressBar(pct: int, width: int): (r: string)
    ensures width >= 0 ==> |r| == width
    ensures width < 0 ==> r == ""
    ensures forall i :: 0 <= i < |r| ==> (r[i] == '=' || r[i] == '-')
    ensures forall i :: 0 <= i < |r| ==> (r[i] == '=' <==> 100 * (i + 1) <= ClampPct(pct) * width)
  {
    var p := ClampPct(pct);
    var filled := p * width / 100;
    var empty := width - filled;
    if width >= 0 then
      assert p * width <= 100 * width by { MulBound(p, width); }
      assert 0 <= filled <= width;
      Repeat('=', filled) + Repeat('-', empty)
    else
      assert p * width >= 100 * width by { MulBound(p, width); }
      assert p * width <= 0;
      assert width <= filled <= 0;
      Repeat('=', filled) + Repeat('-', empty)
  }

  lemma MulBound(p: int, w: int)
    requires 0 <= p <= 100
    ensures w >= 0 ==> 0 <= p * w <= 100 * w
    ensures w < 0 ==> 100 * w <= p * w <= 0
  {
  }

  /** A larger percentage never empties a cell that a smaller one fills. */
  lemma ProgressBarMonotone(pct1: int, pct2: int, width: int)
    requires pct1 <= pct2
    ensures forall i :: 0 <= i < |ProgressBar(pct1, width)| && ProgressBar(pct1, width)[i] == '=' ==>
              ProgressBar(pct2, width)[i] == '='
  {
    if width > 0 {
      assert ClampPct(pct1) * width <= ClampPct(pct2) * width by {
        MulMonotone(ClampPct(pct1), ClampPct(pct2), width);
      }
    }
  }

  lemma MulMonotone(a: int, b: int, w: int)
    requires a <= b && w >= 0
    ensures a * w <= b * w
  {
    assert b * w - a * w == (b - a) * w;
  }

  /** The token counts of `current_usage`; a missing or null count is 0. */
  datatype TokenUsage = TokenUsage(inputTokens: int, cacheCreation: int, cacheRead: int)

  /** What the context fragment leaves behind: the text shown, the percentage and its colour. */
  datatype ContextDisplay = ContextDisplay(percent: string, remainingPct: int, colour: string)

  function CurrentTokens(u: TokenUsage): int {
    u.inputTokens + u.cacheCreation + u.cacheRead
  }

  /** Lines 286-304: `usage` is `None` when `current_usage` is missing or empty. */
  function ContextSummary(usage: Option<TokenUsage>, contextSize: int, useColor: bool): ContextDisplay {
    if usage.Some? && CurrentTokens(usage.value) > 0 && contextSize > 0 then
      var used := CurrentTokens(usage.value) * 100 / contextSize;
      var remaining := ClampPct(100 - used);
      ContextDisplay(NatToString(remaining) + "%", remaining, ContextColorByPct(remaining, useColor))
    else
      ContextDisplay("", 0, Color("1;37", useColor))
  }

  /** The context fragment of `main`, assignment by assignment. */
  method ContextWindow(usage: Option<TokenUsage>, contextSize: int, useColor: bool)
      returns (contextPct: string, contextRemainingPct: int, ctxColor: string)
    ensures ContextDisplay(contextPct, contextRemainingPct, ctxColor) == ContextSummary(usage, contextSize, useColor)
  {
    contextPct := "";
    contextRemainingPct := 0;
    ctxColor := Color("1;37", useColor);
    if usage.Some? {
      var currentTokens := usage.value.inputTokens + usage.value.cacheCreation + usage.value.cacheRead;
      assert currentTokens == CurrentTokens(usage.value);
      if currentTokens > 0 && contextSize > 0 {
        var contextUsedPct := currentTokens * 100 / contextSize;
        contextRemainingPct := ClampPct(100 - contextUsedPct);
        ctxColor := ContextColorByPct(contextRemainingPct, useColor);
        contextPct := NatToString(contextRemainingPct) + "%";
      }
    }
  }

  /**
   * What the shown percentage means: it is shown only for a positive token count and a
   * positive window, it reads back as the remaining percentage, it is 0 exactly when the
   * window is full and 100 exactly when less than one percent is used, and in between
   * the used share (100 minus it) is the whole percentage of the window the tokens fill.
   */
  lemma ContextRemainingMeaning(usage: Option<TokenUsage>, contextSize: int, useColor: bool)
    ensures var d := ContextSummary(usage, contextSize, useColor);
            var shown := usage.Some? && CurrentTokens(usage.value) > 0 && contextSize > 0;
            0 <= d.remainingPct <= 100 &&
            (d.percent == "" <==> !shown) &&
            (!shown ==> d.remainingPct == 0 && d.colour == Color("1;37", useColor)) &&
            (shown ==> var tokens := CurrentTokens(usage.value);
                       d.colour == ContextColorByPct(d.remainingPct, useColor) &&
                       d.percent[..|d.percent| - 1] == NatToString(d.remainingPct) &&
                       (d.remainingPct == 0 <==> tokens >= contextSize) &&
                       (d.remainingPct == 100 <==> 100 * tokens < contextSize) &&
                       (0 < d.remainingPct < 100 ==>
                          (100 - d.remainingPct) * contextSize <= 100 * tokens < (101 - d.remainingPct) * contextSize))
  {
    var d := ContextSummary(usage, contextSize, useColor);
    if usage.Some? && CurrentTokens(usage.value) > 0 && contextSize > 0 {
      var tokens := CurrentTokens(usage.value);
      var used := tokens * 100 / contextSize;
      DivBounds(tokens * 100, contextSize, used);
      assert d.percent[..|d.percent| - 1] == NatToString(d.remainingPct);
      if used >= 100 {
        assert 100 * contextSize <= used * contextSize by { MulMonotone(100, used, contextSize); }
      }
      if used < 100 {
        assert (used + 1) * contextSize <= 100 * contextSize by { MulMonotone(used + 1, 100, contextSize); }
      }
      if used > 0 {
        assert contextSize <= used * contextSize by { MulMonotone(1, used, contextSize); }
      }
    }
  }

  /** Python's `q = n // d` for a positive divisor: `q * d <= n < (q + 1) * d`. */
  lemma DivBounds(n: int, d: int, q: int)
    requires d > 0 && q == n / d
    ensures q * d <= n < (q + 1) * d
  {
    assert n == q * d + n % d;
  }

  /** `os.environ.get("HOME", os.environ.get("USERPROFILE", ""))`. */
  function HomeDir(homeVar: Option<string>, userProfile: Option<string>): (r: string)
    ensures homeVar.Some? ==> r == homeVar.value
    ensures homeVar.None? && userProfile.Some? ==> r == userProfile.value
    ensures homeVar.None? && userProfile.None? ==> r == ""
  {
    match homeVar
    case Some(h) => h
    case None => match userProfile case Some(u) => u case None => ""
  }

  /** `s.replace("\\", "/")`. */
  function Normalize(s: string): string {
    ReplaceAll(s, "\\", "/")
  }

  /** Normalising turns every backslash into a slash and touches nothing else. */
  lemma NormalizeMeaning(s: string)
    ensures |Normalize(s)| == |s|
    ensures forall i :: 0 <= i < |s| ==> Normalize(s)[i] == if s[i] == '\\' then '/' else s[i]
    ensures forall i :: 0 <= i < |s| ==> Normalize(s)[i] != '\\'
  {
    ReplaceChar(s, '\\', '/');
  }

  /** `workspace.get("current_dir") or data.get("cwd") or "unknown"`; an absent value is `""`. */
  function CurrentDirOf(workspaceDir: string, cwd: string): (r: string)
    ensures r != ""
  {
    if workspaceDir != "" then workspaceDir else if cwd != "" then cwd else "unknown"
  }

  /** Lines 256-267 as written: the normalised home is replaced by `~` whenever it is a string prefix. */
  function DisplayDirAsWritten(workspaceDir: string, cwd: string, home: string): string {
    var dir := Normalize(CurrentDirOf(workspaceDir, cwd));
    var h := Normalize(home);
    if home != "" && StartsWith(dir, h) then "~" + dir[|h|..] else dir
  }

  /**
   * The path fragment of `main`, from the `HOME` and `USERPROFILE` reads on, rebinding
   * `current_dir` step by step as the source does.
   */
  method ShortenCurrentDir(workspaceDir: string, cwd: string, homeVar: Option<string>, userProfile: Option<string>)
      returns (currentDir: string)
    ensures currentDir == DisplayDirAsWritten(workspaceDir, cwd, HomeDir(homeVar, userProfile))
  {
    var home := match homeVar case Some(h) => h case None => (match userProfile case Some(u) => u case None => "");
    currentDir := if workspaceDir != "" then workspaceDir else if cwd != "" then cwd else "unknown";
    currentDir := ReplaceAll(currentDir, "\\", "/");
    if home != "" {
      var homeNormalized := ReplaceAll(home, "\\", "/");
      if StartsWith(currentDir, homeNormalized) {
        currentDir := "~" + currentDir[|homeNormalized|..];
      }
    }
  }

  /**
   * Which variable decides the shortening: a set `HOME` hides `USERPROFILE` entirely, so
   * a `HOME` that is set but empty turns the shortening off; without `HOME`, `USERPROFILE`
   * acts as `HOME` would; with neither, nothing is shortened.
   */
  lemma HomeDirEffect(workspaceDir: string, cwd: string, homeVar: Option<string>, u1: Option<string>, u2: Option<string>)
    ensures homeVar.Some? ==>
              DisplayDirAsWritten(workspaceDir, cwd, HomeDir(homeVar, u1)) ==
              DisplayDirAsWritten(workspaceDir, cwd, HomeDir(homeVar, u2))
    ensures homeVar == Some("") || (homeVar.None? && u1.None?) ==>
              DisplayDirAsWritten(workspaceDir, cwd, HomeDir(homeVar, u1)) == Normalize(CurrentDirOf(workspaceDir, cwd))
    ensures homeVar.None? ==>
              DisplayDirAsWritten(workspaceDir, cwd, HomeDir(homeVar, u1)) ==
              DisplayDirAsWritten(workspaceDir, cwd, HomeDir(u1, None))
  {
  }

  /** `~` read back as the normalised home directory. */
  function ExpandHome(shown: string, home: string): string {
    if home != "" && StartsWith(shown, "~") then Normalize(home) + shown[1..] else shown
  }

  /**
   * The shortened path never holds a backslash, and expanding `~` again gives back the
   * normalised directory, unless the directory itself begins with `~`.
   */
  lemma DisplayDirAsWrittenInverse(workspaceDir: string, cwd: string, home: string)
    ensures var dir := Normalize(CurrentDirOf(workspaceDir, cwd));
            var shown := DisplayDirAsWritten(workspaceDir, cwd, home);
            (forall i :: 0 <= i < |shown| ==> shown[i] != '\\') &&
            (!StartsWith(dir, "~") ==> ExpandHome(shown, home) == dir)
  {
    var dir := Normalize(CurrentDirOf(workspaceDir, cwd));
    var h := Normalize(home);
    NormalizeMeaning(CurrentDirOf(workspaceDir, cwd));
    var shown := DisplayDirAsWritten(workspaceDir, cwd, home);
    if home != "" && StartsWith(dir, h) {
      assert shown[1..] == dir[|h|..];
      assert dir == h + dir[|h|..];
      forall i | 0 <= i < |shown| ensures shown[i] != '\\' {
        if i > 0 {
          assert shown[i] == dir[|h| + i - 1];
        }
      }
    }
  }

  /**
   * The home prefix test accepts a sibling directory whose name merely starts with the
   * home directory's name: the directory `h + x` is shown as `~x` for every `x`, so a `~`
   * followed by something other than `/` is shown for a path outside the home directory. With home `/home/al`,
   * `/home/alice/src` is shown as `~ice/src`.
   */
  lemma PrefixSiblingShortened(h: string, x: string)
    requires h != "" && (forall i :: 0 <= i < |h| ==> h[i] != '\\') && (forall i :: 0 <= i < |x| ==> x[i] != '\\')
    ensures DisplayDirAsWritten(h + x, "", h) == "~" + x
  {
    var dir := h + x;
    assert forall i :: 0 <= i < |dir| ==> dir[i] != '\\' by {
      forall i | 0 <= i < |dir| ensures dir[i] != '\\' {
        if i >= |h| {
          assert dir[i] == x[i - |h|];
        }
      }
    }
    NoBackslash(dir);
    NoBackslash(h);
    assert dir[..|h|] == h;
    assert dir[|h|..] == x;
  }

  lemma NoBackslash(s: string)
    requires forall i :: 0 <= i < |s| ==> s[i] != '\\'
    ensures Normalize(s) == s
  {
    NormalizeMeaning(s);
  }

  /** The home directory itself or a path below it, at a `/` boundary. */
  predicate InsideHome(dir: string, h: string) {
    StartsWith(dir, h) && (|dir| == |h| || dir[|h|] == '/')
  }

  /** The evidently intended shortening: the home prefix is replaced only at a path boundary. */
  function DisplayDir(workspaceDir: string, cwd: string, home: string): (shown: string)
    ensures var dir := Normalize(CurrentDirOf(workspaceDir, cwd));
            shown == dir || (home != "" && InsideHome(dir, Normalize(home)) && shown == "~" + dir[|Normalize(home)|..])
  {
    var dir := Normalize(CurrentDirOf(workspaceDir, cwd));
    var h := Normalize(home);
    if home != "" && InsideHome(dir, h) then "~" + dir[|h|..] else dir
  }

  /**
   * The corrected shortening writes `~` only for the home directory itself (`~`) or for a
   * path below it (`~/…`), never for a sibling whose name shares a prefix with it, and
   * `~` still expands back to the directory.
   */
  lemma DisplayDirMeaning(workspaceDir: string, cwd: string, home: string)
    ensures var dir := Normalize(CurrentDirOf(workspaceDir, cwd));
            var shown := DisplayDir(workspaceDir, cwd, home);
            (shown != dir ==> shown == "~" || StartsWith(shown, "~/")) &&
            (!StartsWith(dir, "~") ==> ExpandHome(shown, home) == dir)
  {
    var dir := Normalize(CurrentDirOf(workspaceDir, cwd));
    var h := Normalize(home);
    var shown := DisplayDir(workspaceDir, cwd, home);
    if home != "" && InsideHome(dir, h) {
      assert dir == h + dir[|h|..];
      assert shown[1..] == dir[|h|..];
      if |dir| > |h| {
        assert shown[..2] == "~/";
      }
    }
  }

  /** The corrected shortening leaves a sibling such as `/home/alice/src` of `/home/al` alone. */
  lemma PrefixSiblingKept(h: string, x: string)
    requires h != "" && (forall i :: 0 <= i < |h| ==> h[i] != '\\') && (forall i :: 0 <= i < |x| ==> x[i] != '\\')
    requires |x| > 0 && x[0] != '/'
    ensures DisplayDir(h + x, "", h) == h + x
  {
    var dir := h + x;
    assert forall i :: 0 <= i < |dir| ==> dir[i] != '\\' by {
      forall i | 0 <= i < |dir| ensures dir[i] != '\\' {
        if i >= |h| {
          assert dir[i] == x[i - |h|];
        }
      }
    }
    NoBackslash(dir);
    NoBackslash(h);
    assert dir[|h|] == x[0];
  }
}
