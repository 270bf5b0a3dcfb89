/** The lines of a `.dockerignore` file and which of them decides about a path. */
module IgnoreRules {
  import opened Glob
  import opened PatternMeaning

  /** A parsed `.dockerignore` line. */
  datatype IgnorePattern = IgnorePattern(pattern: string, negated: bool)

  function TrimStartSlashes(s: string): (r: string)
    ensures |r| <= |s| && r == s[|s| - |r|..] && (r == [] || r[0] != '/')
    ensures forall k | 0 <= k < |s| - |r| :: s[k] == '/'
  {
    if s != [] && s[0] == '/' then TrimStartSlashes(s[1..]) else s
  }

  predicate Applies(pat: IgnorePattern, path: string, isDir: bool) {
    GlobMatch(TrimStartSlashes(pat.pattern), path, isDir)
  }

  /** Some pattern applies to the path, and the last one that does is not a negation. */
  predicate Ignored(path: string, isDir: bool, patterns: seq<IgnorePattern>) {
    exists i | 0 <= i < |patterns| ::
      && Applies(patterns[i], path, isDir) && !patterns[i].negated
      && forall j | i < j < |patterns| :: !Applies(patterns[j], path, isDir)
  }

  method IsIgnored(path: string, isDir: bool, patterns: seq<IgnorePattern>) returns (ignored: bool)
    ensures ignored == Ignored(path, isDir, patterns)
  {
    hide *;
    ignored := false;
    ghost var last := -1;
    for n := 0 to |patterns|
      invariant -1 <= last < n
      invariant forall j | last < j < n :: !Applies(patterns[j], path, isDir)
      invariant last >= 0 ==> Applies(patterns[last], path, isDir)
      invariant ignored <==> last >= 0 && !patterns[last].negated
    {
      if Applies(patterns[n], path, isDir) {
        ignored := !patterns[n].negated;
        last := n;
      }
    }
    LastDecides(path, isDir, patterns, last);
  }

  /** If the last pattern that applies is at `last`, it decides. */
  lemma LastDecides(path: string, isDir: bool, patterns: seq<IgnorePattern>, last: int)
    requires -1 <= last < |patterns|
    requires last >= 0 ==> Applies(patterns[last], path, isDir)
    requires forall j | last < j < |patterns| :: !Applies(patterns[j], path, isDir)
    ensures Ignored(path, isDir, patterns) <==> last >= 0 && !patterns[last].negated
  {
    hide Applies;
  }

  // ---------------------------------------------------------------------------
  // What a line is for
  // ---------------------------------------------------------------------------

  /** What a line without a leading `**` component means below a leading slash: a bare name is the
      name of the entry, or of the directory it is in, at the root of the context. */
  ghost predicate AnchoredMeans(core: string, path: string, isDir: bool) {
    if '/' !in core then Matches(core, FirstComponent(path)) else CoreMeans(core, path, isDir)
  }

  /** What the pattern of a line means for a path; a leading slash anchors it to the root. */
  ghost predicate LineMeans(pattern: string, path: string, isDir: bool) {
    var rest := TrimStartSlashes(pattern);
    var (n, core) := SplitPattern(rest);
    if rest != pattern && n == 0 then AnchoredMeans(core, path, isDir) else PatternMeans(n, core, path, isDir)
  }

  /** A bare name behind a leading slash that matches the end of the path, but not its beginning. */
  ghost predicate Unanchored(pattern: string, path: string) {
    var rest := TrimStartSlashes(pattern);
    && rest != pattern && '/' !in rest
    && Matches(rest, Basename(path)) && !Matches(rest, FirstComponent(path))
  }

  /** What a line is taken for. */
  ghost predicate LineTaken(pattern: string, path: string, isDir: bool) {
    var rest := TrimStartSlashes(pattern);
    var (n, core) := SplitPattern(rest);
    if rest != pattern && '/' !in rest
    then LineMeans(pattern, path, isDir) || Unanchored(pattern, path)
    else PatternTaken(n, core, path, isDir)
  }

  /** For a path or a core without stars a line is applied exactly to what its pattern is taken for;
      a bare name behind a leading slash exactly to what it means and what a lost anchor adds. */
  lemma AppliesExact(pat: IgnorePattern, path: string, isDir: bool)
    requires var rest := TrimStartSlashes(pat.pattern); '*' !in path || '*' !in SplitPattern(rest).1
    ensures Applies(pat, path, isDir) <==> LineTaken(pat.pattern, path, isDir)
  {
    hide GlobMatch, SplitPattern, TrimStartSlashes, Matches, CoreTaken, PatternTaken, PatternMeans;
    hide FirstComponent, Basename;
    var rest := TrimStartSlashes(pat.pattern);
    var (n, core) := SplitPattern(rest);
    GlobMatchExact(rest, path, isDir);
    BareName(rest);
    if '/' !in rest {
      FromTheStart(core, path, isDir);
      BareNameTaken(core, path, isDir);
    }
  }

  lemma BareNameTaken(core: string, path: string, isDir: bool)
    requires '/' !in core
    ensures CoreTaken(core, path, isDir) <==> Matches(core, FirstComponent(path)) || Matches(core, Basename(path))
  {
    hide Matches, FirstComponent, Basename, AnyComponent;
    EndIsMeant(core, path);
  }

  lemma BareName(rest: string)
    ensures '/' !in rest ==> SplitPattern(rest) == (0, rest)
    ensures SplitPattern(rest).0 == 0 ==> SplitPattern(rest).1 == rest
  {
    assert ANY_DIRS[2] == '/';
  }

  lemma LeadingSlash(core: string)
    requires core == [] || core[0] != '/'
    ensures TrimStartSlashes("/" + core) == core
  {
    var s := "/" + core;
    assert s[0] == '/' && s[1..] == core;
    assert TrimStartSlashes(core) == core;
  }

  /** A name behind a leading slash applies to an entry of that name in any directory. */
  lemma LostAnchor(top: string, name: string)
    requires '/' !in top && name != [] && '/' !in name && '*' !in name && !Matches(name, top)
    ensures var pat, path := IgnorePattern("/" + name, false), top + "/" + name;
      Applies(pat, path, false) && !LineMeans(pat.pattern, path, false)
  {
    var pat, path := IgnorePattern("/" + name, false), top + "/" + name;
    LeadingSlash(name);
    NameAndTop(top, name);
    BareName(name);
    MatchesItself(name);
    hide Matches, Applies, TrimStartSlashes, SplitPattern, Basename, FirstComponent;
    assert Unanchored(pat.pattern, path);
    AppliesExact(pat, path, false);
  }

  /** The smallest lost anchor: `/foo` applies to `foo` in a directory `a`. */
  lemma AnchorIsLost()
    ensures Applies(IgnorePattern("/foo", false), "a/foo", false) && !LineMeans("/foo", "a/foo", false)
  {
    hide *;
    assert "a" + "/" + "foo" == "a/foo" && "/" + "foo" == "/foo";
    if Matches("foo", "a") { StarFreeLength("foo", "a"); }
    LostAnchor("a", "foo");
  }

  /** A line, with or without a leading slash, is applied as it is meant to every clean path without
      stars exactly if what follows its leading `**` components is right by itself, or is a bare name
      behind at least one of them. */
  lemma LineRightExactly(pat: IgnorePattern)
    ensures var (n, core) := SplitPattern(TrimStartSlashes(pat.pattern));
      (forall path, isDir | CleanPath(path) && '*' !in path ::
         Applies(pat, path, isDir) <==> LineMeans(pat.pattern, path, isDir))
      <==> RightCore(core) || (n > 0 && '/' !in core)
  {
    var rest := TrimStartSlashes(pat.pattern);
    var (n, core) := SplitPattern(rest);
    BareName(rest);
    hide TrimStartSlashes, SplitPattern, CleanPath, RightCore, Applies, LineMeans;
    if rest != pat.pattern && '/' !in rest {
      AnchoredNameRightExactly(pat, rest);
    } else {
      PatternRightExactly(rest);
      forall path, isDir | CleanPath(path) && '*' !in path
        ensures Applies(pat, path, isDir) == GlobMatch(rest, path, isDir)
        ensures LineMeans(pat.pattern, path, isDir) <==> PatternMeans(n, core, path, isDir)
      {
        AsThePattern(pat, path, isDir);
      }
    }
  }

  lemma AsThePattern(pat: IgnorePattern, path: string, isDir: bool)
    requires var rest := TrimStartSlashes(pat.pattern); rest == pat.pattern || '/' in rest
    ensures var rest := TrimStartSlashes(pat.pattern);
      var (n, core) := SplitPattern(rest);
      && Applies(pat, path, isDir) == GlobMatch(rest, path, isDir)
      && (LineMeans(pat.pattern, path, isDir) <==> PatternMeans(n, core, path, isDir))
  {
    var rest := TrimStartSlashes(pat.pattern);
    BareName(rest);
    FromTheStart(rest, path, isDir);
    hide TrimStartSlashes, SplitPattern, GlobMatch, CoreMeans, PatternMeans;
  }

  lemma AnchoredNameRightExactly(pat: IgnorePattern, rest: string)
    requires rest == TrimStartSlashes(pat.pattern) != pat.pattern && '/' !in rest
    ensures (forall path, isDir | CleanPath(path) && '*' !in path ::
               Applies(pat, path, isDir) <==> LineMeans(pat.pattern, path, isDir))
       <==> RightCore(rest)
  {
    BareName(rest);
    hide TrimStartSlashes, SplitPattern, CleanPath, Applies, Matches, FirstComponent, Basename;
    if RightCore(rest) {
      forall path, isDir | CleanPath(path) && '*' !in path
        ensures Applies(pat, path, isDir) <==> LineMeans(pat.pattern, path, isDir)
      {
        AppliesExact(pat, path, isDir);
        NeverUnanchored(rest, path);
      }
    } else {
      var yes, no := TellsNamesApart(rest);
      var path := no + "/" + yes;
      NameAndTop(no, yes);
      NamesClean(no, yes);
      AppliesExact(pat, path, false);
      assert Unanchored(pat.pattern, path) && !LineMeans(pat.pattern, path, false);
    }
  }

  lemma NamesClean(a: string, b: string)
    requires a != [] && b != [] && '/' !in a && '/' !in b
    ensures CleanPath(a + "/" + b)
  {
    SlashBetween(a, b);
  }

  lemma NeverUnanchored(core: string, path: string)
    requires CleanPath(path) && '/' !in core && RightCore(core)
    ensures Matches(core, Basename(path)) ==> Matches(core, FirstComponent(path))
  {
    CleanEnds(path);
    if core != [] {
      AnyNameMatches(core, FirstComponent(path));
    }
  }
}
