/** What `.dockerignore` patterns are for, and for which of them the matcher does it.  A bare name is
    to match any component of a path; a pattern with a slash is to match the whole path or, for
    directories, a directory above it.  The matcher looks for a bare name only at the two ends of
    the path, and compares directories character by character, as plain prefixes. */
module PatternMeaning {
  import opened Glob

  // ---------------------------------------------------------------------------
  // What a pattern is for
  // ---------------------------------------------------------------------------

  predicate ComponentEnd(path: string, j: int) {
    0 <= j <= |path| && (j == |path| || path[j] == '/')
  }

  predicate Component(path: string, i: int, j: int) {
    ComponentStart(path, i) && i <= j && ComponentEnd(path, j) && '/' !in path[i..j]
  }

  /** Some component of the path matches. */
  ghost predicate AnyComponent(name: string, path: string) {
    exists i, j :: Component(path, i, j) && Matches(name, path[i..j])
  }

  /** The path or some directory above it matches. */
  ghost predicate AtOrBelow(dir: string, path: string) {
    exists k :: ComponentEnd(path, k) && Matches(dir, path[..k])
  }

  /** What a pattern without a leading `**` component means for a path. */
  ghost predicate CoreMeans(core: string, path: string, isDir: bool) {
    if '/' !in core then AnyComponent(core, path)
    else Matches(core, path) || (isDir && AtOrBelow(TrimEndSlashes(core), path))
  }

  /** The matcher also takes a directory whose name only begins like the one in the pattern. */
  predicate Overreaches(core: string, path: string, isDir: bool) {
    && '/' in core && isDir
    && var dir := TrimEndSlashes(core);
    dir < path && path[|dir|] != '/'
  }

  /** The matcher misses a bare name that matches at neither end of the path, and a directory that
      is not there letter by letter, stars and question marks included. */
  ghost predicate Underreaches(core: string, path: string) {
    if '/' !in core then !Matches(core, FirstComponent(path)) && !Matches(core, Basename(path))
    else !Matches(core, path) && !(TrimEndSlashes(core) <= path)
  }

  /** What a pattern without a leading `**` component is taken for. */
  ghost predicate CoreTaken(core: string, path: string, isDir: bool) {
    (CoreMeans(core, path, isDir) && !Underreaches(core, path)) || Overreaches(core, path, isDir)
  }

  /** What a whole pattern means for a path. */
  ghost predicate PatternMeans(n: nat, core: string, path: string, isDir: bool) {
    exists i :: ComponentStart(path, i) && (n == 0 ==> i == 0) && CoreMeans(core, path[i..], isDir)
  }

  ghost predicate PatternTaken(n: nat, core: string, path: string, isDir: bool) {
    exists i :: ComponentStart(path, i) && (n == 0 ==> i == 0) && CoreTaken(core, path[i..], isDir)
  }

  /** The number of leading `**` components, and what follows them. */
  function SplitPattern(pattern: string): (r: (nat, string))
    ensures pattern == Prefixed(r.0, r.1) && !(ANY_DIRS <= r.1)
    decreases |pattern|
  {
    if ANY_DIRS <= pattern then
      var (n, core) := SplitPattern(pattern[|ANY_DIRS|..]);
      assert pattern == ANY_DIRS + pattern[|ANY_DIRS|..];
      (n + 1, core)
    else
      (0, pattern)
  }

  lemma EndComponents(path: string)
    ensures Component(path, 0, |FirstComponent(path)|) && path[0..|FirstComponent(path)|] == FirstComponent(path)
    ensures Component(path, |path| - |Basename(path)|, |path|)
    ensures path[|path| - |Basename(path)|..|path|] == Basename(path)
    ensures forall c <- FirstComponent(path) :: c in path
    ensures forall c <- Basename(path) :: c in path
  {
    hide FirstComponent, Basename;
  }

  lemma {:induction false} MatchesItself(p: string)
    ensures Matches(p, p)
  {
    Whole(p, p);
    assert p[|p|..] == [];
    assert At(p, p, |p|, |p|);
    LiteralFront(p, p, 0, 0, |p|);
  }

  lemma DirectoryTaken(core: string, path: string)
    requires '/' in core && TrimEndSlashes(core) <= path
    ensures CoreMeans(core, path, true) || Overreaches(core, path, true)
  {
    var dir := TrimEndSlashes(core);
    MatchesItself(dir);
    assert path[..|dir|] == dir;
  }

  lemma CoreExact(core: string, path: string, isDir: bool)
    requires !(ANY_DIRS <= core)
    ensures GlobMatch(core, path, isDir) ==> CoreTaken(core, path, isDir)
    ensures '*' !in path || '*' !in core ==> (GlobMatch(core, path, isDir) <==> CoreTaken(core, path, isDir))
  {
    PartExact(core, path, path);
    if '/' !in core {
      EndComponents(path);
      PartExact(core, path, FirstComponent(path));
      PartExact(core, path, Basename(path));
      EndIsMeant(core, path);
    } else if TrimEndSlashes(core) <= path {
      DirectoryTaken(core, path);
    }
    hide SimpleGlob, Matches, FirstComponent, Basename, TrimEndSlashes, AnyComponent, AtOrBelow;
  }

  /** The iterative matcher on a part of the path. */
  lemma PartExact(core: string, path: string, part: string)
    requires forall c <- part :: c in path
    ensures SimpleGlob(core, part) ==> Matches(core, part)
    ensures '*' !in path || '*' !in core ==> (SimpleGlob(core, part) <==> Matches(core, part))
  {
    hide SimpleGlob, Matches;
    SimpleGlobSound(core, part);
    if '*' !in path || '*' !in core {
      SimpleGlobComplete(core, part);
    }
  }

  lemma EndIsMeant(core: string, path: string)
    ensures Matches(core, FirstComponent(path)) || Matches(core, Basename(path)) ==> AnyComponent(core, path)
  {
    EndComponents(path);
    hide Matches, FirstComponent, Basename, Component;
  }

  /** The whole matcher against the declared meaning, for every pattern: it says yes only to what it
      is taken for, and for a path without stars, or a core without stars, to exactly that. */
  lemma GlobMatchExact(pattern: string, path: string, isDir: bool)
    ensures var (n, core) := SplitPattern(pattern);
      && (GlobMatch(pattern, path, isDir) ==> PatternTaken(n, core, path, isDir))
      && ('*' !in path || '*' !in core ==>
            (GlobMatch(pattern, path, isDir) <==> PatternTaken(n, core, path, isDir)))
  {
    var (n, core) := SplitPattern(pattern);
    hide GlobMatch, SplitPattern, Prefixed, CoreTaken;
    forall i | ComponentStart(path, i)
      ensures GlobMatch(core, path[i..], isDir) ==> CoreTaken(core, path[i..], isDir)
      ensures '*' !in path || '*' !in core ==>
        (GlobMatch(core, path[i..], isDir) <==> CoreTaken(core, path[i..], isDir))
    {
      CoreExact(core, path[i..], isDir);
    }
    if n == 0 {
      NoPrefix(core);
      assert path[0..] == path && ComponentStart(path, 0);
    } else {
      AnyDirsRepeated(n, core, path, isDir);
    }
  }

  lemma NoPrefix(core: string)
    ensures Prefixed(0, core) == core
  {
  }

  lemma FromTheStart(core: string, path: string, isDir: bool)
    ensures PatternMeans(0, core, path, isDir) <==> CoreMeans(core, path, isDir)
    ensures PatternTaken(0, core, path, isDir) <==> CoreTaken(core, path, isDir)
  {
    hide CoreMeans, CoreTaken;
    assert path[0..] == path && ComponentStart(path, 0);
  }

  // ---------------------------------------------------------------------------
  // Which names a bare name pattern matches
  // ---------------------------------------------------------------------------

  /** The pattern without its stars. */
  function Letters(p: string): string {
    if p == [] then [] else (if p[0] == '*' then [] else [p[0]]) + Letters(p[1..])
  }

  /** At least one star, and beside stars at most one question mark. */
  predicate MatchesAnyName(p: string) {
    '*' in p && (Letters(p) == "" || Letters(p) == "?")
  }

  lemma {:induction false} LettersPlain(p: string)
    ensures '*' !in Letters(p) && forall c <- Letters(p) :: c in p
    ensures '*' !in p ==> Letters(p) == p
    ensures Letters(p) == [] && p != [] ==> p[0] == '*'
  {
    if p != [] {
      LettersPlain(p[1..]);
      assert p == [p[0]] + p[1..];
    }
  }

  lemma {:induction false} LettersMatch(p: string)
    ensures Matches(p, Letters(p))
  {
    if p != [] {
      LettersMatch(p[1..]);
      var t := Letters(p);
      if p[0] == '*' {
        assert t[0..] == Letters(p[1..]);
      } else {
        assert t[1..] == Letters(p[1..]);
      }
    }
  }

  /** A text has at least as many characters as the pattern has letters; if not more, they fit. */
  lemma {:induction false} TightMatch(p: string, t: string)
    requires Matches(p, t)
    ensures |t| >= |Letters(p)|
    ensures |t| == |Letters(p)| ==> forall k | 0 <= k < |t| :: Fits(Letters(p)[k], t[k])
    decreases |p|
  {
    if p != [] {
      if p[0] == '*' {
        var k :| 0 <= k <= |t| && Matches(p[1..], t[k..]);
        TightMatch(p[1..], t[k..]);
        assert Letters(p) == Letters(p[1..]);
        assert k == 0 ==> t[k..] == t;
      } else {
        TightMatch(p[1..], t[1..]);
        assert Letters(p) == [p[0]] + Letters(p[1..]) && t == [t[0]] + t[1..];
      }
    }
  }

  lemma {:induction false} OnlyStarsMatch(p: string, t: string)
    requires p != [] && Letters(p) == []
    ensures Matches(p, t)
    decreases |p|
  {
    LettersPlain(p);
    if |p| == 1 {
      assert p[1..] == [] && t[|t|..] == [];
      assert Matches(p[1..], t[|t|..]);
    } else {
      OnlyStarsMatch(p[1..], t);
      assert t[0..] == t;
    }
  }

  lemma {:induction false} AnyNameMatches(p: string, t: string)
    requires MatchesAnyName(p) && t != []
    ensures Matches(p, t)
    decreases |p|
  {
    LettersPlain(p);
    LettersPlain(p[1..]);
    assert p == [p[0]] + p[1..];
    assert p[0] != '*' ==> Letters(p)[0] == p[0];
    if Letters(p) == [] {
      OnlyStarsMatch(p, t);
    } else if p[0] == '?' {
      assert p[1..] != [] && Letters(p[1..]) == [];
      OnlyStarsMatch(p[1..], t[1..]);
    } else if '*' in p[1..] {
      assert p[0] == '*' && Letters(p[1..]) == Letters(p);
      AnyNameMatches(p[1..], t);
      assert t[0..] == t;
    } else {
      var n := |t| - 1;
      assert p[1..] == "?" && t[n..] == [t[n]];
      assert Matches("?"[1..], t[n..][1..]);
      assert Matches(p[1..], t[n..]);
    }
  }

  /** A bare name pattern that is neither empty nor matches any name matches one name but not another. */
  lemma TellsNamesApart(p: string) returns (yes: string, no: string)
    requires p != [] && '/' !in p && !MatchesAnyName(p)
    ensures yes != [] && '/' !in yes && '*' !in yes && Matches(p, yes)
    ensures no != [] && '/' !in no && '*' !in no && !Matches(p, no)
  {
    LettersPlain(p);
    LettersMatch(p);
    yes := Letters(p);
    assert p[0] in p;
    if '*' !in p {
      no := yes + "a";
      if Matches(p, no) { StarFreeLength(p, no); }
    } else {
      no := if yes == "a" then "b" else "a";
      if Matches(p, no) { TightMatch(p, no); }
    }
  }

  lemma NameAndTop(top: string, name: string)
    requires '/' !in top && '/' !in name
    ensures Basename(top + "/" + name) == name && FirstComponent(top + "/" + name) == top
  {
    hide Basename, FirstComponent;
    LastName(top + "/" + name, name);
    FirstName(top + "/" + name, top);
  }

  lemma LastName(path: string, name: string)
    requires |name| < |path| && path[|path| - |name|..] == name && '/' !in name && path[|path| - |name| - 1] == '/'
    ensures Basename(path) == name
  {
    hide Basename;
    var b := Basename(path);
    assert forall k | |path| - |b| <= k < |path| :: path[k] == b[k - (|path| - |b|)];
    assert forall k | |path| - |name| <= k < |path| :: path[k] == name[k - (|path| - |name|)];
    assert |b| == |name|;
  }

  lemma FirstName(path: string, top: string)
    requires top < path && '/' !in top && path[|top|] == '/'
    ensures FirstComponent(path) == top
  {
    hide FirstComponent;
    var f := FirstComponent(path);
    assert forall k | 0 <= k < |f| :: path[k] == f[k];
    assert forall k | 0 <= k < |top| :: path[k] == top[k];
    assert |f| == |top|;
  }

  // ---------------------------------------------------------------------------
  // Which patterns are right about all paths
  // ---------------------------------------------------------------------------

  /** A relative path without empty components. */
  predicate CleanPath(path: string) {
    && path != [] && path[0] != '/' && path[|path| - 1] != '/'
    && forall k | 0 < k < |path| :: path[k - 1] == '/' ==> path[k] != '/'
  }

  /** Behind some star there are only question marks. */
  predicate OpenEnded(p: string) {
    exists i | 0 <= i < |p| :: p[i] == '*' && forall k | i < k < |p| :: p[k] == '?'
  }

  /** A bare name that matches no name or any; or a pattern with a slash that has an open end, or
      that no clean path can match. */
  predicate RightCore(core: string) {
    if '/' !in core then core == [] || MatchesAnyName(core)
    else OpenEnded(core) || (TrimEndSlashes(core) != [] && !CleanPath(TrimEndSlashes(core)))
  }

  lemma CleanSuffix(path: string, i: int)
    requires CleanPath(path) && ComponentStart(path, i)
    ensures i < |path| && CleanPath(path[i..])
  {
  }

  lemma CleanBeginning(path: string, k: int)
    requires CleanPath(path) && ComponentEnd(path, k)
    ensures 0 < k && CleanPath(path[..k])
  {
  }

  lemma CleanEnds(path: string)
    requires CleanPath(path)
    ensures FirstComponent(path) != [] && Basename(path) != []
    ensures !Component(path, 0, 0)
  {
    hide FirstComponent, Basename;
    EndComponents(path);
  }

  /** The characters behind the last star fit the end of the text. */
  lemma {:induction false} EndFits(p: string, t: string, i: nat)
    requires i <= |p| && '*' !in p[i..] && Matches(p, t)
    ensures |t| >= |p| - i
    ensures forall k | i <= k < |p| :: Fits(p[k], t[|t| - |p| + k])
    decreases |p|
  {
    if p != [] {
      var j := if i == 0 then 0 else i - 1;
      assert '*' !in p[1..][j..] by {
        assert p[1..][j..] == p[j + 1..] <= p[j + 1..];
        assert forall c <- p[1..][j..] :: c in p[i..];
      }
      if p[0] == '*' {
        var k :| 0 <= k <= |t| && Matches(p[1..], t[k..]);
        EndFits(p[1..], t[k..], j);
      } else {
        EndFits(p[1..], t[1..], j);
        if i == 0 {
          assert p[0..] == p;
          StarFreeLength(p, t);
        }
      }
    }
  }

  /** Slashes next to each other in a pattern stand for slashes next to each other. */
  lemma {:induction false} DoubleSlash(p: string, t: string, i: nat) returns (j: nat)
    requires 0 < i < |p| && p[i - 1] == '/' && p[i] == '/' && Matches(p, t)
    ensures 0 < j < |t| && t[j - 1] == '/' && t[j] == '/'
    decreases |p|
  {
    if i == 1 {
      j := 1;
      assert p[1..][0] == '/';
    } else if p[0] == '*' {
      var k :| 0 <= k <= |t| && Matches(p[1..], t[k..]);
      j := DoubleSlash(p[1..], t[k..], i - 1);
      j := j + k;
    } else {
      j := DoubleSlash(p[1..], t[1..], i - 1);
      j := j + 1;
    }
  }

  /** What matches a clean path is clean itself. */
  lemma CleanMatched(p: string, t: string)
    requires Matches(p, t) && CleanPath(t)
    ensures CleanPath(p)
  {
    if p != [] && p[|p| - 1] == '/' {
      EndFits(p, t, |p| - 1);
    }
    if k :| 0 < k < |p| && p[k - 1] == '/' && p[k] == '/' {
      var j := DoubleSlash(p, t, k);
    }
  }

  lemma {:induction false} QuestionsMatch(p: string, t: string)
    requires |p| == |t| && forall k | 0 <= k < |p| :: p[k] == '?'
    ensures Matches(p, t)
    decreases |p|
  {
    if p != [] {
      QuestionsMatch(p[1..], t[1..]);
    }
  }

  /** What a pattern with an open end matches may go on in any way. */
  lemma {:induction false} OpenEndGrows(p: string, t: string, more: string)
    requires OpenEnded(p) && Matches(p, t)
    ensures Matches(p, t + more)
    decreases |p|
  {
    var i :| 0 <= i < |p| && p[i] == '*' && forall k | i < k < |p| :: p[k] == '?';
    var u := t + more;
    if i == 0 {
      var n := |p| - 1;
      assert '*' !in p[1..];
      EndFits(p, t, 1);
      QuestionsMatch(p[1..], u[|u| - n..]);
    } else {
      assert p[1..][i - 1] == '*';
      if p[0] == '*' {
        var k :| 0 <= k <= |t| && Matches(p[1..], t[k..]);
        OpenEndGrows(p[1..], t[k..], more);
        assert u[k..] == t[k..] + more;
      } else {
        OpenEndGrows(p[1..], t[1..], more);
        assert u[1..] == t[1..] + more;
      }
    }
  }

  lemma TrimmedSlashes(core: string)
    ensures var dir := TrimEndSlashes(core);
      && dir <= core
      && ('*' in core ==> '*' in dir)
      && (core != [] && core[|core| - 1] != '/' ==> dir == core)
  {
    hide TrimEndSlashes;
    var dir := TrimEndSlashes(core);
    if '*' in core {
      var k :| 0 <= k < |core| && core[k] == '*';
      assert k < |dir|;
      assert dir[k] == '*';
    }
  }

  lemma StarredPrefix(dir: string, path: string)
    ensures '*' in dir && dir <= path ==> '*' in path
  {
    if '*' in dir && dir <= path {
      var k :| 0 <= k < |dir| && dir[k] == '*';
      assert path[k] == '*';
    }
  }

  lemma CleanPrefix(dir: string, path: string)
    requires CleanPath(path) && dir <= path && dir != [] && dir[|dir| - 1] != '/'
    ensures CleanPath(dir)
  {
    assert forall k | 0 <= k < |dir| :: dir[k] == path[k];
  }

  /** The bare names of the condition are right about every path. */
  lemma BareNameRight(core: string, path: string, isDir: bool)
    requires '/' !in core && RightCore(core) && CleanPath(path)
    ensures CoreTaken(core, path, isDir) <==> CoreMeans(core, path, isDir)
  {
    CleanEnds(path);
    EndComponents(path);
    hide FirstComponent, Basename;
    if core == [] {
      forall i, j | Component(path, i, j) ensures !Matches(core, path[i..j]) {
        assert i < j;
      }
    } else {
      AnyNameMatches(core, FirstComponent(path));
    }
  }

  lemma OpenEndRight(core: string, path: string, isDir: bool)
    requires '/' in core && OpenEnded(core) && '*' !in path
    ensures CoreTaken(core, path, isDir) <==> CoreMeans(core, path, isDir)
  {
    TrimmedSlashes(core);
    hide TrimEndSlashes, Matches, FirstComponent, Basename;
    var dir := TrimEndSlashes(core);
    StarredPrefix(dir, path);
    assert dir == core;
    if AtOrBelow(dir, path) {
      var k :| ComponentEnd(path, k) && Matches(dir, path[..k]);
      OpenEndGrows(core, path[..k], path[k..]);
      assert path[..k] + path[k..] == path;
    }
  }

  lemma UnmatchableRight(core: string, path: string, isDir: bool)
    requires '/' in core && TrimEndSlashes(core) != [] && !CleanPath(TrimEndSlashes(core)) && CleanPath(path)
    ensures !CoreTaken(core, path, isDir) && !CoreMeans(core, path, isDir)
  {
    TrimmedSlashes(core);
    var dir := TrimEndSlashes(core);
    assert dir[|dir| - 1] != '/';
    hide TrimEndSlashes, Matches, FirstComponent, Basename;
    if dir <= path {
      CleanPrefix(dir, path);
    }
    if Matches(core, path) {
      CleanMatched(core, path);
    }
    if k :| ComponentEnd(path, k) && Matches(dir, path[..k]) {
      CleanBeginning(path, k);
      CleanMatched(dir, path[..k]);
    }
  }

  lemma CoreRight(core: string, path: string, isDir: bool)
    requires RightCore(core) && CleanPath(path) && '*' !in path
    ensures CoreTaken(core, path, isDir) <==> CoreMeans(core, path, isDir)
  {
    hide CoreTaken, CoreMeans, OpenEnded;
    if '/' !in core {
      BareNameRight(core, path, isDir);
    } else if OpenEnded(core) {
      OpenEndRight(core, path, isDir);
    } else {
      UnmatchableRight(core, path, isDir);
    }
  }

  /** Behind a leading `**` component a bare name does match any component. */
  lemma BareNameUnderAnyDirs(n: nat, core: string, path: string, isDir: bool)
    requires n > 0 && '/' !in core
    ensures PatternTaken(n, core, path, isDir) <==> PatternMeans(n, core, path, isDir)
  {
    hide CoreMeans, CoreTaken, Component;
    forall i | ComponentStart(path, i)
      ensures CoreTaken(core, path[i..], isDir) ==> CoreMeans(core, path[i..], isDir)
    {
      TakenIsMeant(core, path[i..], isDir);
    }
    if i :| ComponentStart(path, i) && CoreMeans(core, path[i..], isDir) {
      var a, b := ComponentOf(core, path[i..], isDir);
      ComponentFrom(core, path, i, a, b, isDir);
      assert ComponentStart(path, i + a) && CoreTaken(core, path[i + a..], isDir);
    }
  }

  lemma TakenIsMeant(core: string, path: string, isDir: bool)
    requires '/' !in core
    ensures CoreTaken(core, path, isDir) ==> CoreMeans(core, path, isDir)
  {
    hide CoreMeans, Underreaches;
  }

  lemma ComponentOf(core: string, path: string, isDir: bool) returns (a: int, b: int)
    requires '/' !in core && CoreMeans(core, path, isDir)
    ensures Component(path, a, b) && Matches(core, path[a..b])
  {
    hide Matches;
    a, b :| Component(path, a, b) && Matches(core, path[a..b]);
  }

  /** The path from a component on has this component first. */
  lemma ComponentFrom(core: string, path: string, i: int, a: int, b: int, isDir: bool)
    requires '/' !in core && ComponentStart(path, i)
    requires Component(path[i..], a, b) && Matches(core, path[i..][a..b])
    ensures ComponentStart(path, i + a) && CoreTaken(core, path[i + a..], isDir)
  {
    var rest, from := path[i..], path[i + a..];
    assert from == rest[a..] && rest[a..b] == from[..b - a] == from[0..b - a];
    assert Component(from, 0, b - a);
    FirstIs(from, b - a);
    hide Matches, FirstComponent, Basename, Component;
    EndIsMeant(core, from);
  }

  lemma FirstIs(path: string, j: nat)
    requires Component(path, 0, j)
    ensures FirstComponent(path) == path[..j]
  {
    hide FirstComponent;
    var f := FirstComponent(path);
    assert forall k | 0 <= k < |f| :: path[k] == f[k] != '/';
    assert forall k | 0 <= k < j :: path[0..j][k] == path[k];
    assert |f| == j;
  }

  // ---------------------------------------------------------------------------
  // The others, each at a path it is wrong about
  // ---------------------------------------------------------------------------

  /** A bare name that matches one name but not another is missed in the middle of a path. */
  lemma BareNameWrong(core: string) returns (path: string)
    requires '/' !in core && !RightCore(core)
    ensures CleanPath(path) && '*' !in path
    ensures CoreMeans(core, path, false) && !CoreTaken(core, path, false)
  {
    var yes, no := TellsNamesApart(core);
    path := no + "/" + yes + "/" + no;
    hide *;
    TwoSlashes(no, yes, no);
    MissedInside(core, yes, no);
  }

  lemma MissedInside(core: string, yes: string, no: string)
    requires '/' !in core && yes != [] && '/' !in yes && no != [] && '/' !in no
    requires Matches(core, yes) && !Matches(core, no)
    ensures var path := no + "/" + yes + "/" + no;
      CoreMeans(core, path, false) && !CoreTaken(core, path, false)
  {
    var path := no + "/" + yes + "/" + no;
    hide Matches, FirstComponent, Basename, CleanPath, Component, AnyComponent, TrimEndSlashes, AtOrBelow;
    TwoSlashes(no, yes, no);
    MeantInside(core, path, |no| + 1, |no| + 1 + |yes|);
  }

  lemma MeantInside(core: string, path: string, i: int, j: int)
    requires '/' !in core && Component(path, i, j) && Matches(core, path[i..j])
    ensures AnyComponent(core, path) && CoreMeans(core, path, false)
  {
  }

  lemma TwoSlashes(a: string, b: string, c: string)
    requires a != [] && b != [] && c != [] && '/' !in a && '/' !in b && '/' !in c
    ensures var path := a + "/" + b + "/" + c;
      && CleanPath(path) && FirstComponent(path) == a && Basename(path) == c
      && |path| == |a| + |b| + |c| + 2
      && Component(path, |a| + 1, |a| + 1 + |b|) && path[|a| + 1..|a| + 1 + |b|] == b
  {
    hide FirstComponent, Basename;
    var path := a + "/" + b + "/" + c;
    MiddleComponent(a, b, c);
    assert CleanPath(a) && CleanPath(b) && CleanPath(c);
    hide CleanPath, Component;
    SlashBetween(a, b);
    SlashBetween(a + "/" + b, c);
    LastName(path, c);
    FirstName(path, a);
  }

  lemma MiddleComponent(a: string, b: string, c: string)
    requires '/' !in b
    ensures var path := a + "/" + b + "/" + c;
      && |path| == |a| + |b| + |c| + 2
      && path[|a| + 1..|a| + 1 + |b|] == b && Component(path, |a| + 1, |a| + 1 + |b|)
      && a <= path && path[|a|] == '/' && path[|path| - |c|..] == c && path[|path| - |c| - 1] == '/'
  {
  }

  lemma CleanJoined(a: string, b: string)
    requires (a == [] || CleanPath(a)) && CleanPath(b)
    ensures CleanPath(a + b)
  {
    var path := a + b;
    assert forall k | 0 <= k < |a| :: path[k] == a[k];
    assert forall k | |a| <= k < |path| :: path[k] == b[k - |a|];
  }

  /** A pattern without stars takes directories for it whose names are longer. */
  lemma DirectoryWrong(n: nat, core: string) returns (path: string)
    requires '/' in core && '*' !in core && !RightCore(core)
    ensures CleanPath(path) && '*' !in path
    ensures PatternTaken(n, core, path, true) && !PatternMeans(n, core, path, true)
  {
    var dir, tail := TrimEndSlashes(core), seq(|core| + 1, _ => 'x');
    path := dir + tail;
    assert path[|dir|] == 'x';
    assert CleanPath(tail);
    CleanJoined(dir, tail);
    assert Overreaches(core, path, true);
    OverreachIsTaken(n, core, path);
    hide TrimEndSlashes, Matches, CleanPath, Overreaches, CoreTaken, CoreMeans, PatternTaken;
    TrimmedSlashes(core);
    forall i | ComponentStart(path, i) ensures !CoreMeans(core, path[i..], true) {
      TailDecides(core, dir, path, i);
    }
  }

  lemma OverreachIsTaken(n: nat, core: string, path: string)
    requires Overreaches(core, path, true)
    ensures PatternTaken(n, core, path, true)
  {
    hide Overreaches;
    assert path[0..] == path && ComponentStart(path, 0) && CoreTaken(core, path[0..], true);
  }

  /** No component-aligned end of the path is at or below the directory: it would have to end in
      the tail. */
  lemma TailDecides(core: string, dir: string, path: string, i: int)
    requires '/' in core && '*' !in core && dir == TrimEndSlashes(core)
    requires |path| > |dir| + |core| && forall k | |dir| <= k < |path| :: path[k] == 'x'
    requires ComponentStart(path, i)
    ensures !CoreMeans(core, path[i..], true)
  {
    assert i <= |dir|;
    assert forall c <- dir :: c in core;
    hide TrimEndSlashes;
    var rest := path[i..];
    if Matches(core, rest) {
      StarFreeLength(core, rest);
    }
    if k :| ComponentEnd(rest, k) && Matches(dir, rest[..k]) {
      StarFreeLength(dir, rest[..k]);
    }
  }

  /** The text that has one letter for each star of the pattern. */
  function Fill(p: string): string {
    seq(|p|, k requires 0 <= k < |p| => if p[k] == '*' then 'x' else p[k])
  }

  lemma {:induction false} FillMatches(p: string)
    ensures Matches(p, Fill(p))
  {
    var t := Fill(p);
    Whole(p, t);
    assert p[|p|..] == [] && t[|t|..] == [];
    assert At(p, t, |p|, |p|);
    FillMatchesFrom(p, 0);
  }

  lemma {:induction false} FillMatchesFrom(p: string, i: nat)
    requires i <= |p|
    ensures At(p, Fill(p), i, i)
    decreases |p| - i
  {
    var t := Fill(p);
    if i == |p| {
      assert p[i..] == [] && t[i..] == [];
    } else {
      FillMatchesFrom(p, i + 1);
      if p[i] == '*' {
        AtStar(p, t, i, i);
        assert Matches(p[i + 1..], t[i + 1..]);
      } else {
        AtStep(p, t, i, i);
      }
    }
  }

  /** A name of letters other than the given one. */
  function Unlike(c: char, n: nat): (r: string)
    ensures |r| == n && c !in r && '/' !in r && '*' !in r
    ensures n > 0 ==> CleanPath(r)
  {
    seq(n, _ => if c == 'x' then 'y' else 'x')
  }

  /** A pattern with stars and a slash is missed below a directory it matches, unless its end is open. */
  lemma StarredWrong(n: nat, core: string) returns (path: string)
    requires '/' in core && '*' in core && !RightCore(core)
    ensures CleanPath(path) && '*' !in path
    ensures PatternMeans(n, core, path, true) && !PatternTaken(n, core, path, true)
  {
    TrimmedSlashes(core);
    var dir := TrimEndSlashes(core);
    assert CleanPath(dir) && !OpenEnded(core);
    hide TrimEndSlashes, Matches, OpenEnded, CoreTaken, RightCore, PatternMeans, CoreMeans;
    var j := LetterBehindStars(core);
    var top, tail := Fill(dir), Unlike(core[j], |core|);
    path := top + "/" + tail;
    FilledClean(dir);
    hide CleanPath, Fill, Unlike;
    SlashBetween(top, tail);
    FillMatches(dir);
    assert path[..|top|] == top;
    BelowIsMeant(n, core, path, |top|);
    forall s | ComponentStart(path, s) ensures !CoreTaken(core, path[s..], true) {
      EndDecides(core, path, s, j, tail);
    }
  }

  lemma FilledClean(dir: string)
    requires CleanPath(dir)
    ensures CleanPath(Fill(dir)) && '*' !in Fill(dir)
  {
  }

  lemma LetterBehindStars(core: string) returns (j: nat)
    requires '*' in core && !OpenEnded(core)
    ensures j < |core| && '*' !in core[j..] && core[j] != '?'
  {
    var i := LastStar(core);
    j :| i < j < |core| && core[j] != '?';
    assert forall c <- core[j..] :: c in core[i + 1..];
  }

  lemma BelowIsMeant(n: nat, core: string, path: string, k: nat)
    requires '/' in core && ComponentEnd(path, k) && Matches(TrimEndSlashes(core), path[..k])
    ensures PatternMeans(n, core, path, true)
  {
    assert AtOrBelow(TrimEndSlashes(core), path);
    assert path[0..] == path && ComponentStart(path, 0) && CoreMeans(core, path[0..], true);
  }

  lemma SlashBetween(a: string, b: string)
    requires CleanPath(a) && CleanPath(b)
    ensures CleanPath(a + "/" + b)
  {
    var path := a + "/" + b;
    assert forall k | 0 <= k < |a| :: path[k] == a[k];
    assert forall k | |a| < k < |path| :: path[k] == b[k - |a| - 1];
  }

  /** No component-aligned end of the path is taken: the letter at `j` does not fit. */
  lemma EndDecides(core: string, path: string, s: int, j: nat, tail: string)
    requires '/' in core && '*' in core && j < |core| && '*' !in core[j..] && core[j] != '?'
    requires |tail| == |core| < |path| && path[|path| - |tail|..] == tail && core[j] !in tail && '/' !in tail
    requires ComponentStart(path, s) && '*' !in path
    ensures !CoreTaken(core, path[s..], true)
  {
    TrimmedSlashes(core);
    var rest := path[s..];
    assert forall k | |path| - |tail| <= k < |path| :: path[k] == tail[k - (|path| - |tail|)];
    assert s <= |path| - |tail|;
    assert forall c <- rest :: c in path;
    StarredPrefix(TrimEndSlashes(core), rest);
    hide TrimEndSlashes;
    if Matches(core, rest) {
      EndFits(core, rest, j);
    }
  }

  /** A pattern is right about every clean path without stars exactly if it is a bare name behind a
      leading `**` component, or what follows these is right by itself. */
  lemma PatternRightExactly(pattern: string)
    ensures var (n, core) := SplitPattern(pattern);
      (forall path, isDir | CleanPath(path) && '*' !in path ::
         GlobMatch(pattern, path, isDir) <==> PatternMeans(n, core, path, isDir))
      <==> RightCore(core) || (n > 0 && '/' !in core)
  {
    var (n, core) := SplitPattern(pattern);
    hide GlobMatch, SplitPattern, RightCore, CleanPath, CoreMeans, CoreTaken;
    if RightCore(core) || (n > 0 && '/' !in core) {
      forall path, isDir | CleanPath(path) && '*' !in path
        ensures GlobMatch(pattern, path, isDir) <==> PatternMeans(n, core, path, isDir)
      {
        GlobMatchExact(pattern, path, isDir);
        TakenAsMeant(n, core, path, isDir);
      }
    } else {
      var path, isDir := PatternWrong(n, core);
      GlobMatchExact(pattern, path, isDir);
    }
  }

  lemma TakenAsMeant(n: nat, core: string, path: string, isDir: bool)
    requires RightCore(core) || (n > 0 && '/' !in core)
    requires CleanPath(path) && '*' !in path
    ensures PatternTaken(n, core, path, isDir) <==> PatternMeans(n, core, path, isDir)
  {
    hide RightCore, CleanPath, CoreMeans, CoreTaken;
    if RightCore(core) {
      forall i | ComponentStart(path, i)
        ensures CoreTaken(core, path[i..], isDir) <==> CoreMeans(core, path[i..], isDir)
      {
        CleanSuffix(path, i);
        assert forall c <- path[i..] :: c in path;
        CoreRight(core, path[i..], isDir);
      }
    } else {
      BareNameUnderAnyDirs(n, core, path, isDir);
    }
  }

  lemma PatternWrong(n: nat, core: string) returns (path: string, isDir: bool)
    requires !RightCore(core) && !(n > 0 && '/' !in core)
    ensures CleanPath(path) && '*' !in path
    ensures PatternTaken(n, core, path, isDir) != PatternMeans(n, core, path, isDir)
  {
    hide RightCore, CleanPath, CoreMeans, CoreTaken;
    if '/' !in core {
      isDir := false;
      path := BareNameWrong(core);
      FromTheStart(core, path, isDir);
    } else if '*' in core {
      isDir := true;
      path := StarredWrong(n, core);
    } else {
      isDir := true;
      path := DirectoryWrong(n, core);
    }
  }

  // ---------------------------------------------------------------------------
  // The smallest cases
  // ---------------------------------------------------------------------------

  /** `foo/` is taken to apply to a directory `foobar`. */
  lemma SiblingIsOverreached()
    ensures GlobMatch("foo/", "foobar", true) && !CoreMeans("foo/", "foobar", true)
  {
    var core, path := "foo/", "foobar";
    OneSlash("foo");
    assert "foo" + "/" == core;
    hide TrimEndSlashes, GlobMatch;
    CoreExact(core, path, true);
    assert path[3] == 'b' && "foo" < path;
    if Matches(core, path) {
      StarFreeLength(core, path);
    }
    if k :| ComponentEnd(path, k) && Matches("foo", path[..k]) {
      StarFreeLength("foo", path[..k]);
    }
  }

  /** `*.d/` does not apply to a directory `x.d`. */
  lemma StarredDirectoryIsMissed()
    ensures !GlobMatch("*.d/", "x.d", true) && CoreMeans("*.d/", "x.d", true)
  {
    var core, path := "*.d/", "x.d";
    hide TrimEndSlashes, GlobMatch, Matches, Fill;
    OneSlash("*.d");
    assert "*.d" + "/" == core;
    CoreExact(core, path, true);
    FillMatches("*.d");
    FillDotD();
    assert ComponentEnd(path, 3) && path[..3] == path;
    if Matches(core, path) {
      EndFits(core, path, 3);
    }
  }

  lemma FillDotD()
    ensures Fill("*.d") == "x.d" && '*' !in "*.d/"[3..] && !("*.d" <= "x.d")
    ensures !(ANY_DIRS <= "*.d/")
  {
    assert ANY_DIRS[1] != "*.d/"[1] && "*.d"[0] != "x.d"[0];
  }

  lemma OneSlash(dir: string)
    requires dir != [] && dir[|dir| - 1] != '/'
    ensures TrimEndSlashes(dir + "/") == dir && '/' in dir + "/"
  {
    assert (dir + "/")[..|dir|] == dir;
    assert TrimEndSlashes(dir) == dir;
  }

  /** `foo` does not apply to what is below `foo` in another directory. */
  lemma InnerComponentIsMissed()
    ensures !GlobMatch("foo", "a/foo/b", false) && CoreMeans("foo", "a/foo/b", false)
  {
    var core, path := "foo", "a/foo/b";
    hide GlobMatch, Matches;
    assert core[0] != ANY_DIRS[0];
    LastName(path, "b");
    FirstName(path, "a");
    CoreExact(core, path, false);
    MatchesItself(core);
    assert path[2..5] == core && Component(path, 2, 5);
    if Matches(core, "a") {
      StarFreeLength(core, "a");
    }
    if Matches(core, "b") {
      StarFreeLength(core, "b");
    }
  }
}
