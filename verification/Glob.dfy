/** The `.dockerignore` pattern matcher: an iterative matcher for `*` and `?` that remembers
    only the last star it passed, under a recursive layer for leading `**` components.

    The iterative matcher compares characters before it looks for a star, so a star in the
    pattern consumes a star in the text as an ordinary character.  It is therefore always
    sound, and complete exactly when stars cannot meet in this way. */
module Glob {

  // ---------------------------------------------------------------------------
  // What a pattern means
  // ---------------------------------------------------------------------------

  /** A pattern character other than a star accepts this text character. */
  predicate Fits(p: char, t: char) {
    p == '?' || p == t
  }

  /** `?` stands for one character and `*` for any sequence of characters. */
  ghost predicate Matches(p: string, t: string)
    decreases |p|
  {
    if p == [] then t == []
    else if p[0] == '*' then exists k | 0 <= k <= |t| :: Matches(p[1..], t[k..])
    else t != [] && Fits(p[0], t[0]) && Matches(p[1..], t[1..])
  }

  /** The rest of the pattern from `i` matches the rest of the text from `j`. */
  ghost predicate At(p: string, t: string, i: nat, j: nat)
    requires i <= |p| && j <= |t|
  {
    Matches(p[i..], t[j..])
  }

  lemma AtStep(p: string, t: string, i: nat, j: nat)
    requires i < |p| && j <= |t| && p[i] != '*'
    ensures At(p, t, i, j) <==> j < |t| && Fits(p[i], t[j]) && At(p, t, i + 1, j + 1)
  {
    assert p[i..][1..] == p[i + 1..];
    if j < |t| {
      assert t[j..][1..] == t[j + 1..];
    }
  }

  lemma AtStar(p: string, t: string, i: nat, j: nat)
    requires i < |p| && j <= |t| && p[i] == '*'
    ensures At(p, t, i, j) <==> exists k | j <= k <= |t| :: Matches(p[i + 1..], t[k..])
  {
    assert p[i..][1..] == p[i + 1..];
    if At(p, t, i, j) {
      var k :| 0 <= k <= |t[j..]| && Matches(p[i..][1..], t[j..][k..]);
      assert t[j..][k..] == t[j + k..];
      assert At(p, t, i + 1, j + k);
    }
    if k :| j <= k <= |t| && Matches(p[i + 1..], t[k..]) {
      assert t[j..][k - j..] == t[k..];
    }
  }

  /** A star that is passed later in the text could have been passed earlier. */
  lemma AtStarEarlier(p: string, t: string, i: nat, j: nat, j': nat)
    requires i < |p| && j <= j' <= |t| && p[i] == '*'
    requires At(p, t, i, j')
    ensures At(p, t, i, j)
  {
    AtStar(p, t, i, j);
    AtStar(p, t, i, j');
  }

  /** The next `n` characters of the pattern fit those of the text one by one. */
  ghost predicate Literal(p: string, t: string, i: nat, j: nat, n: nat)
    requires i + n <= |p| && j + n <= |t|
  {
    forall k | i <= k < i + n :: Fits(p[k], t[k - i + j])
  }

  /** Characters that fit can be put in front of a match, stars included. */
  lemma {:induction false} LiteralFront(p: string, t: string, i: nat, j: nat, n: nat)
    requires i + n <= |p| && j + n <= |t|
    requires Literal(p, t, i, j, n)
    requires At(p, t, i + n, j + n)
    ensures At(p, t, i, j)
    decreases n
  {
    if n > 0 {
      LiteralFront(p, t, i + 1, j + 1, n - 1);
      if p[i] == '*' {
        AtStar(p, t, i, j);
      } else {
        AtStep(p, t, i, j);
      }
    }
  }

  /** A star-free stretch of the pattern consumes exactly its own length. */
  lemma {:induction false} StarFreeStretch(p: string, t: string, i: nat, j: nat, i': nat)
    requires i <= i' <= |p| && j <= |t|
    requires '*' !in p[i..i']
    requires At(p, t, i, j)
    ensures j + (i' - i) <= |t| && At(p, t, i', j + (i' - i))
    decreases i' - i
  {
    if i < i' {
      assert p[i] == p[i..i'][0];
      AtStep(p, t, i, j);
      assert p[i + 1..i'] == p[i..i'][1..];
      StarFreeStretch(p, t, i + 1, j + 1, i');
    }
  }

  // ---------------------------------------------------------------------------
  // The iterative matcher
  // ---------------------------------------------------------------------------

  /** The last star passed: where it is, and up to where in the text it reaches now. */
  datatype Mark = NoStar | Star(p: nat, t: nat)

  ghost predicate Consistent(p: string, t: string, pi: nat, ti: nat, mark: Mark) {
    && pi <= |p| && ti <= |t|
    && (mark.Star? ==> mark.p < pi && mark.t <= ti && p[mark.p] == '*')
  }

  predicate AllStars(p: string) {
    forall k | 0 <= k < |p| :: p[k] == '*'
  }

  /** The answer of the matcher from the given position on. */
  function Scan(p: string, t: string, pi: nat, ti: nat, mark: Mark): bool
    requires Consistent(p, t, pi, ti, mark)
    decreases if mark.Star? then |p| - mark.p else |p| + 1, if mark.Star? then |t| - mark.t else 0, |t| - ti
  {
    if ti == |t| then AllStars(p[pi..])
    else if pi < |p| && Fits(p[pi], t[ti]) then Scan(p, t, pi + 1, ti + 1, mark)
    else if pi < |p| && p[pi] == '*' then Scan(p, t, pi + 1, ti, Star(pi, ti))
    else if mark.Star? then Scan(p, t, mark.p + 1, mark.t + 1, Star(mark.p, mark.t + 1))
    else false
  }

  function SimpleGlob(p: string, t: string): bool {
    Scan(p, t, 0, 0, NoStar)
  }

  method SimpleGlobMatch(pattern: string, text: string) returns (r: bool)
    ensures r == SimpleGlob(pattern, text)
    ensures r ==> Matches(pattern, text)
    ensures '*' !in text || '*' !in pattern ==> (r <==> Matches(pattern, text))
  {
    SimpleGlobSound(pattern, text);
    if '*' !in text || '*' !in pattern {
      SimpleGlobComplete(pattern, text);
    }
    var mark := NoStar;
    var pi, ti := 0, 0;
    while ti < |text|
      invariant 0 <= pi && 0 <= ti && Consistent(pattern, text, pi, ti, mark)
      invariant Scan(pattern, text, pi, ti, mark) == SimpleGlob(pattern, text)
      decreases if mark.Star? then |pattern| - mark.p else |pattern| + 1,
                if mark.Star? then |text| - mark.t else 0,
                |text| - ti
    {
      if pi < |pattern| && Fits(pattern[pi], text[ti]) {
        pi, ti := pi + 1, ti + 1;
      } else if pi < |pattern| && pattern[pi] == '*' {
        mark := Star(pi, ti);
        pi := pi + 1;
      } else if mark.Star? {
        pi := mark.p + 1;
        mark := Star(mark.p, mark.t + 1);
        ti := mark.t;
      } else {
        return false;
      }
    }
    assert SimpleGlob(pattern, text) == AllStars(pattern[pi..]);
    while pi < |pattern| && pattern[pi] == '*'
      invariant 0 <= pi <= |pattern|
      invariant SimpleGlob(pattern, text) == AllStars(pattern[pi..])
    {
      AllStarsFrom(pattern, pi);
      pi := pi + 1;
    }
    if pi < |pattern| {
      AllStarsFrom(pattern, pi);
    }
    r := pi == |pattern|;
  }

  lemma AllStarsFrom(p: string, i: nat)
    requires i < |p|
    ensures AllStars(p[i..]) <==> p[i] == '*' && AllStars(p[i + 1..])
  {
    assert p[i..] == [p[i]] + p[i + 1..];
  }

  lemma {:induction false} AllStarsMatchNothing(p: string)
    requires AllStars(p)
    ensures Matches(p, [])
  {
    if p != [] {
      AllStarsMatchNothing(p[1..]);
      assert Matches(p[1..], [][0..]);
    }
  }

  /** From any position the matcher only says yes to what the rest of the pattern, or the
      pattern from the remembered star on, really matches. */
  lemma {:induction false} ScanSound(p: string, t: string, pi: nat, ti: nat, mark: Mark)
    requires Consistent(p, t, pi, ti, mark)
    requires Scan(p, t, pi, ti, mark)
    ensures At(p, t, pi, ti) || (mark.Star? && At(p, t, mark.p, mark.t))
    decreases if mark.Star? then |p| - mark.p else |p| + 1, if mark.Star? then |t| - mark.t else 0, |t| - ti
  {
    hide Matches;
    if ti == |t| {
      AllStarsMatchNothing(p[pi..]);
      assert t[ti..] == [];
    } else if pi < |p| && Fits(p[pi], t[ti]) {
      ScanSound(p, t, pi + 1, ti + 1, mark);
      if At(p, t, pi + 1, ti + 1) {
        LiteralFront(p, t, pi, ti, 1);
      }
    } else if pi < |p| && p[pi] == '*' {
      ScanSound(p, t, pi + 1, ti, Star(pi, ti));
      AtStar(p, t, pi, ti);
    } else {
      ScanSound(p, t, mark.p + 1, mark.t + 1, Star(mark.p, mark.t + 1));
      AtStar(p, t, mark.p, mark.t + 1);
      assert At(p, t, mark.p, mark.t + 1);
      AtStarEarlier(p, t, mark.p, mark.t, mark.t + 1);
    }
  }

  /** Since the remembered star the matcher has walked a star-free stretch in step. */
  ghost predicate InStep(p: string, pi: nat, ti: nat, mark: Mark)
    requires pi <= |p|
    requires mark.Star? ==> mark.p < pi
  {
    mark.Star? ==> ti - mark.t == pi - mark.p - 1 && '*' !in p[mark.p + 1..pi]
  }

  /** Why one star is enough: if the remembered star could still reach further and the walk now
      stands at the next star, then that next star absorbs the difference. */
  lemma EarlierStarsAreForgettable(p: string, t: string, pi: nat, ti: nat, mark: Mark)
    requires Consistent(p, t, pi, ti, mark) && InStep(p, pi, ti, mark)
    requires mark.Star? && mark.t < |t| && At(p, t, mark.p, mark.t + 1)
    ensures ti < |t|
    ensures pi < |p| && p[pi] == '*' ==> At(p, t, pi, ti)
  {
    AtStar(p, t, mark.p, mark.t + 1);
    var k :| mark.t + 1 <= k <= |t| && Matches(p[mark.p + 1..], t[k..]);
    StarFreeStretch(p, t, mark.p + 1, k, pi);
    if pi < |p| && p[pi] == '*' {
      AtStarEarlier(p, t, pi, ti, k + (pi - mark.p - 1));
    }
  }

  /** What may still lead to a match: the walk itself, or the remembered star reaching further. */
  ghost predicate Hope(p: string, t: string, pi: nat, ti: nat, mark: Mark)
    requires Consistent(p, t, pi, ti, mark)
  {
    At(p, t, pi, ti) || (mark.Star? && mark.t < |t| && At(p, t, mark.p, mark.t + 1))
  }

  /** A star either stands for nothing more or for one more character. */
  lemma AtStarSplit(p: string, t: string, i: nat, j: nat)
    requires i < |p| && j <= |t| && p[i] == '*'
    requires At(p, t, i, j)
    ensures At(p, t, i + 1, j) || (j < |t| && At(p, t, i, j + 1))
  {
    AtStar(p, t, i, j);
    var k :| j <= k <= |t| && Matches(p[i + 1..], t[k..]);
    if k > j {
      AtStar(p, t, i, j + 1);
    }
  }

  /** When no star of the pattern can meet a star of the text, the matcher misses nothing. */
  lemma {:induction false} ScanComplete(p: string, t: string, pi: nat, ti: nat, mark: Mark)
    requires Consistent(p, t, pi, ti, mark) && InStep(p, pi, ti, mark)
    requires '*' !in t || '*' !in p
    requires Hope(p, t, pi, ti, mark)
    ensures Scan(p, t, pi, ti, mark)
    decreases if mark.Star? then |p| - mark.p else |p| + 1, if mark.Star? then |t| - mark.t else 0, |t| - ti
  {
    if !At(p, t, pi, ti) {
      EarlierStarsAreForgettable(p, t, pi, ti, mark);
    }
    if ti == |t| {
      OnlyStarsMatchNothing(p[pi..], t[ti..]);
    } else if pi < |p| && Fits(p[pi], t[ti]) {
      assert p[pi] != '*' by {
        assert t[ti] in t && p[pi] in p;
      }
      AtStep(p, t, pi, ti);
      if mark.Star? {
        assert p[mark.p + 1..pi + 1] == p[mark.p + 1..pi] + [p[pi]];
      }
      ScanComplete(p, t, pi + 1, ti + 1, mark);
    } else if pi < |p| && p[pi] == '*' {
      AtStarSplit(p, t, pi, ti);
      ScanComplete(p, t, pi + 1, ti, Star(pi, ti));
    } else {
      if pi < |p| {
        AtStep(p, t, pi, ti);
      }
      AtStarSplit(p, t, mark.p, mark.t + 1);
      ScanComplete(p, t, mark.p + 1, mark.t + 1, Star(mark.p, mark.t + 1));
    }
  }

  lemma {:induction false} OnlyStarsMatchNothing(p: string, t: string)
    requires t == [] && Matches(p, t)
    ensures AllStars(p)
  {
    if p != [] {
      assert p[0] == '*';
      assert t[0..] == [];
      OnlyStarsMatchNothing(p[1..], []);
      assert p == [p[0]] + p[1..];
    }
  }

  lemma Whole(p: string, t: string)
    ensures At(p, t, 0, 0) <==> Matches(p, t)
  {
    assert p[0..] == p && t[0..] == t;
  }

  /** A yes is always right, whatever the pattern and the text contain. */
  lemma SimpleGlobSound(p: string, t: string)
    ensures SimpleGlob(p, t) ==> Matches(p, t)
  {
    Whole(p, t);
    if SimpleGlob(p, t) {
      ScanSound(p, t, 0, 0, NoStar);
    }
  }

  lemma SimpleGlobComplete(p: string, t: string)
    requires '*' !in t || '*' !in p
    ensures SimpleGlob(p, t) <==> Matches(p, t)
  {
    Whole(p, t);
    SimpleGlobSound(p, t);
    if Matches(p, t) {
      ScanComplete(p, t, 0, 0, NoStar);
    }
  }

  // ---------------------------------------------------------------------------
  // Exactly when the matcher is right
  // ---------------------------------------------------------------------------

  /** As long as the characters fit, the matcher walks on and remembers no star. */
  lemma {:induction false} ScanWalks(p: string, t: string, n: nat)
    requires n <= |p| && n <= |t|
    requires Literal(p, t, 0, 0, n)
    ensures SimpleGlob(p, t) == Scan(p, t, n, n, NoStar)
  {
    if n > 0 {
      ScanWalks(p, t, n - 1);
    }
  }

  /** The smallest disagreement: `*` matches the text `*a`, but the matcher says no. */
  lemma StarInTextIsMissed()
    ensures Matches("*", "*a") && !SimpleGlob("*", "*a")
  {
    assert Matches("*"[1..], "*a"[2..]);
    ScanWalks("*", "*a", 1);
  }

  /** A text is matched correctly by every pattern exactly when it contains no star. */
  lemma TextExact(t: string)
    ensures (forall p: string :: SimpleGlob(p, t) <==> Matches(p, t)) <==> '*' !in t
  {
    if '*' !in t {
      forall p: string ensures SimpleGlob(p, t) <==> Matches(p, t) {
        SimpleGlobComplete(p, t);
      }
    } else {
      var i :| 0 <= i < |t| && t[i] == '*';
      var p := seq(|t| + 1, k => if k == i then '*' else '?');
      ScanWalks(p, t, |t|);
      assert p[|t|..][0] == '?';
      assert !SimpleGlob(p, t);
      assert p[|p|..] == [] && t[|t|..] == [];
      assert At(p, t, |p|, |t|);
      LiteralFront(p, t, i + 1, i, |t| - i);
      AtStar(p, t, i, i);
      LiteralFront(p, t, 0, 0, i);
      Whole(p, t);
    }
  }

  /** A pattern is applied correctly to every text exactly when it contains no star. */
  lemma PatternExact(p: string)
    ensures (forall t: string :: SimpleGlob(p, t) <==> Matches(p, t)) <==> '*' !in p
  {
    if '*' !in p {
      forall t: string ensures SimpleGlob(p, t) <==> Matches(p, t) {
        SimpleGlobComplete(p, t);
      }
    } else {
      hide SimpleGlob;
      var i := LastStar(p);
      StarDoubled(p, i);
    }
  }

  /** A star-free pattern matches only texts of its own length. */
  lemma StarFreeLength(p: string, t: string)
    requires '*' !in p && Matches(p, t)
    ensures |t| == |p|
  {
    Whole(p, t);
    StarFreeStretch(p, t, 0, 0, |p|);
    assert p[|p|..] == [];
  }

  /** The text that has one more character behind the last star is matched, but missed. */
  lemma StarDoubled(p: string, i: nat)
    requires i < |p| && p[i] == '*' && '*' !in p[i + 1..]
    ensures var t := p[..i + 1] + ['a'] + p[i + 1..]; Matches(p, t) && !SimpleGlob(p, t)
  {
    hide Scan, AllStars, SimpleGlob, Matches;
    var t := p[..i + 1] + ['a'] + p[i + 1..];
    DoubledText(p, i);
    DoubledMatches(p, t, i);
    ScanWalks(p, t, i + 1);
    if SimpleGlob(p, t) {
      ScanSound(p, t, i + 1, i + 1, NoStar);
      StarFreeLength(p[i + 1..], t[i + 1..]);
      assert false;
    }
  }

  lemma DoubledText(p: string, i: nat)
    requires i < |p|
    ensures var t := p[..i + 1] + ['a'] + p[i + 1..];
      && |t| == |p| + 1
      && (forall k | 0 <= k <= i :: t[k] == p[k]) && (forall k | i < k < |p| :: t[k + 1] == p[k])
  {
  }

  lemma DoubledMatches(p: string, t: string, i: nat)
    requires i < |p| && p[i] == '*' && |t| == |p| + 1
    requires forall k | 0 <= k <= i :: t[k] == p[k]
    requires forall k | i < k < |p| :: t[k + 1] == p[k]
    ensures Matches(p, t)
  {
    assert p[|p|..] == [] && t[|t|..] == [];
    assert At(p, t, |p|, |t|);
    assert Literal(p, t, i + 1, i + 2, |p| - i - 1) && Literal(p, t, 0, 0, i);
    hide Matches, Literal;
    LiteralFront(p, t, i + 1, i + 2, |p| - i - 1);
    AtStar(p, t, i, i);
    LiteralFront(p, t, 0, 0, i);
    Whole(p, t);
  }

  lemma {:induction false} LastStar(p: string) returns (i: nat)
    requires '*' in p
    ensures i < |p| && p[i] == '*' && '*' !in p[i + 1..]
  {
    var n := |p| - 1;
    if p[n] == '*' {
      i := n;
    } else {
      assert p == p[..n] + [p[n]];
      i := LastStar(p[..n]);
      assert p[i + 1..] == p[..n][i + 1..] + [p[n]];
    }
  }

  // ---------------------------------------------------------------------------
  // Leading `**` components
  // ---------------------------------------------------------------------------

  const ANY_DIRS: string := "**/"

  /** A component of the path starts at `i` (the end of a path with a trailing slash counts). */
  predicate ComponentStart(path: string, i: int) {
    0 <= i <= |path| && (i == 0 || path[i - 1] == '/')
  }

  /** The part of the path after its last slash. */
  function Basename(path: string): (b: string)
    ensures '/' !in b
    ensures |b| <= |path| && b == path[|path| - |b|..] && ComponentStart(path, |path| - |b|)
  {
    if path == [] || path[|path| - 1] == '/' then []
    else Basename(path[..|path| - 1]) + [path[|path| - 1]]
  }

  /** The part of the path before its first slash. */
  function FirstComponent(path: string): (f: string)
    ensures '/' !in f && f <= path
    ensures f == path || path[|f|] == '/'
  {
    if path == [] || path[0] == '/' then [] else [path[0]] + FirstComponent(path[1..])
  }

  /** The pattern without its trailing slashes. */
  function TrimEndSlashes(s: string): (r: string)
    ensures r <= s && (r == [] || r[|r| - 1] != '/')
    ensures forall k | |r| <= k < |s| :: s[k] == '/'
  {
    if s != [] && s[|s| - 1] == '/' then TrimEndSlashes(s[..|s| - 1]) else s
  }

  function GlobMatch(pattern: string, path: string, isDir: bool): bool
    decreases |pattern|
  {
    if ANY_DIRS <= pattern then
      var rest := pattern[|ANY_DIRS|..];
      || GlobMatch(rest, path, isDir)
      || exists i | 0 <= i < |path| && path[i] == '/' :: GlobMatch(rest, path[i + 1..], isDir)
    else if '/' !in pattern then
      SimpleGlob(pattern, Basename(path)) || SimpleGlob(pattern, FirstComponent(path))
    else
      SimpleGlob(pattern, path) || (isDir && TrimEndSlashes(pattern) <= path)
  }

  /** `n` leading `**` components followed by `r`. */
  function Prefixed(n: nat, r: string): string {
    if n == 0 then r else ANY_DIRS + Prefixed(n - 1, r)
  }

  /** One leading `**` component means: the rest matches some component-aligned suffix. */
  lemma AnyDirsOnce(r: string, path: string, isDir: bool)
    ensures GlobMatch(ANY_DIRS + r, path, isDir)
       <==> exists i :: ComponentStart(path, i) && GlobMatch(r, path[i..], isDir)
  {
    var pattern := ANY_DIRS + r;
    assert pattern[|ANY_DIRS|..] == r;
    if GlobMatch(r, path, isDir) {
      assert path[0..] == path;
      assert ComponentStart(path, 0) && GlobMatch(r, path[0..], isDir);
    } else if i :| 0 <= i < |path| && path[i] == '/' && GlobMatch(r, path[i + 1..], isDir) {
      assert ComponentStart(path, i + 1) && GlobMatch(r, path[i + 1..], isDir);
    }
    if i :| ComponentStart(path, i) && GlobMatch(r, path[i..], isDir) {
      if i == 0 {
        assert path[i..] == path;
      } else {
        assert path[(i - 1) + 1..] == path[i..];
      }
    }
  }

  /** Any positive number of leading `**` components means just the same. */
  lemma {:induction false} AnyDirsRepeated(n: nat, r: string, path: string, isDir: bool)
    requires n > 0
    ensures GlobMatch(Prefixed(n, r), path, isDir)
       <==> exists i :: ComponentStart(path, i) && GlobMatch(r, path[i..], isDir)
  {
    hide GlobMatch;
    AnyDirsOnce(Prefixed(n - 1, r), path, isDir);
    if n > 1 {
      forall i | ComponentStart(path, i)
        ensures GlobMatch(Prefixed(n - 1, r), path[i..], isDir)
           <==> exists j :: ComponentStart(path[i..], j) && GlobMatch(r, path[i..][j..], isDir)
      {
        AnyDirsRepeated(n - 1, r, path[i..], isDir);
      }
      if i, j :| ComponentStart(path, i) && ComponentStart(path[i..], j) && GlobMatch(r, path[i..][j..], isDir) {
        assert path[i..][j..] == path[i + j..];
        assert ComponentStart(path, i + j) && GlobMatch(r, path[i + j..], isDir);
      }
      if i :| ComponentStart(path, i) && GlobMatch(r, path[i..], isDir) {
        assert path[i..][0..] == path[i..];
        assert ComponentStart(path[i..], 0) && GlobMatch(r, path[i..][0..], isDir);
      }
    }
  }

  lemma AnyDirsCollapse(r: string, path: string, isDir: bool)
    ensures GlobMatch(ANY_DIRS + ANY_DIRS + r, path, isDir) == GlobMatch(ANY_DIRS + r, path, isDir)
  {
    assert ANY_DIRS + ANY_DIRS + r == ANY_DIRS + (ANY_DIRS + r);
    assert ANY_DIRS + Prefixed(0, r) == Prefixed(1, r);
    assert ANY_DIRS + Prefixed(1, r) == Prefixed(2, r);
    AnyDirsRepeated(2, r, path, isDir);
    AnyDirsRepeated(1, r, path, isDir);
  }
}
