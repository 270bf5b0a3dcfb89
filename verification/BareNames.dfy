/** Bare names against whole trees.  A bare name misses what is below a directory of that name inside
    a path, but the walk has pruned that directory before: without negations, a list of bare names
    keeps exactly the files it is meant to keep. */
module BareNames {
  import opened Text
  import opened Glob
  import opened PatternMeaning
  import opened IgnoreRules
  import opened BuildContext
  import opened ArchivePaths

  // ---------------------------------------------------------------------------
  // Components and pieces
  // ---------------------------------------------------------------------------

  function Before(parts: seq<string>, k: nat): string
    requires k <= |parts|
  {
    if k == 0 then [] else JoinPieces(parts[..k], '/') + "/"
  }

  function After(parts: seq<string>, k: nat): string
    requires k < |parts|
  {
    if k == |parts| - 1 then [] else "/" + JoinPieces(parts[k + 1..], '/')
  }

  /** A piece in its place. */
  lemma {:induction false} JoinAround(parts: seq<string>, k: nat)
    requires k < |parts|
    ensures JoinPieces(parts, '/') == Before(parts, k) + parts[k] + After(parts, k)
    decreases |parts|
  {
    var n := |parts| - 1;
    if k == n {
      if n == 0 {
        assert Before(parts, 0) + parts[0] + After(parts, 0) == parts[0];
      } else {
        assert Before(parts, n) + parts[n] + After(parts, n) == Before(parts, n) + parts[n];
      }
    } else {
      var front, last := parts[..n], parts[n];
      JoinAround(front, k);
      assert front[..k] == parts[..k];
      assert Before(front, k) == Before(parts, k) && front[k] == parts[k];
      AfterGrows(parts, k);
      var b, p, a := Before(parts, k), parts[k], After(front, k);
      assert JoinPieces(parts, '/') == JoinPieces(front, '/') + ['/'] + last;
      assert (b + p + a) + ['/'] + last == b + p + (a + ['/'] + last);
    }
  }

  lemma AfterGrows(parts: seq<string>, k: nat)
    requires k < |parts| - 1
    ensures After(parts, k) == After(parts[..|parts| - 1], k) + ['/'] + parts[|parts| - 1]
  {
    var n := |parts| - 1;
    var rest := parts[k + 1..];
    assert rest[|rest| - 1] == parts[n] && rest[..|rest| - 1] == parts[..n][k + 1..];
    if k == n - 1 {
      assert rest == [parts[n]];
      assert [] + ['/'] + parts[n] == "/" + parts[n];
    } else {
      var joined := JoinPieces(rest[..|rest| - 1], '/');
      assert JoinPieces(rest, '/') == joined + ['/'] + parts[n];
      hide JoinPieces;
      Assoc("/", joined + ['/'], parts[n]);
      Assoc("/", joined, ['/']);
    }
  }

  /** Every piece of a path is a component. */
  lemma PieceIsComponent(path: string, k: nat)
    requires k < |Pieces(path, '/')|
    ensures var parts := Pieces(path, '/');
      var i := |Before(parts, k)|;
      Component(path, i, i + |parts[k]|) && path[i..i + |parts[k]|] == parts[k]
    ensures k == 0 ==> |Before(Pieces(path, '/'), k)| == 0
    ensures var parts := Pieces(path, '/');
      k == |parts| - 1 ==> |Before(parts, k)| + |parts[k]| == |path|
  {
    var parts := Pieces(path, '/');
    PiecesJoin(path, '/');
    hide Pieces;
    JoinAround(parts, k);
    var b, p, a := Before(parts, k), parts[k], After(parts, k);
    assert path == b + p + a;
    assert b != [] ==> b[|b| - 1] == '/';
    assert a != [] ==> a[0] == '/';
    hide Before, After, JoinPieces;
  }

  /** Every component of a path is a piece. */
  lemma ComponentIsPiece(path: string, i: int, j: int)
    requires Component(path, i, j)
    ensures path[i..j] in Pieces(path, '/')
  {
    var w, rest := path[i..j], path[i..];
    assert rest[..|w|] == w;
    assert Component(rest, 0, |w|);
    hide Pieces, Component;
    BeginsWithPiece(rest, |w|);
    if i > 0 {
      assert path == path[..i - 1] + ['/'] + rest;
      PiecesBetween(path[..i - 1], rest, '/');
      hide *;
      assert w in Pieces(path[..i - 1], '/') + Pieces(rest, '/');
    } else {
      assert path == rest;
    }
  }

  lemma BeginsWithPiece(path: string, j: nat)
    requires Component(path, 0, j)
    ensures path[..j] in Pieces(path, '/')
  {
    var w := path[..j];
    assert w == path[0..j];
    OnePart(w);
    hide Pieces;
    if j < |path| {
      assert path == w + ['/'] + path[j + 1..];
      PiecesBetween(w, path[j + 1..], '/');
      assert Pieces(path, '/')[0] == w;
    } else {
      assert path == w;
    }
  }

  lemma OnePart(s: string)
    requires '/' !in s
    ensures Pieces(s, '/') == [s]
  {
    PiecesUnique([s], '/');
  }

  lemma LastIs(path: string, i: int)
    requires Component(path, i, |path|)
    ensures Basename(path) == path[i..|path|]
  {
    hide Basename;
    assert path[i..|path|] == path[i..];
    if i > 0 {
      LastName(path, path[i..]);
    } else {
      assert path[0..] == path;
      OnlyName(path);
    }
  }

  lemma OnlyName(path: string)
    requires '/' !in path
    ensures Basename(path) == path
  {
    hide Basename;
    assert |Basename(path)| == |path|;
  }

  lemma EndPieces(path: string)
    ensures var parts := Pieces(path, '/');
      FirstComponent(path) == parts[0] && Basename(path) == parts[|parts| - 1]
  {
    var parts := Pieces(path, '/');
    hide Pieces, Before, FirstComponent, Basename, Component;
    PieceIsComponent(path, 0);
    FirstIs(path, |parts[0]|);
    PieceIsComponent(path, |parts| - 1);
    LastIs(path, |Before(parts, |parts| - 1)|);
  }

  /** A bare name means the paths one of whose pieces it matches. */
  lemma MeansSomePiece(name: string, path: string)
    ensures AnyComponent(name, path) <==> exists k | 0 <= k < |Pieces(path, '/')| :: Matches(name, Pieces(path, '/')[k])
  {
    var parts := Pieces(path, '/');
    hide Pieces, Before, Matches;
    if i, j :| Component(path, i, j) && Matches(name, path[i..j]) {
      ComponentIsPiece(path, i, j);
    }
    if k :| 0 <= k < |parts| && Matches(name, parts[k]) {
      PieceIsComponent(path, k);
    }
  }

  // ---------------------------------------------------------------------------
  // Lists of bare names
  // ---------------------------------------------------------------------------

  /** Bare names without negations. */
  predicate OnlyBareNames(patterns: seq<IgnorePattern>) {
    forall i | 0 <= i < |patterns| :: '/' !in patterns[i].pattern && !patterns[i].negated
  }

  /** Some line matches this name. */
  ghost predicate SomeMatches(patterns: seq<IgnorePattern>, name: string) {
    exists i | 0 <= i < |patterns| :: Matches(patterns[i].pattern, name)
  }

  lemma BareApplies(pat: IgnorePattern, path: string, isDir: bool)
    requires '/' !in pat.pattern && '*' !in path
    ensures var parts := Pieces(path, '/');
      && (Applies(pat, path, isDir) <==> Matches(pat.pattern, parts[0]) || Matches(pat.pattern, parts[|parts| - 1]))
      && (LineMeans(pat.pattern, path, isDir) <==>
            exists k | 0 <= k < |parts| :: Matches(pat.pattern, parts[k]))
  {
    assert TrimStartSlashes(pat.pattern) == pat.pattern;
    hide Pieces, Matches, TrimStartSlashes;
    EndPieces(path);
    MeansSomePiece(pat.pattern, path);
    BareName(pat.pattern);
    AppliesExact(pat, path, isDir);
    FromTheStart(pat.pattern, path, isDir);
    BareNameTaken(pat.pattern, path, isDir);
    hide PatternTaken, PatternMeans, CoreTaken, AnyComponent, SplitPattern, FirstComponent, Basename, Applies;
  }

  /** Without negations a path is ignored if any line applies. */
  lemma {:induction false} IgnoredByAny(path: string, isDir: bool, patterns: seq<IgnorePattern>, n: nat)
    requires n <= |patterns| && OnlyBareNames(patterns)
    requires forall j | n <= j < |patterns| :: !Applies(patterns[j], path, isDir)
    ensures Ignored(path, isDir, patterns) <==> exists i | 0 <= i < n :: Applies(patterns[i], path, isDir)
    decreases n
  {
    hide Applies;
    if n > 0 && !Applies(patterns[n - 1], path, isDir) {
      IgnoredByAny(path, isDir, patterns, n - 1);
    }
  }

  lemma BareIgnored(path: string, isDir: bool, patterns: seq<IgnorePattern>)
    requires OnlyBareNames(patterns) && '*' !in path
    ensures var parts := Pieces(path, '/');
      Ignored(path, isDir, patterns) <==>
        SomeMatches(patterns, parts[0]) || SomeMatches(patterns, parts[|parts| - 1])
  {
    hide Pieces, Matches, Applies, Ignored;
    IgnoredByAny(path, isDir, patterns, |patterns|);
    forall i | 0 <= i < |patterns|
      ensures var parts := Pieces(path, '/');
        Applies(patterns[i], path, isDir) <==>
          Matches(patterns[i].pattern, parts[0]) || Matches(patterns[i].pattern, parts[|parts| - 1])
    {
      BareApplies(patterns[i], path, isDir);
    }
  }

  // ---------------------------------------------------------------------------
  // Whole trees
  // ---------------------------------------------------------------------------

  lemma {:induction false} NamesOnTheWay(parent: string, entries: seq<Entry>, at: Location, n: nat)
    requires 0 < n <= |at| && Lookup(parent, entries, at).Something?
    ensures Lookup(parent, entries, at[..n]).Something?
    ensures |NamesAt(parent, entries, at)| == |at|
    ensures NamesAt(parent, entries, at[..n]) == NamesAt(parent, entries, at)[..n]
    decreases |at|
  {
    var e := entries[at[0]];
    if |at| > 1 {
      var child := Join(parent, e.name);
      NamesOnTheWay(child, e.children, at[1..], if n > 1 then n - 1 else 1);
      if n > 1 {
        assert at[..n][1..] == at[1..][..n - 1];
      }
    } else {
      assert at[..n] == at;
    }
  }

  /** The path of the entry on the way after `n` names. */
  function PathOf(context: seq<Entry>, at: Location, n: nat): string
    requires 0 < n <= |at| && Lookup("", context, at).Something?
  {
    NamesOnTheWay("", context, at, n);
    PathAt("", context, at[..n])
  }

  /** With plain names the pieces of an entry's path are the names on the way to it. */
  lemma PiecesAreNames(context: seq<Entry>, at: Location)
    requires at != [] && Lookup("", context, at).Something? && Named(context, {})
    ensures Pieces(Normalize(PathAt("", context, at)), '/') == NamesAt("", context, at)
  {
    hide PlainName, NamesAt, AllParts, PathAt, Lookup, Named, Normalize, Pieces;
    PartsOfPath("", context, at, {});
    NamesAreFrom("", context, at, {});
    var names := NamesAt("", context, at);
    PlainAllParts(names);
    assert [] + names == names;
  }

  /** That entry is ignored if a line matches the first or the last of them. */
  lemma IgnoredOnTheWay(context: seq<Entry>, patterns: seq<IgnorePattern>, at: Location, n: nat)
    requires 0 < n <= |at| && Lookup("", context, at).Something? && Named(context, {})
    requires OnlyBareNames(patterns) && '*' !in Normalize(PathOf(context, at, n))
    ensures var names := NamesAt("", context, at);
      && |names| == |at|
      && (IgnoredAt("", context, at[..n], patterns) <==>
            SomeMatches(patterns, names[0]) || SomeMatches(patterns, names[n - 1]))
  {
    hide Ignored, Named, Normalize, Pieces, NamesAt, SomeMatches;
    NamesOnTheWay("", context, at, n);
    PiecesAreNames(context, at[..n]);
    var f := Lookup("", context, at[..n]);
    BareIgnored(Normalize(PathAt("", context, at[..n])), f.entry.IsDir(), patterns);
  }

  /** The path to the entry has no star in it, and neither have the paths on the way. */
  predicate StarFreeWay(context: seq<Entry>, at: Location)
    requires at != [] && Lookup("", context, at).Something?
  {
    forall n | 0 < n <= |at| :: '*' !in Normalize(PathOf(context, at, n))
  }

  /** In a tree of plain names, with bare names and no negations, a file is in the archive exactly if
      no line means its path. */
  lemma {:induction false} BareNamesExact(context: seq<Entry>, patterns: seq<IgnorePattern>, at: Location)
    requires at != [] && Lookup("", context, at).Something? && Lookup("", context, at).entry.File?
    requires Named(context, {}) && OnlyBareNames(patterns) && StarFreeWay(context, at)
    ensures Kept(at, MemberAt("", context, at)) in Keep("", context, patterns)
       <==> forall i | 0 <= i < |patterns| ::
              !LineMeans(patterns[i].pattern, Normalize(PathAt("", context, at)), false)
  {
    hide Keep, Named, LineMeans, IgnoredAt, PathAt, NamesAt, SomeMatches, Normalize, OnlyBareNames;
    KeepExact("", context, patterns, at, MemberAt("", context, at));
    var names := NamesAt("", context, at);
    NamesOnTheWay("", context, at, |at|);
    forall n | 0 < n <= |at|
      ensures IgnoredAt("", context, at[..n], patterns) <==>
        SomeMatches(patterns, names[0]) || SomeMatches(patterns, names[n - 1])
    {
      IgnoredOnTheWay(context, patterns, at, n);
    }
    MeantSomewhere(context, patterns, at);
    assert (exists n | 0 < n <= |at| :: IgnoredAt("", context, at[..n], patterns))
      <==> exists k | 0 <= k < |names| :: SomeMatches(patterns, names[k]) by {
      if k :| 0 <= k < |names| && SomeMatches(patterns, names[k]) {
        assert IgnoredAt("", context, at[..k + 1], patterns);
      }
    }
  }

  lemma MeantSomewhere(context: seq<Entry>, patterns: seq<IgnorePattern>, at: Location)
    requires at != [] && Lookup("", context, at).Something? && Named(context, {})
    requires OnlyBareNames(patterns) && '*' !in Normalize(PathOf(context, at, |at|))
    ensures var names := NamesAt("", context, at);
      (exists i | 0 <= i < |patterns| :: LineMeans(patterns[i].pattern, Normalize(PathAt("", context, at)), false))
      <==> exists k | 0 <= k < |names| :: SomeMatches(patterns, names[k])
  {
    assert at[..|at|] == at;
    hide Named, LineMeans, PathAt, NamesAt, Normalize, Matches, Pieces;
    PiecesAreNames(context, at);
    var path, names := Normalize(PathAt("", context, at)), NamesAt("", context, at);
    forall i | 0 <= i < |patterns|
      ensures LineMeans(patterns[i].pattern, path, false) <==>
        exists k | 0 <= k < |names| :: Matches(patterns[i].pattern, names[k])
    {
      BareApplies(patterns[i], path, false);
    }
    if i :| 0 <= i < |patterns| && LineMeans(patterns[i].pattern, path, false) {
      var k :| 0 <= k < |names| && Matches(patterns[i].pattern, names[k]);
      assert SomeMatches(patterns, names[k]);
    }
    if k :| 0 <= k < |names| && SomeMatches(patterns, names[k]) {
      var i :| 0 <= i < |patterns| && Matches(patterns[i].pattern, names[k]);
      assert LineMeans(patterns[i].pattern, path, false);
    }
  }
}
