/** What the walk makes of whole trees, told from the names on the way to a file and from what the
    lines are taken for: everything on the way is a directory, and only the file at its end is not. */
module WalkedTrees {
  import opened Text
  import opened Glob
  import opened PatternMeaning
  import opened IgnoreRules
  import opened BuildContext
  import opened ArchivePaths
  import opened BareNames

  /** The last line that is taken to apply to the path is not a negation. */
  ghost predicate LinesIgnore(patterns: seq<IgnorePattern>, path: string, isDir: bool) {
    exists i | 0 <= i < |patterns| ::
      && LineTaken(patterns[i].pattern, path, isDir) && !patterns[i].negated
      && forall j | i < j < |patterns| :: !LineTaken(patterns[j].pattern, path, isDir)
  }

  lemma IgnoredByLines(path: string, isDir: bool, patterns: seq<IgnorePattern>)
    requires '*' !in path
    ensures Ignored(path, isDir, patterns) <==> LinesIgnore(patterns, path, isDir)
  {
    hide Applies, LineTaken;
    forall i | 0 <= i < |patterns|
      ensures Applies(patterns[i], path, isDir) <==> LineTaken(patterns[i].pattern, path, isDir)
    {
      AppliesExact(patterns[i], path, isDir);
    }
  }

  /** Everything on the way to an entry is a directory. */
  lemma {:induction false} DirectoriesOnTheWay(parent: string, entries: seq<Entry>, at: Location, n: nat)
    requires 0 < n < |at| && Lookup(parent, entries, at).Something?
    ensures Lookup(parent, entries, at[..n]).Something? && Lookup(parent, entries, at[..n]).entry.Directory?
    decreases |at|
  {
    if n > 1 {
      var e := entries[at[0]];
      DirectoriesOnTheWay(Join(parent, e.name), e.children, at[1..], n - 1);
      assert at[..n][1..] == at[1..][..n - 1];
    }
  }

  /** The test the walk makes on the way: a directory before the end, at the end what is there. */
  lemma TestOnTheWay(context: seq<Entry>, patterns: seq<IgnorePattern>, at: Location, n: nat)
    requires 0 < n <= |at| && Lookup("", context, at).Something?
    ensures var e := Lookup("", context, at).entry;
      IgnoredAt("", context, at[..n], patterns)
      <==> Ignored(Normalize(PathOf(context, at, n)),
                   n < |at| || e.Directory? || (e.Unreadable? && e.directory), patterns)
  {
    hide Ignored, Normalize;
    NamesOnTheWay("", context, at, n);
    if n < |at| {
      DirectoriesOnTheWay("", context, at, n);
    } else {
      assert at[..n] == at;
    }
  }

  /** A file is in the archive exactly if the lines ignore neither its path nor that of a directory
      on the way to it. */
  lemma KeptByLines(context: seq<Entry>, patterns: seq<IgnorePattern>, at: Location)
    requires at != [] && Lookup("", context, at).Something? && Lookup("", context, at).entry.File?
    requires StarFreeWay(context, at)
    ensures Kept(at, MemberAt("", context, at)) in Keep("", context, patterns)
       <==> forall n | 0 < n <= |at| :: !LinesIgnore(patterns, Normalize(PathOf(context, at, n)), n < |at|)
  {
    hide Keep, IgnoredAt, LinesIgnore, Normalize, PathOf, Ignored;
    KeepExact("", context, patterns, at, MemberAt("", context, at));
    forall n | 0 < n <= |at|
      ensures IgnoredAt("", context, at[..n], patterns)
         <==> LinesIgnore(patterns, Normalize(PathOf(context, at, n)), n < |at|)
    {
      TestOnTheWay(context, patterns, at, n);
      IgnoredByLines(Normalize(PathOf(context, at, n)), n < |at|, patterns);
    }
  }

  // ---------------------------------------------------------------------------
  // A directory line
  // ---------------------------------------------------------------------------

  lemma {:induction false} JoinedClean(names: seq<string>)
    requires names != [] && AllPlain(names)
    ensures CleanPath(JoinPieces(names, '/'))
    decreases |names|
  {
    hide PlainName;
    var n := |names| - 1;
    NameClean(names[n]);
    if n > 0 {
      JoinedClean(names[..n]);
      SlashBetween(JoinPieces(names[..n], '/'), names[n]);
    }
  }

  lemma NameClean(name: string)
    requires PlainName(name)
    ensures CleanPath(name)
  {
  }

  lemma PathClean(context: seq<Entry>, at: Location)
    requires at != [] && Lookup("", context, at).Something? && Named(context, {})
    ensures CleanPath(Normalize(PathAt("", context, at)))
  {
    hide Named, Normalize, NamesAt, PathAt, Lookup, Pieces, CleanPath;
    PiecesAreNames(context, at);
    NamesAreFrom("", context, at, {});
    PiecesJoin(Normalize(PathAt("", context, at)), '/');
    JoinedClean(NamesAt("", context, at));
  }

  /** A line that ends in a slash applies to the directories whose path begins with it. */
  lemma DirectoryLineApplies(dir: string, path: string, isDir: bool)
    requires CleanPath(dir) && '*' !in dir && CleanPath(path)
    ensures Applies(IgnorePattern(dir + "/", false), path, isDir) <==> isDir && dir <= path
  {
    var core := dir + "/";
    assert core[0] == dir[0] && core[|core| - 1] == '/';
    assert TrimStartSlashes(core) == core;
    assert core[0] != ANY_DIRS[0];
    OneSlash(dir);
    SimpleGlobSound(core, path);
    hide SimpleGlob, Matches, TrimEndSlashes;
    if Matches(core, path) {
      CleanMatched(core, path);
    }
  }

  /** Under a single line for a directory, a file is in the archive exactly if no directory on the way
      to it has a path that begins with the line. */
  lemma DirectoryLineExact(context: seq<Entry>, dir: string, at: Location)
    requires at != [] && Lookup("", context, at).Something? && Lookup("", context, at).entry.File?
    requires Named(context, {}) && CleanPath(dir) && '*' !in dir
    ensures Kept(at, MemberAt("", context, at)) in Keep("", context, [IgnorePattern(dir + "/", false)])
       <==> forall n | 0 < n < |at| :: !(dir <= Normalize(PathOf(context, at, n)))
  {
    var patterns := [IgnorePattern(dir + "/", false)];
    hide Keep, IgnoredAt, Normalize, Named, Applies, CleanPath;
    KeepExact("", context, patterns, at, MemberAt("", context, at));
    forall n | 0 < n <= |at|
      ensures IgnoredAt("", context, at[..n], patterns) <==> n < |at| && dir <= Normalize(PathOf(context, at, n))
    {
      NamesOnTheWay("", context, at, n);
      TestOnTheWay(context, patterns, at, n);
      PathClean(context, at[..n]);
      DirectoryLineApplies(dir, Normalize(PathOf(context, at, n)), n < |at|);
    }
  }

  // ---------------------------------------------------------------------------
  // What cannot be read
  // ---------------------------------------------------------------------------

  /** What cannot be read is passed over exactly if it, or a directory above it, is ignored. */
  lemma {:induction false} ReadableMeans(parent: string, entries: seq<Entry>, patterns: seq<IgnorePattern>)
    ensures Readable(parent, entries, patterns) <==>
      forall at | at != [] && Lookup(parent, entries, at).Something? && Lookup(parent, entries, at).entry.Unreadable? ::
        exists n | 0 < n <= |at| :: IgnoredAt(parent, entries, at[..n], patterns)
    decreases entries, 1
  {
    hide Pruned;
    forall i | 0 <= i < |entries|
      ensures ReadableEntry(parent, entries[i], patterns) <==> PassedOver(parent, entries, patterns, i)
    {
      EntryMeans(parent, entries, patterns, i);
    }
  }

  /** All that cannot be read in this entry is passed over. */
  ghost predicate PassedOver(parent: string, entries: seq<Entry>, patterns: seq<IgnorePattern>, i: nat) {
    forall at | at != [] && at[0] == i && Lookup(parent, entries, at).Something?
                && Lookup(parent, entries, at).entry.Unreadable? ::
      exists n | 0 < n <= |at| :: IgnoredAt(parent, entries, at[..n], patterns)
  }

  lemma {:induction false} EntryMeans(parent: string, entries: seq<Entry>, patterns: seq<IgnorePattern>, i: nat)
    requires i < |entries|
    ensures ReadableEntry(parent, entries[i], patterns) <==> PassedOver(parent, entries, patterns, i)
    decreases entries, 0
  {
    hide Pruned;
    var e := entries[i];
    assert IgnoredAt(parent, entries, [i], patterns) == Pruned(parent, e, patterns);
    if Pruned(parent, e, patterns) {
      forall at: Location | at != [] && at[0] == i ensures at[..1] == [i] {
      }
    } else {
      match e
      case File(_, _) =>
      case Unreadable(_, _) =>
        assert Lookup(parent, entries, [i]).entry.Unreadable? && [i][..1] == [i];
        assert forall n | 0 < n <= |[i]| :: [i][..n] == [i];
      case Directory(name, children) =>
        ReadableMeans(Join(parent, name), children, patterns);
        DirectoryMeans(parent, entries, patterns, i);
    }
  }

  lemma DirectoryMeans(parent: string, entries: seq<Entry>, patterns: seq<IgnorePattern>, i: nat)
    requires i < |entries| && entries[i].Directory? && !Pruned(parent, entries[i], patterns)
    ensures var e := entries[i];
      PassedOver(parent, entries, patterns, i) <==>
        forall at | at != [] && Lookup(Join(parent, e.name), e.children, at).Something?
                    && Lookup(Join(parent, e.name), e.children, at).entry.Unreadable? ::
          exists n | 0 < n <= |at| :: IgnoredAt(Join(parent, e.name), e.children, at[..n], patterns)
  {
    hide Pruned;
    var e := entries[i];
    var child := Join(parent, e.name);
    forall at: Location | at != []
      ensures Lookup(parent, entries, [i] + at) == Lookup(child, e.children, at)
      ensures (exists n | 0 < n <= |[i] + at| :: IgnoredAt(parent, entries, ([i] + at)[..n], patterns))
         <==> exists n | 0 < n <= |at| :: IgnoredAt(child, e.children, at[..n], patterns)
    {
      BelowMeans(parent, entries, patterns, i, at);
    }
    forall at: Location | at != [] && at[0] == i && |at| > 1 ensures at == [i] + at[1..] {
    }
    forall at: Location | at != [] && at[0] == i && |at| == 1 ensures at == [i] {
    }
  }

  lemma BelowMeans(parent: string, entries: seq<Entry>, patterns: seq<IgnorePattern>, i: nat, at: Location)
    requires i < |entries| && entries[i].Directory? && !Pruned(parent, entries[i], patterns) && at != []
    ensures var e := entries[i];
      && Lookup(parent, entries, [i] + at) == Lookup(Join(parent, e.name), e.children, at)
      && ((exists n | 0 < n <= |[i] + at| :: IgnoredAt(parent, entries, ([i] + at)[..n], patterns))
          <==> exists n | 0 < n <= |at| :: IgnoredAt(Join(parent, e.name), e.children, at[..n], patterns))
  {
    hide Pruned;
    var e, all := entries[i], [i] + at;
    assert all[1..] == at;
    forall n | 0 < n <= |at|
      ensures IgnoredAt(parent, entries, all[..n + 1], patterns)
         <==> IgnoredAt(Join(parent, e.name), e.children, at[..n], patterns)
    {
      assert all[..n + 1][1..] == at[..n];
    }
    assert all[..1] == [i];
    if n :| 0 < n <= |at| && IgnoredAt(Join(parent, e.name), e.children, at[..n], patterns) {
      assert IgnoredAt(parent, entries, all[..n + 1], patterns);
    }
    if n :| 0 < n <= |all| && IgnoredAt(parent, entries, all[..n], patterns) {
      assert n > 1;
      assert IgnoredAt(Join(parent, e.name), e.children, at[..n - 1], patterns);
    }
  }

  /** The walk of a context gets through exactly if everything that cannot be read is ignored, or in a
      directory that is. */
  lemma ReadableExact(context: seq<Entry>, patterns: seq<IgnorePattern>)
    ensures Readable("", context, patterns) <==>
      forall at | at != [] && Lookup("", context, at).Something? && Lookup("", context, at).entry.Unreadable? ::
        exists n | 0 < n <= |at| ::
          Ignored(Normalize(PathOf(context, at, n)), n < |at| || Lookup("", context, at).entry.directory, patterns)
  {
    hide Readable, IgnoredAt, Ignored, Normalize, PathOf;
    ReadableMeans("", context, patterns);
    forall at, n | 0 < n <= |at| && Lookup("", context, at).Something? && Lookup("", context, at).entry.Unreadable?
      ensures IgnoredAt("", context, at[..n], patterns)
         <==> Ignored(Normalize(PathOf(context, at, n)), n < |at| || Lookup("", context, at).entry.directory, patterns)
    {
      TestOnTheWay(context, patterns, at, n);
    }
  }
}
