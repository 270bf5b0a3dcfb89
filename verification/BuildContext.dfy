/** The Docker build context: which files of a directory tree go into the archive when a list
    of `.dockerignore` patterns is applied by a walk that prunes ignored directories. */
module BuildContext {
  import opened IgnoreRules
  import opened Text

  // ---------------------------------------------------------------------------
  // The tree and the archive
  // ---------------------------------------------------------------------------

  /** What a directory holds.  `Unreadable` is an entry that cannot be opened or listed. */
  datatype Entry =
    | File(name: string, contents: string)
    | Directory(name: string, children: seq<Entry>)
    | Unreadable(name: string, directory: bool)
  {
    predicate IsDir() {
      Directory? || (Unreadable? && directory)
    }
  }

  datatype Member = Member(path: string, contents: string)

  /** The archive under construction.  Not every member can be added: `accepts` says which ones the
      archive format and its writer take. */
  class TarBuilder {
    const accepts: Member -> bool
    var members: seq<Member>

    constructor (accepts: Member -> bool)
      ensures members == [] && this.accepts == accepts
    {
      this.accepts := accepts;
      members := [];
    }

    method Append(m: Member) returns (ok: bool)
      modifies this
      ensures ok == accepts(m)
      ensures members == if ok then old(members) + [m] else old(members)
    {
      ok := accepts(m);
      if ok {
        members := members + [m];
      }
    }
  }

  predicate AllAccepted(accepts: Member -> bool, members: seq<Member>) {
    forall m <- members :: accepts(m)
  }

  function Join(parent: string, name: string): string {
    if parent == [] then name else parent + "/" + name
  }

  /** Backslashes become slashes before a path is matched or stored. */
  function Normalize(path: string): (r: string)
    ensures |r| == |path|
    ensures forall k | 0 <= k < |r| :: r[k] == if path[k] == '\\' then '/' else path[k]
  {
    seq(|path|, k requires 0 <= k < |path| => if path[k] == '\\' then '/' else path[k])
  }

  predicate Pruned(parent: string, e: Entry, patterns: seq<IgnorePattern>) {
    Ignored(Normalize(Join(parent, e.name)), e.IsDir(), patterns)
  }

  // ---------------------------------------------------------------------------
  // What the walk keeps
  // ---------------------------------------------------------------------------

  /** A place in the tree: the position to take in each directory on the way down. */
  type Location = seq<nat>

  /** A file kept by the walk, with its place in the tree. */
  datatype Kept = Kept(at: Location, member: Member)

  function Under(n: nat, kept: seq<Kept>): (r: seq<Kept>)
    ensures |r| == |kept|
    ensures forall k | 0 <= k < |r| :: r[k] == Kept([n] + kept[k].at, kept[k].member)
  {
    seq(|kept|, k requires 0 <= k < |kept| => Kept([n] + kept[k].at, kept[k].member))
  }

  function Members(kept: seq<Kept>): (r: seq<Member>)
    ensures |r| == |kept|
    ensures forall k | 0 <= k < |r| :: r[k] == kept[k].member
  {
    seq(|kept|, k requires 0 <= k < |kept| => kept[k].member)
  }

  function Keep(parent: string, entries: seq<Entry>, patterns: seq<IgnorePattern>): seq<Kept>
    decreases entries, 0
  {
    if entries == [] then []
    else
      var n := |entries| - 1;
      Keep(parent, entries[..n], patterns) + Under(n, KeepEntry(parent, entries[n], patterns))
  }

  function KeepEntry(parent: string, e: Entry, patterns: seq<IgnorePattern>): seq<Kept>
    decreases e, 1
  {
    if Pruned(parent, e, patterns) then []
    else
      match e
      case File(name, contents) => [Kept([], Member(Normalize(Join(parent, name)), contents))]
      case Directory(name, children) => Keep(Join(parent, name), children, patterns)
      case Unreadable(_, _) => []
  }

  /** No entry the walk reaches is unreadable. */
  predicate Readable(parent: string, entries: seq<Entry>, patterns: seq<IgnorePattern>)
    decreases entries, 0
  {
    forall e <- entries :: ReadableEntry(parent, e, patterns)
  }

  predicate ReadableEntry(parent: string, e: Entry, patterns: seq<IgnorePattern>)
    decreases e, 1
  {
    || Pruned(parent, e, patterns)
    || e.File?
    || (e.Directory? && Readable(Join(parent, e.name), e.children, patterns))
  }

  lemma MembersUnder(n: nat, kept: seq<Kept>)
    ensures Members(Under(n, kept)) == Members(kept)
  {
  }

  lemma MembersConcat(a: seq<Kept>, b: seq<Kept>)
    ensures Members(a + b) == Members(a) + Members(b)
  {
  }

  /** One more entry adds the members kept of it. */
  lemma MembersSnoc(parent: string, entries: seq<Entry>, n: nat, patterns: seq<IgnorePattern>)
    requires n < |entries|
    ensures Members(Keep(parent, entries[..n + 1], patterns))
         == Members(Keep(parent, entries[..n], patterns)) + Members(KeepEntry(parent, entries[n], patterns))
  {
    assert entries[..n + 1][..n] == entries[..n] && entries[..n + 1][n] == entries[n];
    MembersConcat(Keep(parent, entries[..n], patterns), Under(n, KeepEntry(parent, entries[n], patterns)));
    MembersUnder(n, KeepEntry(parent, entries[n], patterns));
  }

  lemma ReadableSnoc(parent: string, entries: seq<Entry>, n: nat, patterns: seq<IgnorePattern>)
    requires n < |entries|
    ensures Readable(parent, entries[..n + 1], patterns)
       <==> Readable(parent, entries[..n], patterns) && ReadableEntry(parent, entries[n], patterns)
    ensures !ReadableEntry(parent, entries[n], patterns) ==> !Readable(parent, entries, patterns)
  {
    assert entries[..n + 1] == entries[..n] + [entries[n]];
  }

  /** The walk: succeeds exactly when everything it reaches can be read and every file it keeps is
      accepted, and then has appended the kept files in the order of the tree. */
  method WalkAndAdd(parent: string, entries: seq<Entry>, patterns: seq<IgnorePattern>, builder: TarBuilder)
    returns (ok: bool)
    modifies builder
    ensures ok <==> && Readable(parent, entries, patterns)
                    && AllAccepted(builder.accepts, Members(Keep(parent, entries, patterns)))
    ensures ok ==> builder.members == old(builder.members) + Members(Keep(parent, entries, patterns))
    decreases entries, 0
  {
    hide Pruned, Keep, KeepEntry, ReadableEntry, AllAccepted;
    NothingYet(builder.accepts, parent, patterns);
    for n := 0 to |entries|
      invariant Readable(parent, entries[..n], patterns)
      invariant AllAccepted(builder.accepts, Members(Keep(parent, entries[..n], patterns)))
      invariant builder.members == old(builder.members) + Members(Keep(parent, entries[..n], patterns))
    {
      ReadableSnoc(parent, entries, n, patterns);
      MembersSnoc(parent, entries, n, patterns);
      AcceptedUpTo(builder.accepts, parent, entries, n, patterns);
      var added := WalkEntry(parent, entries[n], patterns, builder);
      if !added {
        return false;
      }
      Assoc(old(builder.members), Members(Keep(parent, entries[..n], patterns)),
            Members(KeepEntry(parent, entries[n], patterns)));
    }
    assert entries[..|entries|] == entries;
    ok := true;
  }

  lemma NothingYet(accepts: Member -> bool, parent: string, patterns: seq<IgnorePattern>)
    ensures Members(Keep(parent, [], patterns)) == [] && AllAccepted(accepts, [])
  {
  }

  /** One more entry is accepted if its members are, and a refused one refuses the directory. */
  lemma AcceptedUpTo(accepts: Member -> bool, parent: string, entries: seq<Entry>, n: nat,
                     patterns: seq<IgnorePattern>)
    requires n < |entries|
    ensures AllAccepted(accepts, Members(Keep(parent, entries[..n + 1], patterns)))
       <==> && AllAccepted(accepts, Members(Keep(parent, entries[..n], patterns)))
            && AllAccepted(accepts, Members(KeepEntry(parent, entries[n], patterns)))
    ensures AllAccepted(accepts, Members(Keep(parent, entries, patterns)))
        ==> AllAccepted(accepts, Members(KeepEntry(parent, entries[n], patterns)))
  {
    hide Keep, KeepEntry, Members;
    MembersSnoc(parent, entries, n, patterns);
    KeptOfBeginning(parent, entries, n + 1, patterns);
  }

  /** What is kept of a directory begins with what is kept of its first entries. */
  lemma {:induction false} KeptOfBeginning(parent: string, entries: seq<Entry>, n: nat, patterns: seq<IgnorePattern>)
    requires n <= |entries|
    ensures Members(Keep(parent, entries[..n], patterns)) <= Members(Keep(parent, entries, patterns))
    decreases |entries| - n
  {
    if n == |entries| {
      assert entries[..n] == entries;
    } else {
      hide *;
      MembersSnoc(parent, entries, n, patterns);
      KeptOfBeginning(parent, entries, n + 1, patterns);
      Beginning(Members(Keep(parent, entries[..n], patterns)), Members(KeepEntry(parent, entries[n], patterns)),
                Members(Keep(parent, entries, patterns)));
    }
  }

  /** The loop body of the walk. */
  method WalkEntry(parent: string, e: Entry, patterns: seq<IgnorePattern>, builder: TarBuilder)
    returns (ok: bool)
    modifies builder
    ensures ok <==> && ReadableEntry(parent, e, patterns)
                    && AllAccepted(builder.accepts, Members(KeepEntry(parent, e, patterns)))
    ensures ok ==> builder.members == old(builder.members) + Members(KeepEntry(parent, e, patterns))
    decreases e, 1
  {
    ok := true;
    var ignored := IsIgnored(Normalize(Join(parent, e.name)), e.IsDir(), patterns);
    if !ignored {
      match e
      case File(name, contents) =>
        ok := builder.Append(Member(Normalize(Join(parent, name)), contents));
        assert Members(KeepEntry(parent, e, patterns)) == [Member(Normalize(Join(parent, name)), contents)];
      case Directory(name, children) =>
        ok := WalkAndAdd(Join(parent, name), children, patterns, builder);
      case Unreadable(_, _) =>
        ok := false;
    }
  }

  method CreateBuildContext(context: seq<Entry>, patterns: seq<IgnorePattern>, accepts: Member -> bool)
    returns (ok: bool, members: seq<Member>)
    ensures ok <==> Readable("", context, patterns) && AllAccepted(accepts, Members(Keep("", context, patterns)))
    ensures ok ==> members == Members(Keep("", context, patterns))
  {
    var builder := new TarBuilder(accepts);
    ok := WalkAndAdd("", context, patterns, builder);
    members := builder.members;
  }

  // ---------------------------------------------------------------------------
  // The walk against the declared meaning
  // ---------------------------------------------------------------------------

  datatype Found = Nothing | Something(entry: Entry, parent: string)

  /** The entry at a place in the tree, and the path of the directory that holds it. */
  function Lookup(parent: string, entries: seq<Entry>, at: Location): Found
    requires at != []
    decreases |at|
  {
    if at[0] >= |entries| then Nothing
    else
      var e := entries[at[0]];
      if |at| == 1 then Something(e, parent)
      else if e.Directory? then Lookup(Join(parent, e.name), e.children, at[1..])
      else Nothing
  }

  /** The entry at this place exists and is itself ignored. */
  predicate IgnoredAt(parent: string, entries: seq<Entry>, at: Location, patterns: seq<IgnorePattern>)
    requires at != []
  {
    var f := Lookup(parent, entries, at);
    f.Something? && Pruned(f.parent, f.entry, patterns)
  }

  /** A file is wanted when neither it nor any directory above it is ignored. */
  ghost predicate Wanted(parent: string, entries: seq<Entry>, at: Location, patterns: seq<IgnorePattern>) {
    && at != []
    && var f := Lookup(parent, entries, at);
    && f.Something? && f.entry.File?
    && forall n | 1 <= n <= |at| :: !IgnoredAt(parent, entries, at[..n], patterns)
  }

  lemma WantedBelow(parent: string, entries: seq<Entry>, at: Location, patterns: seq<IgnorePattern>)
    requires |at| > 1 && at[0] < |entries| && entries[at[0]].Directory?
    ensures var e := entries[at[0]];
      Wanted(parent, entries, at, patterns)
      <==> !Pruned(parent, e, patterns) && Wanted(Join(parent, e.name), e.children, at[1..], patterns)
  {
    var e := entries[at[0]];
    forall n | 2 <= n <= |at|
      ensures IgnoredAt(parent, entries, at[..n], patterns)
           == IgnoredAt(Join(parent, e.name), e.children, at[1..][..n - 1], patterns)
    {
      assert at[..n][1..] == at[1..][..n - 1];
    }
    assert IgnoredAt(parent, entries, at[..1], patterns) == Pruned(parent, e, patterns);
    if Wanted(parent, entries, at, patterns) {
      forall m | 1 <= m <= |at[1..]|
        ensures !IgnoredAt(Join(parent, e.name), e.children, at[1..][..m], patterns)
      {
        assert !IgnoredAt(parent, entries, at[..m + 1], patterns);
      }
    }
  }

  /** What the archive is to hold for a wanted file. */
  function MemberAt(parent: string, entries: seq<Entry>, at: Location): Member
    requires at != [] && Lookup(parent, entries, at).Something? && Lookup(parent, entries, at).entry.File?
  {
    var f := Lookup(parent, entries, at);
    Member(Normalize(Join(f.parent, f.entry.name)), f.entry.contents)
  }

  lemma InUnder(n: nat, kept: seq<Kept>, at: Location, m: Member)
    ensures Kept(at, m) in Under(n, kept) <==> at != [] && at[0] == n && Kept(at[1..], m) in kept
  {
    var under := Under(n, kept);
    if Kept(at, m) in under {
      var k :| 0 <= k < |under| && under[k] == Kept(at, m);
      assert ([n] + kept[k].at)[1..] == kept[k].at;
    }
    if at != [] && at[0] == n && Kept(at[1..], m) in kept {
      var k :| 0 <= k < |kept| && kept[k] == Kept(at[1..], m);
      assert [n] + at[1..] == at;
      assert under[k] == Kept(at, m);
    }
  }

  /** What is kept of a directory is what is kept of each of its entries. */
  lemma {:induction false} KeepPerEntry(parent: string, entries: seq<Entry>, patterns: seq<IgnorePattern>,
                                             at: Location, m: Member)
    ensures Kept(at, m) in Keep(parent, entries, patterns)
       <==> at != [] && at[0] < |entries| && Kept(at[1..], m) in KeepEntry(parent, entries[at[0]], patterns)
    decreases |entries|
  {
    if entries != [] {
      var n := |entries| - 1;
      KeepPerEntry(parent, entries[..n], patterns, at, m);
      InUnder(n, KeepEntry(parent, entries[n], patterns), at, m);
    }
  }

  /** The archive holds exactly the wanted files, each with its contents and normalized path.
      In particular no pattern can bring back a file below an ignored directory. */
  lemma {:induction false} KeepExact(parent: string, entries: seq<Entry>, patterns: seq<IgnorePattern>,
                                          at: Location, m: Member)
    ensures Kept(at, m) in Keep(parent, entries, patterns)
       <==> Wanted(parent, entries, at, patterns) && m == MemberAt(parent, entries, at)
    decreases |at|
  {
    KeepPerEntry(parent, entries, patterns, at, m);
    if at != [] && at[0] < |entries| {
      var e := entries[at[0]];
      assert IgnoredAt(parent, entries, at[..1], patterns) == Pruned(parent, e, patterns);
      if |at| == 1 {
        assert at[..1] == at && at[1..] == [];
        if e.Directory? {
          KeepPerEntry(Join(parent, e.name), e.children, patterns, [], m);
        }
      } else if e.Directory? {
        KeepExact(Join(parent, e.name), e.children, patterns, at[1..], m);
        WantedBelow(parent, entries, at, patterns);
      }
    }
  }

  /** Once a directory is ignored, no pattern list can bring back anything below it. */
  lemma NothingBelowIgnored(entries: seq<Entry>, patterns: seq<IgnorePattern>, dir: Location, at: Location, m: Member)
    requires dir != [] && dir <= at && IgnoredAt("", entries, dir, patterns)
    ensures Kept(at, m) !in Keep("", entries, patterns)
  {
    KeepExact("", entries, patterns, at, m);
    assert at[..|dir|] == dir;
  }

  ghost predicate Distinct(kept: seq<Kept>) {
    forall i, j | 0 <= i < j < |kept| :: kept[i].at != kept[j].at
  }

  /** Every file is kept at most once. */
  lemma {:induction false} KeepOnce(parent: string, entries: seq<Entry>, patterns: seq<IgnorePattern>)
    ensures Distinct(Keep(parent, entries, patterns))
    decreases entries, 0
  {
    if entries != [] {
      var n := |entries| - 1;
      var before, last := Keep(parent, entries[..n], patterns), KeepEntry(parent, entries[n], patterns);
      KeepOnce(parent, entries[..n], patterns);
      KeepEntryOnce(parent, entries[n], patterns);
      forall i | 0 <= i < |before| ensures before[i].at != [] && before[i].at[0] < n {
        KeepPerEntry(parent, entries[..n], patterns, before[i].at, before[i].member);
      }
      forall i, j | 0 <= i < j < |last| ensures [n] + last[i].at != [n] + last[j].at {
        assert ([n] + last[i].at)[1..] == last[i].at && ([n] + last[j].at)[1..] == last[j].at;
      }
    }
  }

  lemma {:induction false} KeepEntryOnce(parent: string, e: Entry, patterns: seq<IgnorePattern>)
    ensures Distinct(KeepEntry(parent, e, patterns))
    decreases e, 1
  {
    if e.Directory? {
      KeepOnce(Join(parent, e.name), e.children, patterns);
    }
  }
}
