/** The paths under which files go into the archive.  Backslashes become slashes, so that two files of
    a tree may get one path; this says for which names they never do. */
module ArchivePaths {
  import opened IgnoreRules
  import opened BuildContext
  import opened Text

  /** A name as it stands for one component of a path. */
  predicate PlainName(name: string) {
    name != [] && '/' !in name && '\\' !in name && name != "." && name != ".."
  }

  /** A directory names its entries differently, each with a plain name or one of these odd ones. */
  predicate Named(entries: seq<Entry>, odd: set<string>)
    decreases entries, 0
  {
    && (forall e <- entries :: NamedEntry(e, odd))
    && forall i, j | 0 <= i < j < |entries| :: entries[i].name != entries[j].name
  }

  predicate NamedEntry(e: Entry, odd: set<string>)
    decreases e, 1
  {
    (PlainName(e.name) || e.name in odd) && (e.Directory? ==> Named(e.children, odd))
  }

  predicate DistinctPaths(kept: seq<Kept>) {
    forall i, j | 0 <= i < j < |kept| :: kept[i].member.path != kept[j].member.path
  }

  /** The components that a name, or a path, has in the archive. */
  function Parts(name: string): (r: seq<string>)
    ensures r != []
  {
    Pieces(Normalize(name), '/')
  }

  predicate AllPlain(parts: seq<string>) {
    forall k | 0 <= k < |parts| :: PlainName(parts[k])
  }

  /** The path of the entry at a place, before normalization. */
  function PathAt(parent: string, entries: seq<Entry>, at: Location): string
    requires at != [] && Lookup(parent, entries, at).Something?
  {
    var f := Lookup(parent, entries, at);
    Join(f.parent, f.entry.name)
  }

  /** The names on the way to an entry. */
  function NamesAt(parent: string, entries: seq<Entry>, at: Location): (r: seq<string>)
    requires at != [] && Lookup(parent, entries, at).Something?
    ensures r != []
    decreases |at|
  {
    var e := entries[at[0]];
    [e.name] + if |at| == 1 then [] else NamesAt(Join(parent, e.name), e.children, at[1..])
  }

  /** The components that names one below the other have in the archive. */
  function AllParts(names: seq<string>): seq<string> {
    if names == [] then [] else Parts(names[0]) + AllParts(names[1..])
  }

  predicate NamesFrom(names: seq<string>, odd: set<string>) {
    forall k | 0 <= k < |names| :: PlainName(names[k]) || names[k] in odd
  }

  /** Different names one below the other never come to the same components. */
  ghost predicate UniquelyCut(odd: set<string>) {
    forall a, b | NamesFrom(a, odd) && NamesFrom(b, odd) && AllParts(a) == AllParts(b) :: a == b
  }

  // ---------------------------------------------------------------------------
  // From paths to names
  // ---------------------------------------------------------------------------

  lemma PlainParts(name: string)
    requires PlainName(name)
    ensures Parts(name) == [name]
  {
    assert Normalize(name) == name;
    PiecesUnique([name], '/');
  }

  lemma JoinedParts(parent: string, name: string)
    ensures Parts(Join(parent, name)) == (if parent == [] then [] else Parts(parent)) + Parts(name)
  {
    if parent != [] {
      assert Normalize(parent + "/" + name) == Normalize(parent) + ['/'] + Normalize(name);
      PiecesBetween(Normalize(parent), Normalize(name), '/');
    }
  }

  /** The components of a path are those of the directory and those of the names below it. */
  lemma {:induction false} PartsOfPath(parent: string, entries: seq<Entry>, at: Location, odd: set<string>)
    requires at != [] && Lookup(parent, entries, at).Something? && Named(entries, odd) && [] !in odd
    ensures Parts(PathAt(parent, entries, at))
         == (if parent == [] then [] else Parts(parent)) + AllParts(NamesAt(parent, entries, at))
    decreases |at|
  {
    var e := entries[at[0]];
    assert NamedEntry(e, odd);
    hide *;
    JoinedParts(parent, e.name);
    var above := if parent == [] then [] else Parts(parent);
    NamesAtStep(parent, entries, at);
    if |at| > 1 {
      NamesNotEmpty(parent, e, odd);
      PartsOfPath(Join(parent, e.name), e.children, at[1..], odd);
      Assoc(above, Parts(e.name), AllParts(NamesAt(Join(parent, e.name), e.children, at[1..])));
    }
  }

  lemma NamesNotEmpty(parent: string, e: Entry, odd: set<string>)
    requires NamedEntry(e, odd) && [] !in odd
    ensures Join(parent, e.name) != []
    ensures e.Directory? ==> Named(e.children, odd)
  {
  }

  lemma NamesAtStep(parent: string, entries: seq<Entry>, at: Location)
    requires at != [] && Lookup(parent, entries, at).Something?
    ensures var e, names := entries[at[0]], NamesAt(parent, entries, at);
      if |at| == 1 then
        && PathAt(parent, entries, at) == Join(parent, e.name)
        && names == [e.name] && AllParts(names) == Parts(e.name)
      else
        && e.Directory? && Lookup(Join(parent, e.name), e.children, at[1..]).Something?
        && Lookup(Join(parent, e.name), e.children, at[1..]) == Lookup(parent, entries, at)
        && PathAt(parent, entries, at) == PathAt(Join(parent, e.name), e.children, at[1..])
        && names == [e.name] + NamesAt(Join(parent, e.name), e.children, at[1..])
        && AllParts(names) == Parts(e.name) + AllParts(NamesAt(Join(parent, e.name), e.children, at[1..]))
  {
  }

  /** Different files have different names on the way to them. */
  lemma {:induction false} NamesDiffer(parent: string, entries: seq<Entry>, at: Location, at': Location,
                                       odd: set<string>)
    requires at != [] && Lookup(parent, entries, at).Something? && Lookup(parent, entries, at).entry.File?
    requires at' != [] && Lookup(parent, entries, at').Something? && Lookup(parent, entries, at').entry.File?
    requires at != at' && Named(entries, odd)
    ensures NamesAt(parent, entries, at) != NamesAt(parent, entries, at')
    decreases |at|
  {
    NamesAtStep(parent, entries, at);
    NamesAtStep(parent, entries, at');
    var e, e' := entries[at[0]], entries[at'[0]];
    assert NamedEntry(e, odd) && NamedEntry(e', odd);
    hide PlainName, NamesAt, Parts, PathAt, AllParts;
    if at[0] == at'[0] {
      assert at == [at[0]] + at[1..] && at' == [at'[0]] + at'[1..];
      var child := Join(parent, e.name);
      NamesDiffer(child, e.children, at[1..], at'[1..], odd);
    } else {
      assert NamesAt(parent, entries, at)[0] != NamesAt(parent, entries, at')[0];
    }
  }

  lemma {:induction false} NamesAreFrom(parent: string, entries: seq<Entry>, at: Location, odd: set<string>)
    requires at != [] && Lookup(parent, entries, at).Something? && Named(entries, odd)
    ensures NamesFrom(NamesAt(parent, entries, at), odd)
    decreases |at|
  {
    var e := entries[at[0]];
    assert NamedEntry(e, odd);
    hide PlainName;
    if |at| > 1 {
      NamesAreFrom(Join(parent, e.name), e.children, at[1..], odd);
    }
  }

  lemma PathsDiffer(context: seq<Entry>, at: Location, at': Location, odd: set<string>)
    requires at != [] && Lookup("", context, at).Something? && Lookup("", context, at).entry.File?
    requires at' != [] && Lookup("", context, at').Something? && Lookup("", context, at').entry.File?
    requires at != at' && Named(context, odd) && [] !in odd && UniquelyCut(odd)
    ensures Normalize(PathAt("", context, at)) != Normalize(PathAt("", context, at'))
  {
    hide Parts, PlainName, NamesAt, AllParts, NamesFrom, PathAt, Lookup, Named, Normalize;
    PartsOfPath("", context, at, odd);
    PartsOfPath("", context, at', odd);
    NamesDiffer("", context, at, at', odd);
    NamesAreFrom("", context, at, odd);
    NamesAreFrom("", context, at', odd);
    var parts, parts' := AllParts(NamesAt("", context, at)), AllParts(NamesAt("", context, at'));
    assert [] + parts == parts && [] + parts' == parts';
    SamePathSameParts(PathAt("", context, at), PathAt("", context, at'));
  }

  lemma SamePathSameParts(a: string, b: string)
    ensures Normalize(a) == Normalize(b) <==> Parts(a) == Parts(b)
  {
    PiecesJoin(Normalize(a), '/');
    PiecesJoin(Normalize(b), '/');
  }

  /** Names that are uniquely cut never make two members share a path. */
  lemma UniquelyCutIsSafe(context: seq<Entry>, patterns: seq<IgnorePattern>, odd: set<string>)
    requires Named(context, odd) && [] !in odd && UniquelyCut(odd)
    ensures DistinctPaths(Keep("", context, patterns))
  {
    hide Keep, Named, Normalize, UniquelyCut;
    var kept := Keep("", context, patterns);
    KeepOnce("", context, patterns);
    forall i, j | 0 <= i < j < |kept| ensures kept[i].member.path != kept[j].member.path {
      KeepExact("", context, patterns, kept[i].at, kept[i].member);
      KeepExact("", context, patterns, kept[j].at, kept[j].member);
      PathsDiffer(context, kept[i].at, kept[j].at, odd);
    }
  }

  // ---------------------------------------------------------------------------
  // From names to paths
  // ---------------------------------------------------------------------------

  /** Directories one in the other, with a file in the last. */
  function Chain(names: seq<string>, contents: string): Entry
    requires names != []
    decreases |names|
  {
    if |names| == 1 then File(names[0], contents) else Directory(names[0], [Chain(names[1..], contents)])
  }

  function ChainEnd(i: nat, length: nat): Location
    requires length > 0
  {
    [i] + seq(length - 1, _ => 0)
  }

  lemma {:induction false} ChainNames(parent: string, entries: seq<Entry>, i: nat, names: seq<string>, contents: string)
    requires names != [] && i < |entries| && entries[i] == Chain(names, contents)
    ensures var at := ChainEnd(i, |names|);
      && Lookup(parent, entries, at).Something? && Lookup(parent, entries, at).entry.File?
      && NamesAt(parent, entries, at) == names
    decreases |names|
  {
    assert names == [names[0]] + names[1..];
    if |names| > 1 {
      var e := entries[i];
      ChainNames(Join(parent, e.name), e.children, 0, names[1..], contents);
      assert ChainEnd(i, |names|)[1..] == ChainEnd(0, |names| - 1);
    }
  }

  lemma {:induction false} ChainNamed(names: seq<string>, contents: string, odd: set<string>)
    requires names != [] && NamesFrom(names, odd)
    ensures NamedEntry(Chain(names, contents), odd) && Chain(names, contents).name == names[0]
    decreases |names|
  {
    hide PlainName;
    if |names| > 1 {
      ChainNamed(names[1..], contents, odd);
    }
  }

  /** Without patterns every file is kept. */
  lemma AllKept(context: seq<Entry>, at: Location)
    requires at != [] && Lookup("", context, at).Something? && Lookup("", context, at).entry.File?
    ensures Kept(at, MemberAt("", context, at)) in Keep("", context, [])
  {
    KeepExact("", context, [], at, MemberAt("", context, at));
  }

  /** Where two names part that come to the same components. */
  lemma {:induction false} Fork(a: seq<string>, b: seq<string>, odd: set<string>)
    returns (a': seq<string>, b': seq<string>)
    requires NamesFrom(a, odd) && NamesFrom(b, odd) && AllParts(a) == AllParts(b) && a != b
    ensures NamesFrom(a', odd) && NamesFrom(b', odd) && AllParts(a') == AllParts(b')
    ensures a' != [] && b' != [] && a'[0] != b'[0]
    decreases |a|
  {
    hide PlainName, Parts;
    assert a != [] && b != [];
    if a[0] != b[0] {
      return a, b;
    }
    assert a == [a[0]] + a[1..] && b == [b[0]] + b[1..];
    Cancel(Parts(a[0]), AllParts(a[1..]), AllParts(b[1..]));
    a', b' := Fork(a[1..], b[1..], odd);
  }

  /** Two chains of names that come to the same components make two members with one path. */
  lemma ForkCollides(a: seq<string>, b: seq<string>, odd: set<string>) returns (context: seq<Entry>)
    requires NamesFrom(a, odd) && NamesFrom(b, odd) && AllParts(a) == AllParts(b) && [] !in odd
    requires a != [] && b != [] && a[0] != b[0]
    ensures Named(context, odd) && !DistinctPaths(Keep("", context, []))
  {
    context := [Chain(a, "1"), Chain(b, "2")];
    ChainNamed(a, "1", odd);
    ChainNamed(b, "2", odd);
    assert Named(context, odd);
    var at, at' := ChainEnd(0, |a|), ChainEnd(1, |b|);
    ChainNames("", context, 0, a, "1");
    ChainNames("", context, 1, b, "2");
    hide Parts, Keep, PlainName, Normalize, Named, NamesAt, AllParts, Chain, Lookup, NamesFrom;
    PartsOfPath("", context, at, odd);
    PartsOfPath("", context, at', odd);
    assert [] + AllParts(a) == AllParts(a) && [] + AllParts(b) == AllParts(b);
    SamePathSameParts(PathAt("", context, at), PathAt("", context, at'));
    AllKept(context, at);
    AllKept(context, at');
    var kept := Keep("", context, []);
    var i :| 0 <= i < |kept| && kept[i] == Kept(at, MemberAt("", context, at));
    var j :| 0 <= j < |kept| && kept[j] == Kept(at', MemberAt("", context, at'));
    assert i != j && kept[i].member.path == kept[j].member.path;
  }

  /** Plain names and these odd ones never make two archive members share a path, whatever the tree
      and the patterns, exactly if no two different names one below the other come to the same
      components. */
  lemma NamesExact(odd: set<string>)
    requires [] !in odd
    ensures (forall context, patterns | Named(context, odd) :: DistinctPaths(Keep("", context, patterns)))
       <==> UniquelyCut(odd)
  {
    if UniquelyCut(odd) {
      forall context, patterns | Named(context, odd) ensures DistinctPaths(Keep("", context, patterns)) {
        UniquelyCutIsSafe(context, patterns, odd);
      }
    } else {
      var a, b :| NamesFrom(a, odd) && NamesFrom(b, odd) && AllParts(a) == AllParts(b) && a != b;
      var a', b' := Fork(a, b, odd);
      var context := ForkCollides(a', b', odd);
    }
  }

  // ---------------------------------------------------------------------------
  // One odd name
  // ---------------------------------------------------------------------------

  /** The position of the first part that is no plain name. */
  function FirstOdd(parts: seq<string>): (n: nat)
    ensures n <= |parts| && (n < |parts| ==> !PlainName(parts[n]))
    ensures forall k | 0 <= k < n :: PlainName(parts[k])
  {
    if parts == [] || !PlainName(parts[0]) then 0 else 1 + FirstOdd(parts[1..])
  }

  /** No names have an odd part earlier than the odd name has its own. */
  lemma {:induction false} EarlyPartsPlain(names: seq<string>, n: string)
    requires NamesFrom(names, {n}) && FirstOdd(Parts(n)) < |Parts(n)|
    ensures forall k | 0 <= k < |AllParts(names)| && k < FirstOdd(Parts(n)) :: PlainName(AllParts(names)[k])
    decreases |names|
  {
    hide Parts, PlainName, FirstOdd;
    if names != [] {
      EarlyPartsPlain(names[1..], n);
      if PlainName(names[0]) {
        PlainParts(names[0]);
      }
    }
  }

  /** Names that begin with the odd one have an odd part where others have none. */
  lemma OddNameShows(a: seq<string>, b: seq<string>, n: string)
    requires NamesFrom(b, {n}) && FirstOdd(Parts(n)) < |Parts(n)|
    requires a != [] && b != [] && a[0] == n != b[0]
    ensures AllParts(a) != AllParts(b)
  {
    var i := FirstOdd(Parts(n));
    PlainParts(b[0]);
    hide Parts, PlainName, FirstOdd;
    assert !PlainName(AllParts(a)[i]);
    EarlyPartsPlain(b[1..], n);
  }

  lemma {:induction false} PlainAllParts(names: seq<string>)
    requires AllPlain(names)
    ensures AllParts(names) == names
  {
    hide PlainName, Parts;
    if names != [] {
      PlainParts(names[0]);
      PlainAllParts(names[1..]);
    }
  }

  lemma OneOddName(n: string)
    requires n != [] && '/' !in n && n != "." && n != ".."
    ensures UniquelyCut({n}) <==> '\\' !in n || !AllPlain(Parts(n))
  {
    if '\\' !in n || !AllPlain(Parts(n)) {
      forall a, b | NamesFrom(a, {n}) && NamesFrom(b, {n}) && AllParts(a) == AllParts(b) ensures a == b {
        SameNames(a, b, n);
      }
    } else {
      var b := Parts(n);
      PlainAllParts(b);
      assert [n][1..] == [] && AllParts([n]) == Parts(n) + [] == b;
      assert '\\' !in b[0];
      assert NamesFrom([n], {n}) && NamesFrom(b, {n});
    }
  }

  lemma SameNames(a: seq<string>, b: seq<string>, n: string)
    requires PlainName(n) || !AllPlain(Parts(n))
    requires NamesFrom(a, {n}) && NamesFrom(b, {n}) && AllParts(a) == AllParts(b)
    ensures a == b
  {
    if a != b {
      var a', b' := Fork(a, b, {n});
      PartsShow(a', b', n);
    }
  }

  lemma PartsShow(a: seq<string>, b: seq<string>, n: string)
    requires PlainName(n) || !AllPlain(Parts(n))
    requires NamesFrom(a, {n}) && NamesFrom(b, {n}) && a != [] && b != [] && a[0] != b[0]
    ensures AllParts(a) != AllParts(b)
  {
    hide Parts, PlainName, FirstOdd;
    if PlainName(a[0]) && PlainName(b[0]) {
      PlainParts(a[0]);
      PlainParts(b[0]);
      assert AllParts(a)[0] != AllParts(b)[0];
    } else if a[0] == n {
      OddNameShows(a, b, n);
    } else {
      OddNameShows(b, a, n);
    }
  }

  /** One odd name is safe in whatever tree of plain names and under whatever patterns exactly if it
      has no backslash, or its backslashes cut it into parts not all of which are names. */
  lemma NameExact(n: string)
    requires n != [] && '/' !in n && n != "." && n != ".."
    ensures (forall context, patterns | Named(context, {n}) :: DistinctPaths(Keep("", context, patterns)))
       <==> '\\' !in n || !AllPlain(Parts(n))
  {
    hide *;
    OneOddName(n);
    NamesExact({n});
  }

  /** With plain names no two members of the archive share a path. */
  lemma ArchivePathsDistinct(context: seq<Entry>, patterns: seq<IgnorePattern>)
    requires Named(context, {})
    ensures DistinctPaths(Keep("", context, patterns))
  {
    NamedMore(context, {}, {"a"});
    assert PlainName("a");
    hide Named, Keep, DistinctPaths, AllPlain, Parts, UniquelyCut;
    OneOddName("a");
    UniquelyCutIsSafe(context, patterns, {"a"});
  }

  lemma {:induction false} NamedMore(entries: seq<Entry>, odd: set<string>, more: set<string>)
    requires Named(entries, odd) && odd <= more
    ensures Named(entries, more)
    decreases entries
  {
    hide PlainName;
    forall e <- entries ensures NamedEntry(e, more) {
      assert NamedEntry(e, odd);
      if e.Directory? {
        NamedMore(e.children, odd, more);
      }
    }
  }

  /** Names that are safe one at a time need not be so together: a file `b` in a directory `a\`, and
      a file `a\\b`. */
  lemma OddNamesTogether()
    ensures UniquelyCut({"a\\"}) && UniquelyCut({"a\\\\b"}) && !UniquelyCut({"a\\", "a\\\\b"})
  {
    var m, n := "a\\", "a\\\\b";
    EmptyMiddle();
    assert !PlainName(Parts(m)[1]) && !PlainName(Parts(n)[1]);
    hide Parts, UniquelyCut;
    OneOddName(m);
    OneOddName(n);
    assert PlainName("b");
    PlainParts("b");
    assert [m, "b"][1..] == ["b"] && ["b"][1..] == [] && [n][1..] == [];
    assert AllParts([m, "b"]) == AllParts([n]);
    NotUniquelyCut([m, "b"], [n], {m, n});
  }

  lemma NotUniquelyCut(a: seq<string>, b: seq<string>, odd: set<string>)
    requires NamesFrom(a, odd) && NamesFrom(b, odd) && AllParts(a) == AllParts(b) && a != b
    ensures !UniquelyCut(odd)
  {
  }

  lemma EmptyMiddle()
    ensures Parts("a\\") == ["a", ""] && Parts("a\\\\b") == ["a", "", "b"]
  {
    assert Normalize("a\\") == "a" + ['/'] + "" && Normalize("a\\\\b") == ("a" + ['/'] + "") + ['/'] + "b";
    PiecesBetween("a", "", '/');
    PiecesBetween("a" + ['/'] + "", "b", '/');
    PlainPieces("a");
    PlainPieces("");
    PlainPieces("b");
  }

  lemma PlainPieces(s: string)
    requires '/' !in s
    ensures Pieces(s, '/') == [s]
  {
    PiecesUnique([s], '/');
  }

  /** The smallest collision: a file `a\b` beside a file `b` in a directory `a`. */
  lemma BackslashCollides()
    ensures Members(Keep("", [File("a\\b", "1"), Directory("a", [File("b", "2")])], []))
         == [Member("a/b", "1"), Member("a/b", "2")]
  {
    var first, inner := File("a\\b", "1"), File("b", "2");
    var second := Directory("a", [inner]);
    KeepOne("a", inner);
    assert Join("a", "b") == "a/b";
    assert Normalize("a\\b") == "a/b" && Normalize("a/b") == "a/b";
    KeepOne("", first);
    var both := [first, second];
    assert !Pruned("", second, []);
    assert Members(KeepEntry("", both[1], [])) == [Member("a/b", "2")];
    assert both[..1] == [first] && both[..2] == both;
    MembersSnoc("", both, 1, []);
    assert Members(Keep("", both[..1], [])) == [Member("a/b", "1")];
  }

  lemma KeepOne(parent: string, e: Entry)
    requires e.File?
    ensures Members(Keep(parent, [e], [])) == [Member(Normalize(Join(parent, e.name)), e.contents)]
  {
    assert [e][..1] == [e] && [e][..0] == [];
    MembersSnoc(parent, [e], 0, []);
  }
}
