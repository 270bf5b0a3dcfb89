/** Where the remote path of an upload leads, and when comparing its text with the system directories
    finds that out. */
module RemotePaths {
  import opened Wrappers
  import opened Text
  import opened Schema

  const SYSTEM_NAMES: seq<string> := ["etc", "usr", "bin", "sbin"]

  /** The components of a path without empty ones and ".", each ".." taking back the one before it. */
  function Resolve(parts: seq<string>): seq<string> {
    if parts == [] then []
    else
      var r, last := Resolve(parts[..|parts| - 1]), parts[|parts| - 1];
      if last == "" || last == "." then r
      else if last == ".." then (if r == [] then [] else r[..|r| - 1])
      else r + [last]
  }

  /** An absolute path that leads into a system directory. */
  predicate LeadsToSystemDir(remote: string) {
    && "/" <= remote
    && var r := Resolve(Pieces(remote, '/'));
    r != [] && r[0] in SYSTEM_NAMES
  }

  lemma {:induction false} JoinFront(parts: seq<string>, sep: char)
    requires |parts| > 1
    ensures JoinPieces(parts, sep) == parts[0] + [sep] + JoinPieces(parts[1..], sep)
    decreases |parts|
  {
    var n := |parts| - 1;
    assert parts[1..][..n - 1] == parts[1..n] == parts[..n][1..];
    if n > 1 {
      JoinFront(parts[..n], sep);
    }
  }

  /** The check of the text is a check of the first component. */
  lemma NamesSystemExactly(remote: string)
    ensures var parts := Pieces(remote, '/');
      NamesSystemDir(remote) <==> |parts| > 1 && parts[0] == "" && parts[1] in SYSTEM_NAMES
  {
    var parts := Pieces(remote, '/');
    forall k | 0 <= k < |SYSTEM_DIRS|
      ensures remote == SYSTEM_DIRS[k] || SYSTEM_DIRS[k] + "/" <= remote
         <==> |parts| > 1 && parts[0] == "" && parts[1] == SYSTEM_NAMES[k]
    {
      NamesOne(remote, SYSTEM_NAMES[k]);
      assert SYSTEM_DIRS[k] == "/" + SYSTEM_NAMES[k];
    }
    hide Pieces;
    if NamesSystemDir(remote) {
      var k :| 0 <= k < |SYSTEM_DIRS| && (remote == SYSTEM_DIRS[k] || SYSTEM_DIRS[k] + "/" <= remote);
    }
    if |parts| > 1 && parts[0] == "" && parts[1] in SYSTEM_NAMES {
      var k :| 0 <= k < |SYSTEM_NAMES| && parts[1] == SYSTEM_NAMES[k];
      assert SYSTEM_DIRS[k] in SYSTEM_DIRS;
    }
  }

  lemma NamesOne(remote: string, name: string)
    requires '/' !in name
    ensures var parts := Pieces(remote, '/');
      remote == "/" + name || "/" + name + "/" <= remote <==> |parts| > 1 && parts[0] == "" && parts[1] == name
  {
    var parts := Pieces(remote, '/');
    hide Pieces, JoinPieces;
    PiecesJoin(remote, '/');
    OnePiece("");
    OnePiece(name);
    if remote == "/" + name {
      PiecesBetween("", name, '/');
      assert remote == "" + ['/'] + name;
    }
    if "/" + name + "/" <= remote {
      var rest := remote[|name| + 2..];
      PiecesBetween("", name, '/');
      PiecesBetween("/" + name, rest, '/');
      assert "/" + name == "" + ['/'] + name && remote == "/" + name + ['/'] + rest;
    }
    if |parts| > 1 && parts[0] == "" && parts[1] == name {
      FromFront(remote, parts, name);
    }
  }

  lemma FromFront(remote: string, parts: seq<string>, name: string)
    requires remote == JoinPieces(parts, '/') && |parts| > 1 && parts[0] == "" && parts[1] == name
    ensures remote == "/" + name || "/" + name + "/" <= remote
  {
    JoinFront(parts, '/');
    if |parts| == 2 {
      assert parts[1..] == [name];
    } else {
      JoinFront(parts[1..], '/');
      var rest := JoinPieces(parts[1..][1..], '/');
      hide JoinPieces;
      assert remote == "/" + name + "/" + rest;
    }
  }

  lemma OnePiece(s: string)
    requires '/' !in s
    ensures Pieces(s, '/') == [s]
  {
    PiecesUnique([s], '/');
  }

  // ---------------------------------------------------------------------------
  // When the check is right
  // ---------------------------------------------------------------------------

  /** A component that stands for itself. */
  predicate PlainPart(c: string) {
    c != "" && c != "." && c != ".." && '/' !in c
  }

  /** Every component is plain, or this one. */
  predicate PlainOr(parts: seq<string>, c: string) {
    forall k | 0 <= k < |parts| :: PlainPart(parts[k]) || parts[k] == c
  }

  function Absolute(parts: seq<string>): string {
    "/" + JoinPieces(parts, '/')
  }

  lemma AbsolutePieces(parts: seq<string>)
    requires parts != [] && FreeOf(parts, '/')
    ensures Pieces(Absolute(parts), '/') == [""] + parts
  {
    hide Pieces, JoinPieces;
    var all := [""] + parts;
    JoinFront(all, '/');
    assert all[1..] == parts;
    assert Absolute(parts) == JoinPieces(all, '/');
    PiecesUnique(all, '/');
  }

  lemma {:induction false} ResolvePlain(parts: seq<string>)
    requires forall k | 0 <= k < |parts| :: PlainPart(parts[k])
    ensures Resolve([""] + parts) == parts
  {
    var all := [""] + parts;
    if parts == [] {
      assert all[..0] == [];
    } else {
      var n := |parts| - 1;
      assert all[..n + 1] == [""] + parts[..n];
      ResolvePlain(parts[..n]);
    }
  }

  /** The check is right about every absolute path of plain components and this one exactly if this
      one is plain as well: not empty, not "." and not "..". */
  lemma CheckRightExactly(c: string)
    requires '/' !in c
    ensures (forall parts | parts != [] && PlainOr(parts, c) ::
               NamesSystemDir(Absolute(parts)) <==> LeadsToSystemDir(Absolute(parts)))
       <==> PlainPart(c)
  {
    hide NamesSystemDir, LeadsToSystemDir, Absolute;
    if PlainPart(c) {
      forall parts | parts != [] && PlainOr(parts, c)
        ensures NamesSystemDir(Absolute(parts)) <==> LeadsToSystemDir(Absolute(parts))
      {
        PlainIsRight(parts);
      }
    } else {
      var parts := [c, "etc"];
      OddIsWrong(c, parts);
    }
  }

  lemma PlainIsRight(parts: seq<string>)
    requires parts != [] && forall k | 0 <= k < |parts| :: PlainPart(parts[k])
    ensures NamesSystemDir(Absolute(parts)) <==> LeadsToSystemDir(Absolute(parts))
  {
    AbsolutePieces(parts);
    NamesSystemExactly(Absolute(parts));
    ResolvePlain(parts);
    hide NamesSystemDir, Pieces, Resolve, JoinPieces;
  }

  lemma OddIsWrong(c: string, parts: seq<string>)
    requires '/' !in c && !PlainPart(c) && parts == [c, "etc"]
    ensures PlainOr(parts, c)
    ensures !NamesSystemDir(Absolute(parts)) && LeadsToSystemDir(Absolute(parts))
  {
    AbsolutePieces(parts);
    NamesSystemExactly(Absolute(parts));
    hide NamesSystemDir, Pieces, JoinPieces;
    assert PlainPart("etc");
    var all := [""] + parts;
    assert all[..2] == ["", c] && all[..2][..1] == [""] && [""][..0] == [];
    assert Resolve(all[..2]) == [];
    assert "etc" == SYSTEM_NAMES[0];
  }

  /** An upload that climbs into a system directory, to `/tmp/../etc/passwd`, is accepted. */
  lemma ClimbingUpload()
    ensures var remote := Absolute(["tmp", "..", "etc", "passwd"]);
      ValidUpload("x" + ":" + remote) && LeadsToSystemDir(remote)
  {
    var parts := ["tmp", "..", "etc", "passwd"];
    hide NamesSystemDir, Pieces, JoinPieces, SplitOnce, Contains, Resolve;
    AbsolutePieces(parts);
    NamesSystemExactly(Absolute(parts));
    LocalX(Absolute(parts));
    ClimbingResolved();
    hide Absolute;
    assert "etc" == SYSTEM_NAMES[0] && "tmp" !in SYSTEM_NAMES;
  }

  lemma LocalX(remote: string)
    ensures SplitOnce("x" + ":" + remote, ":") == Some(("x", remote)) && !Contains("x", "..")
  {
    hide SplitOnce;
    assert ("x" + ":")[0..][0] == 'x';
    SplitOnceExact("x", ":", remote);
  }

  lemma ClimbingResolved()
    ensures Resolve([""] + ["tmp", "..", "etc", "passwd"]) == ["etc", "passwd"]
  {
    var all := ["", "tmp", "..", "etc", "passwd"];
    assert [""] + ["tmp", "..", "etc", "passwd"] == all;
    assert all[..4] == ["", "tmp", "..", "etc"] && all[..4][..3] == ["", "tmp", ".."];
    assert all[..4][..3][..2] == ["", "tmp"] && all[..4][..3][..2][..1] == [""] && [""][..0] == [];
    assert Resolve(["", "tmp"]) == ["tmp"];
    assert Resolve(["", "tmp", ".."]) == [];
  }

  /** An upload is accepted exactly if it has a colon, no ".." before the first one, and behind it no
      absolute path whose first component is that of a system directory. */
  lemma UploadsExactly(local: string, remote: string)
    requires ':' !in local
    ensures !ValidUpload(local)
    ensures var parts := Pieces(remote, '/');
      ValidUpload(local + ":" + remote) <==>
        && !Contains(local, "..")
        && !(|parts| > 1 && parts[0] == "" && parts[1] in ["etc", "usr", "bin", "sbin"])
  {
    NamesSystemExactly(remote);
    ColonSplits(local, remote);
    hide NamesSystemDir, Pieces, SplitOnce, Contains;
  }

  lemma ColonSplits(local: string, remote: string)
    requires ':' !in local
    ensures SplitOnce(local, ":") == None && SplitOnce(local + ":" + remote, ":") == Some((local, remote))
  {
    SplitOnceNone(local, ":");
    forall i | 0 <= i <= |local| ensures !(":" <= local[i..]) {
      assert i < |local| ==> local[i..][0] == local[i];
    }
    forall i | 0 <= i < |local| ensures !(":" <= (local + ":")[i..]) {
      assert (local + ":")[i..][0] == local[i];
    }
    SplitOnceExact(local, ":", remote);
  }
}
