/** Storing a certificate bundle on disk so that a crash or an error at any point leaves either
    the old or the new bundle in reach: write to a temporary directory, validate, move the live
    directory aside, move the new one in. */
module BundleSwap {
  import opened Wrappers

  datatype FileName = CaCrt | TlsCrt | TlsKey

  datatype Bundle = Bundle(caCert: string, clientCert: string, clientKey: string)

  type Dir = map<FileName, string>

  /** The three directories of a gateway: `mtls`, `mtls.tmp` and `mtls.bak`. */
  datatype Place = Live | Temp | Backup

  /** Which of the directories exist, and what is in them. */
  type Disk = map<Place, Dir>

  /** How a call into the file system, or a whole call of the program, ends. */
  datatype Outcome = Done | Failed | Crashed

  function DirOf(b: Bundle): Dir {
    map[CaCrt := b.caCert, TlsCrt := b.clientCert, TlsKey := b.clientKey]
  }

  predicate Complete(d: Dir) {
    && CaCrt in d && d[CaCrt] != ""
    && TlsCrt in d && d[TlsCrt] != ""
    && TlsKey in d && d[TlsKey] != ""
  }

  // ---------------------------------------------------------------------------
  // What storing a bundle may do to the disk
  // ---------------------------------------------------------------------------

  predicate SamePlace(p: Place, a: Disk, b: Disk) {
    (p in a <==> p in b) && (p in a ==> a[p] == b[p])
  }

  predicate OnlyChanges(p: Place, a: Disk, b: Disk) {
    && (p != Live ==> SamePlace(Live, a, b))
    && (p != Temp ==> SamePlace(Temp, a, b))
    && (p != Backup ==> SamePlace(Backup, a, b))
  }

  /** The promise of one call, however it ends. */
  predicate StoreEffect(before: Disk, b: Bundle, after: Disk, r: Outcome) {
    // A live directory is the old one untouched, or the new bundle in full.
    && (Live in after ==> SamePlace(Live, before, after) || (after[Live] == DirOf(b) && Complete(DirOf(b))))
    // A live directory that is gone is the backup, untouched.
    && (Live !in after && Live in before ==> Backup in after && after[Backup] == before[Live])
    // Without a live directory there is nothing to move aside.
    && (Live !in before ==> SamePlace(Backup, before, after))
    && (r == Done ==>
          && Live in after && after[Live] == DirOf(b) && Complete(DirOf(b))
          && Temp !in after
          && (Backup in after <==> Live !in before && Backup in before))
    // A bundle with an empty part is refused before anything but the temporary directory changes.
    && (!Complete(DirOf(b)) ==> r != Done && SamePlace(Live, before, after) && SamePlace(Backup, before, after))
  }

  class ConfigDir {
    var disk: Disk
    /** How many file-system calls have failed or crashed. */
    ghost var troubles: nat

    /** A file-system call ended like this. */
    ghost method Note(r: Outcome)
      modifies this`troubles
      ensures troubles == old(troubles) + if r == Done then 0 else 1
    {
      if r != Done {
        troubles := troubles + 1;
      }
    }

    /** Removes a directory tree; when interrupted, any part of it may be gone. */
    method RemoveDirAll(p: Place) returns (r: Outcome)
      requires p in disk
      modifies this
      ensures troubles == old(troubles) + if r == Done then 0 else 1
      ensures OnlyChanges(p, old(disk), disk)
      ensures r == Done ==> p !in disk
      ensures p in disk ==> forall f <- disk[p] :: f in old(disk)[p] && disk[p][f] == old(disk)[p][f]
    {
      r := *;
      Note(r);
      var wholly: bool := *;
      if r == Done || wholly {
        disk := disk - {p};
      } else {
        var kept: set<FileName> := *;
        disk := disk[p := map f | f in disk[p] && f in kept :: disk[p][f]];
      }
    }

    /** Creates a directory if it is missing and restricts its permissions. */
    method CreateDirRestricted(p: Place) returns (r: Outcome)
      modifies this
      ensures troubles == old(troubles) + if r == Done then 0 else 1
      ensures disk == old(disk) || (p !in old(disk) && disk == old(disk)[p := map[]])
      ensures r == Done ==> p in disk
    {
      r := *;
      Note(r);
      var reached: bool := *;
      if p !in disk && (r == Done || reached) {
        disk := disk[p := map[]];
      }
    }

    /** Writes a file; when interrupted, any prefix of it may be there. */
    method WriteFile(p: Place, f: FileName, contents: string) returns (r: Outcome)
      requires p in disk
      modifies this
      ensures troubles == old(troubles) + if r == Done then 0 else 1
      ensures p in disk && OnlyChanges(p, old(disk), disk)
      ensures r == Done ==> disk[p] == old(disk)[p][f := contents]
    {
      r := *;
      Note(r);
      var n: int := *;
      var created: bool := *;
      if r == Done {
        disk := disk[p := disk[p][f := contents]];
      } else if created && 0 <= n <= |contents| {
        disk := disk[p := disk[p][f := contents[..n]]];
      }
    }

    method SetFileOwnerOnly(p: Place, f: FileName) returns (r: Outcome)
      modifies this`troubles
      ensures troubles == old(troubles) + if r == Done then 0 else 1
    {
      r := *;
      Note(r);
    }

    /** Moves a directory in one step. */
    method Rename(from: Place, to: Place) returns (r: Outcome)
      requires from in disk && to !in disk
      modifies this
      ensures troubles == old(troubles) + if r == Done then 0 else 1
      ensures disk == old(disk) || disk == (old(disk) - {from})[to := old(disk)[from]]
      ensures r == Done ==> from !in disk
      ensures r == Failed ==> disk == old(disk)
    {
      r := *;
      Note(r);
      var moved: bool := *;
      if r == Done || (r == Crashed && moved) {
        disk := (disk - {from})[to := disk[from]];
      }
    }

    method Metadata(p: Place, f: FileName) returns (r: Outcome)
      modifies this`troubles
      ensures troubles == old(troubles) + if r == Done then 0 else 1
    {
      r := *;
      Note(r);
    }

    /** Checks that all three files are there and not empty. */
    method ValidateBundleDir(p: Place) returns (r: Outcome)
      requires p in disk
      modifies this`troubles
      ensures r == Done ==> Complete(disk[p])
      ensures troubles >= old(troubles) && (troubles == old(troubles) ==> (r == Done <==> Complete(disk[p])))
    {
      var names := [CaCrt, TlsCrt, TlsKey];
      assert names[0] == CaCrt && names[1] == TlsCrt && names[2] == TlsKey && |names| == 3;
      for n := 0 to |names|
        invariant forall k | 0 <= k < n :: names[k] in disk[p] && disk[p][names[k]] != ""
        invariant troubles == old(troubles)
      {
        r := Metadata(p, names[n]);
        if r != Done {
          return;
        }
        if names[n] !in disk[p] || disk[p][names[n]] == "" {
          return Failed;
        }
      }
      r := Done;
    }

    /** When no file-system call goes wrong, a bundle is stored exactly if all its parts are there; and a
        single failure never takes the live directory away. */
    method StorePkiBundle(b: Bundle) returns (r: Outcome)
      modifies this
      ensures StoreEffect(old(disk), b, disk, r)
      ensures troubles >= old(troubles) && (troubles == old(troubles) ==> (r == Done <==> Complete(DirOf(b))))
      ensures troubles == old(troubles) + 1 && r == Failed && Live in old(disk) ==> Live in disk
    {
      if Temp in disk {
        r := RemoveDirAll(Temp);
        if r != Done { return; }
      }
      r := FillTemp(b);
      if r != Done { return; }

      hide Complete, DirOf;
      r := MoveIn(b);
    }

    /** Moves the live directory aside and the new one in. */
    method MoveIn(b: Bundle) returns (r: Outcome)
      requires Temp in disk && disk[Temp] == DirOf(b) && Complete(DirOf(b))
      modifies this
      ensures StoreEffect(old(disk), b, disk, r)
      ensures troubles >= old(troubles) && (troubles == old(troubles) ==> r == Done)
      ensures troubles == old(troubles) + 1 && r == Failed && Live in old(disk) ==> Live in disk
    {
      hide Complete, DirOf;
      var hadBackup := Live in disk;
      if hadBackup {
        if Backup in disk {
          r := RemoveDirAll(Backup);
          if r != Done { return; }
        }
        r := Rename(Live, Backup);
        if r != Done { return; }
      }

      r := Rename(Temp, Live);
      if r != Done {
        if r == Failed && hadBackup {
          var ignored := Rename(Backup, Live);
          if ignored == Crashed { r := Crashed; }
        }
        return;
      }

      r := CreateDirRestricted(Live);
      if r != Done { return; }

      if hadBackup {
        r := RemoveDirAll(Backup);
      }
    }

    /** Writes and validates the new bundle; touches nothing but the temporary directory. */
    method FillTemp(b: Bundle) returns (r: Outcome)
      requires Temp !in disk
      modifies this
      ensures SamePlace(Live, old(disk), disk) && SamePlace(Backup, old(disk), disk)
      ensures r == Done ==> Temp in disk && disk[Temp] == DirOf(b) && Complete(DirOf(b))
      ensures troubles >= old(troubles) && (troubles == old(troubles) ==> (r == Done <==> Complete(DirOf(b))))
    {
      r := CreateDirRestricted(Temp);
      if r != Done { return; }
      r := WriteFile(Temp, CaCrt, b.caCert);
      if r != Done { return; }
      r := WriteFile(Temp, TlsCrt, b.clientCert);
      if r != Done { return; }
      r := WriteFile(Temp, TlsKey, b.clientKey);
      if r != Done { return; }
      r := SetFileOwnerOnly(Temp, TlsKey);
      if r != Done { return; }
      r := ValidateBundleDir(Temp);
    }
  }

  // ---------------------------------------------------------------------------
  // Any number of calls, one after the other
  // ---------------------------------------------------------------------------

  /** A call that was made, how it ended and what it left on the disk. */
  datatype Call = Call(bundle: Bundle, outcome: Outcome, after: Disk)

  function DiskAfter(start: Disk, calls: seq<Call>): Disk {
    if calls == [] then start else calls[|calls| - 1].after
  }

  /** A history of calls in which each finds what the one before it left. */
  predicate History(start: Disk, calls: seq<Call>) {
    forall n | 0 <= n < |calls| ::
      StoreEffect(DiskAfter(start, calls[..n]), calls[n].bundle, calls[n].after, calls[n].outcome)
  }

  /** The bundle of the last successful call and those of the calls made since. */
  function SinceLastSuccess(calls: seq<Call>): set<Dir> {
    if calls == [] then {}
    else
      var last := calls[|calls| - 1];
      if last.outcome == Done then {DirOf(last.bundle)}
      else SinceLastSuccess(calls[..|calls| - 1]) + {DirOf(last.bundle)}
  }

  predicate SomeSuccess(calls: seq<Call>) {
    calls != [] && (calls[|calls| - 1].outcome == Done || SomeSuccess(calls[..|calls| - 1]))
  }

  /** The directory that holds the bundle in force: the live one, else the backup. */
  function Holder(d: Disk): Place {
    if Live in d then Live else Backup
  }

  lemma HistoryPrefix(start: Disk, calls: seq<Call>)
    requires History(start, calls) && calls != []
    ensures History(start, calls[..|calls| - 1])
  {
    var before := calls[..|calls| - 1];
    forall n | 0 <= n < |before|
      ensures StoreEffect(DiskAfter(start, before[..n]), before[n].bundle, before[n].after, before[n].outcome)
    {
      assert before[..n] == calls[..n];
    }
  }

  predicate AllThreeFiles(d: Dir) {
    forall f: FileName :: f in d && d[f] != ""
  }

  lemma CompleteExactly(d: Disk)
    ensures forall p <- d :: Complete(d[p]) <==> AllThreeFiles(d[p])
  {
    forall p <- d ensures Complete(d[p]) <==> AllThreeFiles(d[p]) {
      if Complete(d[p]) {
        forall f: FileName ensures f in d[p] && d[p][f] != "" {
          match f
          case CaCrt =>
          case TlsCrt =>
          case TlsKey =>
        }
      }
    }
  }

  /** The three files of a directory are the three parts of a bundle. */
  predicate HoldsParts(d: Dir, b: Bundle) {
    && CaCrt in d && d[CaCrt] == b.caCert
    && TlsCrt in d && d[TlsCrt] == b.clientCert
    && TlsKey in d && d[TlsKey] == b.clientKey
  }

  /** Whatever crashes or fails, a live directory is always a complete bundle. */
  lemma {:induction false} LiveAlwaysComplete(start: Disk, calls: seq<Call>)
    requires History(start, calls) && (Live in start ==> Complete(start[Live]))
    ensures var d := DiskAfter(start, calls); Live in d ==> Complete(d[Live]) && AllThreeFiles(d[Live])
  {
    CompleteExactly(DiskAfter(start, calls));
    if calls != [] {
      var n := |calls| - 1;
      HistoryPrefix(start, calls);
      LiveAlwaysComplete(start, calls[..n]);
      assert StoreEffect(DiskAfter(start, calls[..n]), calls[n].bundle, calls[n].after, calls[n].outcome);
    }
  }

  /** Once a call has succeeded, the live directory or, failing that, the backup always holds a
      complete bundle, and never one older than the last success. */
  lemma {:induction false} BundleNeverLost(start: Disk, calls: seq<Call>)
    requires History(start, calls) && SomeSuccess(calls)
    ensures var d := DiskAfter(start, calls);
      && Holder(d) in d && Complete(d[Holder(d)])
      && d[Holder(d)] in SinceLastSuccess(calls)
  {
    var n := |calls| - 1;
    var last := calls[n];
    HistoryPrefix(start, calls);
    assert StoreEffect(DiskAfter(start, calls[..n]), last.bundle, last.after, last.outcome);
    if last.outcome != Done {
      BundleNeverLost(start, calls[..n]);
      HolderKept(DiskAfter(start, calls[..n]), last);
    }
  }

  /** A call that does not succeed leaves the bundle in force or replaces it by the new one. */
  lemma HolderKept(before: Disk, c: Call)
    requires StoreEffect(before, c.bundle, c.after, c.outcome)
    requires Holder(before) in before && Complete(before[Holder(before)])
    ensures var h := Holder(c.after);
      && h in c.after && Complete(c.after[h])
      && (c.after[h] == before[Holder(before)] || c.after[h] == DirOf(c.bundle))
  {
  }

  /** The live directory as it was when it was last there, if it ever was. */
  function LastLive(start: Disk, calls: seq<Call>): Option<Dir>
    decreases |calls|
  {
    var d := DiskAfter(start, calls);
    if Live in d then Some(d[Live])
    else if calls == [] then None
    else LastLive(start, calls[..|calls| - 1])
  }

  /** While there is no live directory, the backup is the last one there was. */
  lemma {:induction false} BackupIsLastLive(start: Disk, calls: seq<Call>)
    requires History(start, calls) && (Live !in start ==> Backup !in start)
    requires Live !in DiskAfter(start, calls)
    ensures Backup in DiskAfter(start, calls) <==> LastLive(start, calls).Some?
    ensures LastLive(start, calls).Some? ==> DiskAfter(start, calls)[Backup] == LastLive(start, calls).value
    decreases |calls|
  {
    if calls != [] {
      LastEffect(start, calls);
      hide StoreEffect, History;
      if Live !in DiskAfter(start, calls[..|calls| - 1]) {
        BackupIsLastLive(start, calls[..|calls| - 1]);
      }
    }
  }

  /** What the last call did to the live directory and the backup. */
  lemma LastEffect(start: Disk, calls: seq<Call>)
    requires History(start, calls) && calls != [] && Live !in DiskAfter(start, calls)
    ensures History(start, calls[..|calls| - 1])
    ensures var before, after := DiskAfter(start, calls[..|calls| - 1]), DiskAfter(start, calls);
      if Live in before then Backup in after && after[Backup] == before[Live]
      else (Backup in after <==> Backup in before) && (Backup in after ==> after[Backup] == before[Backup])
  {
    var n := |calls| - 1;
    HistoryPrefix(start, calls);
    assert StoreEffect(DiskAfter(start, calls[..n]), calls[n].bundle, calls[n].after, calls[n].outcome);
  }

  /** After a successful call the new bundle is live and the temporary directory gone.  A backup is
      beside it exactly if the calls before had lost the live directory, and then it is that one. */
  lemma SuccessIsClean(start: Disk, calls: seq<Call>)
    requires History(start, calls) && (Live !in start ==> Backup !in start)
    requires calls != [] && calls[|calls| - 1].outcome == Done
    ensures var before := calls[..|calls| - 1];
      var d, lost := DiskAfter(start, calls), LastLive(start, before);
      && Live in d && d[Live] == DirOf(calls[|calls| - 1].bundle) && Temp !in d
      && HoldsParts(d[Live], calls[|calls| - 1].bundle)
      && (Backup in d <==> Live !in DiskAfter(start, before) && lost.Some?)
      && (Backup in d ==> d[Backup] == lost.value)
  {
    var n := |calls| - 1;
    var before := calls[..n];
    HistoryPrefix(start, calls);
    assert StoreEffect(DiskAfter(start, before), calls[n].bundle, calls[n].after, calls[n].outcome);
    if Live !in DiskAfter(start, before) {
      BackupIsLastLive(start, before);
    }
  }
}
