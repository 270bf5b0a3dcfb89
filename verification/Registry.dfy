/** The registration files of MCP servers and the allocation of their ports. */
module Registry {
  import opened Wrappers

  datatype Registration = Registration(sandbox: string, server: string, command: seq<string>, pid: nat, port: nat)

  /** The files of the registry directory, by file name. */
  type Files = map<string, Registration>

  datatype Error = InvalidName | AlreadyRegistered(pid: nat) | NoAvailablePort | NotFound

  const PORT_RANGE_START: nat := 9100
  const PORT_RANGE_END: nat := 9199

  predicate ValidName(name: string) {
    name != "" && forall c <- name :: 'a' <= c <= 'z' || '0' <= c <= '9' || c == '-'
  }

  function FileName(sandbox: string, server: string): string {
    sandbox + "-" + server + ".yaml"
  }

  function RegistrationPath(sandbox: string, server: string): Result<string, Error> {
    if ValidName(sandbox) && ValidName(server) then Ok(FileName(sandbox, server)) else Err(InvalidName)
  }

  // ---------------------------------------------------------------------------
  // Ports
  // ---------------------------------------------------------------------------

  function UsedPorts(files: Files): set<nat> {
    set path <- files :: files[path].port
  }

  predicate Available(files: Files, bindable: set<nat>, port: nat) {
    port !in UsedPorts(files) && port in bindable
  }

  /** The first available port from `p` on. */
  function FirstAvailable(files: Files, bindable: set<nat>, p: nat): (r: Option<nat>)
    ensures r.Some? ==> p <= r.value <= PORT_RANGE_END && Available(files, bindable, r.value)
    ensures r.Some? ==> forall q | p <= q < r.value :: !Available(files, bindable, q)
    ensures r.None? ==> forall q | p <= q <= PORT_RANGE_END :: !Available(files, bindable, q)
    decreases PORT_RANGE_END + 1 - p
  {
    if p > PORT_RANGE_END then None
    else if Available(files, bindable, p) then Some(p)
    else FirstAvailable(files, bindable, p + 1)
  }

  /** No registration has the port, and it can be bound. */
  predicate Free(files: Files, bindable: set<nat>, port: nat) {
    port in bindable && forall path <- files :: files[path].port != port
  }

  /** The first free port from 9100 to 9199, if there is one. */
  predicate IsFirstFree(files: Files, bindable: set<nat>, r: Option<nat>) {
    match r
    case Some(port) =>
      9100 <= port <= 9199 && Free(files, bindable, port) && forall p | 9100 <= p < port :: !Free(files, bindable, p)
    case None => forall p | 9100 <= p <= 9199 :: !Free(files, bindable, p)
  }

  lemma FirstIsFree(files: Files, bindable: set<nat>)
    ensures IsFirstFree(files, bindable, FirstAvailable(files, bindable, PORT_RANGE_START))
  {
    forall p ensures Available(files, bindable, p) <==> Free(files, bindable, p) {
    }
    hide Available, Free;
  }

  function Range(lo: nat, hi: nat): (r: set<nat>)
    requires lo <= hi
    ensures forall p :: p in r <==> lo <= p < hi
    ensures |r| == hi - lo
    decreases hi - lo
  {
    if lo == hi then {} else {lo} + Range(lo + 1, hi)
  }

  lemma SubsetSize<T>(a: set<T>, b: set<T>)
    requires a <= b
    ensures |a| <= |b|
  {
    assert b == a + (b - a);
  }

  lemma {:induction false} UsedPortsSize(files: Files)
    ensures |UsedPorts(files)| <= |files|
    decreases |files|
  {
    if files != map[] {
      var path :| path in files;
      var rest := files - {path};
      assert rest.Keys == files.Keys - {path};
      UsedPortsSize(rest);
      assert UsedPorts(files) == UsedPorts(rest) + {files[path].port};
    }
  }

  /** With fewer registrations than ports in the range, and every port that is not registered
      bindable, a port is found. */
  lemma EnoughPorts(files: Files, bindable: set<nat>)
    requires |files| < 100
    requires forall p | 9100 <= p <= 9199 && p !in UsedPorts(files) :: p in bindable
    ensures FirstAvailable(files, bindable, PORT_RANGE_START).Some?
  {
    if FirstAvailable(files, bindable, PORT_RANGE_START).None? {
      var range := Range(PORT_RANGE_START, PORT_RANGE_END + 1);
      forall p | p in range ensures p in UsedPorts(files) {
        assert !Available(files, bindable, p);
      }
      SubsetSize(range, UsedPorts(files));
      UsedPortsSize(files);
    }
  }

  // ---------------------------------------------------------------------------
  // The operations and their effect
  // ---------------------------------------------------------------------------

  /** What an operation finds in its environment: the live processes and the ports it can bind. */
  datatype Env = Env(pid: nat, alive: set<nat>, bindable: set<nat>)

  /** The registration in the way of a new one is refused if its process lives, else dropped. */
  function MakeRoom(files: Files, path: string, env: Env): Result<Files, Error> {
    if path !in files then Ok(files)
    else if files[path].pid in env.alive then Err(AlreadyRegistered(files[path].pid))
    else Ok(files - {path})
  }

  function Add(files: Files, sandbox: string, server: string, command: seq<string>, env: Env)
    : (Files, Result<nat, Error>)
  {
    match RegistrationPath(sandbox, server)
    case Err(e) => (files, Err(e))
    case Ok(path) =>
      match MakeRoom(files, path, env)
      case Err(e) => (files, Err(e))
      case Ok(room) =>
        match FirstAvailable(room, env.bindable, PORT_RANGE_START)
        case None => (room, Err(NoAvailablePort))
        case Some(port) => (room[path := Registration(sandbox, server, command, env.pid, port)], Ok(port))
  }

  function AddInSandbox(files: Files, sandbox: string, server: string, command: seq<string>, env: Env)
    : (Files, Result<(), Error>)
  {
    match RegistrationPath(sandbox, server)
    case Err(e) => (files, Err(e))
    case Ok(path) =>
      match MakeRoom(files, path, env)
      case Err(e) => (files, Err(e))
      case Ok(room) => (room[path := Registration(sandbox, server, command, env.pid, 0)], Ok(()))
  }

  function Remove(files: Files, sandbox: string, server: string): (Files, Result<(), Error>) {
    match RegistrationPath(sandbox, server)
    case Err(e) => (files, Err(e))
    case Ok(path) => if path in files then (files - {path}, Ok(())) else (files, Err(NotFound))
  }

  /** The files that do not name the sandbox. */
  function WithoutSandbox(files: Files, sandbox: string): Files {
    map path <- files | files[path].sandbox != sandbox :: files[path]
  }

  /** Some file names this sandbox and server. */
  predicate HasServer(files: Files, sandbox: string, server: string) {
    exists path <- files :: files[path].sandbox == sandbox && files[path].server == server
  }

  /** Every file is where its contents say. */
  predicate FilesInPlace(files: Files) {
    forall path <- files :: RegistrationPath(files[path].sandbox, files[path].server) == Ok(path)
  }

  /** Besides, ports other than zero are in the range, and no two files share one. */
  predicate Inv(files: Files) {
    && FilesInPlace(files)
    && (forall path <- files :: files[path].port != 0 ==> PORT_RANGE_START <= files[path].port <= PORT_RANGE_END)
    && (forall a <- files, b <- files | a != b && files[a].port != 0 :: files[a].port != files[b].port)
  }

  // What the operations say to their callers

  /** Only the file of this pair may be different. */
  predicate OnlyPair(before: Files, after: Files, sandbox: string, server: string) {
    before - {FileName(sandbox, server)} == after - {FileName(sandbox, server)}
  }

  /** There is a registration in the way whose process lives. */
  predicate Occupied(files: Files, sandbox: string, server: string, env: Env) {
    FileName(sandbox, server) in files && files[FileName(sandbox, server)].pid in env.alive
  }

  class Store {
    var files: Files

    constructor ()
      ensures files == map[]
    {
      files := map[];
    }

    method ListRegistrations() returns (r: seq<Registration>)
      ensures forall reg :: reg in r <==> exists path <- files :: files[path] == reg
    {
      r := [];
      var left := files.Keys;
      while left != {}
        invariant left <= files.Keys
        invariant forall path <- files.Keys - left :: files[path] in r
        invariant forall k | 0 <= k < |r| :: exists path <- files :: files[path] == r[k]
        decreases left
      {
        var path :| path in left;
        left := left - {path};
        r := r + [files[path]];
      }
    }

    method AllocatePort(bindable: set<nat>) returns (r: Option<nat>)
      ensures r == FirstAvailable(files, bindable, PORT_RANGE_START)
      ensures IsFirstFree(files, bindable, r)
    {
      var existing := ListRegistrations();
      FirstIsFree(files, bindable);
      var used := set reg <- existing :: reg.port;
      assert used == UsedPorts(files) by {
        forall p ensures p in used <==> p in UsedPorts(files) {
          if p in used {
            var reg :| reg in existing && reg.port == p;
            var path :| path in files && files[path] == reg;
          }
          if p in UsedPorts(files) {
            var path :| path in files && files[path].port == p;
            assert files[path] in existing;
          }
        }
      }
      for port := PORT_RANGE_START to PORT_RANGE_END + 1
        invariant FirstAvailable(files, bindable, PORT_RANGE_START) == FirstAvailable(files, bindable, port)
      {
        if port !in used && port in bindable {
          return Some(port);
        }
      }
      r := None;
    }

    method RemoveStale(path: string, env: Env) returns (r: Result<(), Error>)
      modifies this
      ensures match MakeRoom(old(files), path, env)
        case Ok(room) => r == Ok(()) && files == room
        case Err(e) => r == Err(e) && files == old(files)
    {
      if path in files {
        if files[path].pid in env.alive {
          return Err(AlreadyRegistered(files[path].pid));
        }
        files := files - {path};
      }
      r := Ok(());
    }

    method McpAdd(sandbox: string, server: string, command: seq<string>, env: Env) returns (r: Result<nat, Error>)
      modifies this
      ensures (files, r) == Add(old(files), sandbox, server, command, env)
      ensures OnlyPair(old(files), files, sandbox, server)
      ensures r == Err(InvalidName) <==> !(ValidName(sandbox) && ValidName(server))
      ensures ValidName(sandbox) && ValidName(server) ==>
        ((r.Err? && r.error.AlreadyRegistered?) <==> Occupied(old(files), sandbox, server, env))
      ensures r.Ok? ==>
        && 9100 <= r.value <= 9199 && r.value in env.bindable
        && (forall path <- files | path != FileName(sandbox, server) :: files[path].port != r.value)
        && FileName(sandbox, server) in files
        && files[FileName(sandbox, server)] == Registration(sandbox, server, command, env.pid, r.value)
      ensures r.Err? && !r.error.NoAvailablePort? ==> files == old(files)
      ensures r == Err(NoAvailablePort) ==>
        && files == old(files) - {FileName(sandbox, server)}
        && forall port | 9100 <= port <= 9199 :: !Available(files, env.bindable, port)
    {
      var path := RegistrationPath(sandbox, server);
      if path.Err? { return Err(path.error); }
      var room := RemoveStale(path.value, env);
      if room.Err? { return Err(room.error); }
      var port := AllocatePort(env.bindable);
      if port.None? { return Err(NoAvailablePort); }
      assert forall other <- files :: files[other].port in UsedPorts(files);
      files := files[path.value := Registration(sandbox, server, command, env.pid, port.value)];
      r := Ok(port.value);
    }

    method StartInSandboxMcp(sandbox: string, server: string, command: seq<string>, env: Env)
      returns (r: Result<(), Error>)
      modifies this
      ensures (files, r) == AddInSandbox(old(files), sandbox, server, command, env)
      ensures OnlyPair(old(files), files, sandbox, server)
      ensures r == Err(InvalidName) <==> !(ValidName(sandbox) && ValidName(server))
      ensures ValidName(sandbox) && ValidName(server) ==> (r.Err? <==> Occupied(old(files), sandbox, server, env))
      ensures r.Ok? ==>
        && FileName(sandbox, server) in files
        && files[FileName(sandbox, server)] == Registration(sandbox, server, command, env.pid, 0)
      ensures r.Err? ==> files == old(files)
    {
      var path := RegistrationPath(sandbox, server);
      if path.Err? { return Err(path.error); }
      var room := RemoveStale(path.value, env);
      if room.Err? { return Err(room.error); }
      files := files[path.value := Registration(sandbox, server, command, env.pid, 0)];
      r := Ok(());
    }

    method McpRemove(sandbox: string, server: string) returns (r: Result<(), Error>)
      modifies this
      ensures (files, r) == Remove(old(files), sandbox, server)
      ensures OnlyPair(old(files), files, sandbox, server)
      ensures r == Err(InvalidName) <==> !(ValidName(sandbox) && ValidName(server))
      ensures r == Err(NotFound)
         <==> ValidName(sandbox) && ValidName(server) && FileName(sandbox, server) !in old(files)
      ensures r.Ok? <==> ValidName(sandbox) && ValidName(server) && FileName(sandbox, server) in old(files)
      ensures r.Ok? ==> FileName(sandbox, server) !in files
      ensures r.Err? ==> files == old(files)
    {
      var path := RegistrationPath(sandbox, server);
      if path.Err? { return Err(path.error); }
      if path.value !in files { return Err(NotFound); }
      files := files - {path.value};
      r := Ok(());
    }

    /** Deletes the file of every registration that names the sandbox, by the path its contents
        give: exactly the files that name it. */
    method CleanupSandbox(sandbox: string) returns (removed: seq<string>)
      requires FilesInPlace(files)
      modifies this
      ensures files == WithoutSandbox(old(files), sandbox)
      ensures forall path :: path in files <==> path in old(files) && old(files)[path].sandbox != sandbox
      ensures forall path <- files :: files[path] == old(files)[path]
      ensures forall k | 0 <= k < |removed| :: HasServer(old(files), sandbox, removed[k])
      ensures forall path <- old(files) | old(files)[path].sandbox == sandbox :: old(files)[path].server in removed
    {
      forall path <- files
        ensures RegistrationPath(files[path].sandbox, files[path].server) == Ok(path)
        ensures FileName(files[path].sandbox, files[path].server) == path
      {
      }
      hide FilesInPlace, RegistrationPath, FileName, WithoutSandbox;
      ghost var before, gone := files, {};
      var registrations := ListRegistrations();
      removed := [];
      for n := 0 to |registrations|
        invariant gone <= before.Keys && files == before - gone
        invariant forall path <- gone :: before[path].sandbox == sandbox && before[path].server in removed
        invariant forall k | 0 <= k < |removed| :: HasServer(before, sandbox, removed[k])
        invariant forall k | 0 <= k < n && registrations[k].sandbox == sandbox ::
          FileName(sandbox, registrations[k].server) in gone
      {
        var reg := registrations[n];
        if reg.sandbox == sandbox {
          assert reg in registrations;
          ghost var at :| at in before && before[at] == reg;
          var path := RegistrationPath(reg.sandbox, reg.server);
          assert path == Ok(at);
          files := files - {path.value};
          removed := removed + [reg.server];
          gone := gone + {at};
        }
      }
      CleanedUp(before, gone, registrations, sandbox);
    }
  }

  /** If every registration of the sandbox has had its file deleted, none of its files is left. */
  lemma CleanedUp(before: Files, gone: set<string>, registrations: seq<Registration>, sandbox: string)
    requires gone <= before.Keys && forall path <- gone :: before[path].sandbox == sandbox
    requires forall path <- before :: before[path] in registrations
    requires forall path <- before :: FileName(before[path].sandbox, before[path].server) == path
    requires forall k | 0 <= k < |registrations| && registrations[k].sandbox == sandbox ::
      FileName(sandbox, registrations[k].server) in gone
    ensures before - gone == WithoutSandbox(before, sandbox)
    ensures forall path <- before :: before[path].sandbox == sandbox <==> path in gone
  {
    hide FileName;
    forall path <- before | before[path].sandbox == sandbox ensures path in gone {
      assert before[path] in registrations;
    }
  }

  // ---------------------------------------------------------------------------
  // Any sequence of operations
  // ---------------------------------------------------------------------------

  datatype Op =
    | AddOp(sandbox: string, server: string, command: seq<string>, env: Env)
    | AddInSandboxOp(sandbox: string, server: string, command: seq<string>, env: Env)
    | RemoveOp(sandbox: string, server: string)
    | CleanupOp(sandbox: string)

  function Apply(files: Files, op: Op): Files {
    match op
    case AddOp(sandbox, server, command, env) => Add(files, sandbox, server, command, env).0
    case AddInSandboxOp(sandbox, server, command, env) => AddInSandbox(files, sandbox, server, command, env).0
    case RemoveOp(sandbox, server) => Remove(files, sandbox, server).0
    case CleanupOp(sandbox) => WithoutSandbox(files, sandbox)
  }

  function Run(ops: seq<Op>): Files {
    if ops == [] then map[] else Apply(Run(ops[..|ops| - 1]), ops[|ops| - 1])
  }

  lemma FewerFilesKeepInv(files: Files, fewer: Files)
    requires Inv(files) && fewer.Keys <= files.Keys && forall path <- fewer :: fewer[path] == files[path]
    ensures Inv(fewer)
  {
    hide RegistrationPath;
  }

  lemma NewFileKeepsInv(files: Files, path: string, reg: Registration)
    requires Inv(files) && path !in files && RegistrationPath(reg.sandbox, reg.server) == Ok(path)
    requires reg.port != 0 ==> PORT_RANGE_START <= reg.port <= PORT_RANGE_END && reg.port !in UsedPorts(files)
    ensures Inv(files[path := reg])
  {
    hide RegistrationPath;
    forall other <- files | reg.port != 0 ensures files[other].port != reg.port {
      assert files[other].port in UsedPorts(files);
    }
  }

  lemma AddKeepsInv(files: Files, sandbox: string, server: string, command: seq<string>, env: Env)
    requires Inv(files)
    ensures Inv(Add(files, sandbox, server, command, env).0)
    ensures Inv(AddInSandbox(files, sandbox, server, command, env).0)
  {
    hide Inv, FirstAvailable, UsedPorts;
    var path := RegistrationPath(sandbox, server);
    if path.Ok? && MakeRoom(files, path.value, env).Ok? {
      var room := MakeRoom(files, path.value, env).value;
      FewerFilesKeepInv(files, room);
      var port := FirstAvailable(room, env.bindable, PORT_RANGE_START);
      if port.Some? {
        NewFileKeepsInv(room, path.value, Registration(sandbox, server, command, env.pid, port.value));
      }
      NewFileKeepsInv(room, path.value, Registration(sandbox, server, command, env.pid, 0));
    }
  }

  /** Whatever is added, removed and cleaned up: every file is at the path its contents give, and
      forwarded ports are never shared. */
  lemma {:induction false} RunKeepsInv(ops: seq<Op>)
    ensures Inv(Run(ops))
  {
    if ops != [] {
      var files := Run(ops[..|ops| - 1]);
      RunKeepsInv(ops[..|ops| - 1]);
      hide Inv, RegistrationPath;
      match ops[|ops| - 1]
      case AddOp(sandbox, server, command, env) => AddKeepsInv(files, sandbox, server, command, env);
      case AddInSandboxOp(sandbox, server, command, env) => AddKeepsInv(files, sandbox, server, command, env);
      case RemoveOp(sandbox, server) => FewerFilesKeepInv(files, Remove(files, sandbox, server).0);
      case CleanupOp(sandbox) => FewerFilesKeepInv(files, WithoutSandbox(files, sandbox));
    }
  }

  // ---------------------------------------------------------------------------
  // Pairs and paths
  // ---------------------------------------------------------------------------

  /** A pair of names has a file if both are made of lower-case letters, digits and hyphens. */
  lemma RegistrationPathExactly(sandbox: string, server: string, path: string)
    ensures RegistrationPath(sandbox, server) == Ok(path) <==>
      && Slug(sandbox) && Slug(server) && path == sandbox + "-" + server + ".yaml"
  {
    forall name: string ensures ValidName(name) <==> Slug(name) {
      if ValidName(name) {
        assert forall k | 0 <= k < |name| :: name[k] in name;
      }
    }
  }

  predicate Slug(name: string) {
    |name| > 0 && forall k | 0 <= k < |name| :: 'a' <= name[k] <= 'z' || '0' <= name[k] <= '9' || name[k] == '-'
  }

  /** Different pairs of names can share a file. */
  lemma PathsCollide()
    ensures RegistrationPath("a-b", "c") == RegistrationPath("a", "b-c")
    ensures RegistrationPath("a", "b-c").Ok?
  {
    assert FileName("a-b", "c") == "a-b-c.yaml" == FileName("a", "b-c");
  }

  /** No other pair of names has the same file. */
  ghost predicate Unambiguous(sandbox: string, server: string) {
    forall a: string, b: string | ValidName(a) && ValidName(b) && FileName(a, b) == FileName(sandbox, server) ::
      a == sandbox && b == server
  }

  /** A pair of names has its file for itself exactly if no hyphen inside it could be taken for the
      one between the names. */
  lemma UnambiguousExactly(sandbox: string, server: string)
    requires ValidName(sandbox) && ValidName(server)
    ensures Unambiguous(sandbox, server) <==> '-' !in sandbox[1..] && '-' !in server[..|server| - 1]
  {
    if '-' in sandbox[1..] {
      OtherPairBefore(sandbox, server);
    } else if '-' in server[..|server| - 1] {
      OtherPairAfter(sandbox, server);
    } else {
      forall a, b | ValidName(a) && ValidName(b) && FileName(a, b) == FileName(sandbox, server)
        ensures a == sandbox && b == server
      {
        OwnPair(sandbox, server, a, b);
      }
    }
  }

  lemma ValidPart(name: string, i: nat, j: nat)
    requires ValidName(name) && i < j <= |name|
    ensures ValidName(name[i..j])
  {
    forall c <- name[i..j] ensures c in name {
    }
  }

  lemma ValidJoin(a: string, b: string)
    requires (a == "" || ValidName(a)) && (b == "" || ValidName(b))
    ensures ValidName(a + "-" + b)
  {
    forall c <- a + "-" + b ensures c in a || c == '-' || c in b {
    }
  }

  lemma OtherPairBefore(sandbox: string, server: string)
    requires ValidName(sandbox) && ValidName(server) && '-' in sandbox[1..]
    ensures !Unambiguous(sandbox, server)
  {
    var i :| 1 <= i < |sandbox| && sandbox[i] == '-';
    var a, b := sandbox[..i], sandbox[i + 1..] + "-" + server;
    assert FileName(a, b) == FileName(sandbox, server);
    ValidPart(sandbox, 0, i);
    if i + 1 < |sandbox| { ValidPart(sandbox, i + 1, |sandbox|); }
    assert sandbox[i + 1..|sandbox|] == sandbox[i + 1..];
    ValidJoin(sandbox[i + 1..], server);
    assert |a| < |sandbox|;
  }

  lemma OtherPairAfter(sandbox: string, server: string)
    requires ValidName(sandbox) && ValidName(server) && '-' in server[..|server| - 1]
    ensures !Unambiguous(sandbox, server)
  {
    var j :| 0 <= j < |server| - 1 && server[j] == '-';
    var a, b := sandbox + "-" + server[..j], server[j + 1..];
    assert FileName(a, b) == FileName(sandbox, server);
    ValidPart(server, j + 1, |server|);
    assert server[j + 1..|server|] == server[j + 1..];
    if j > 0 { ValidPart(server, 0, j); }
    ValidJoin(sandbox, server[..j]);
    assert |a| > |sandbox|;
  }

  lemma OwnPair(sandbox: string, server: string, a: string, b: string)
    requires sandbox != "" && server != "" && '-' !in sandbox[1..] && '-' !in server[..|server| - 1]
    requires a != "" && b != "" && FileName(a, b) == FileName(sandbox, server)
    ensures a == sandbox && b == server
  {
    var path, n, m := FileName(sandbox, server), |sandbox|, |a|;
    assert path[n] == '-' && path[m] == '-' && |path| == n + 1 + |server| + 5 == m + 1 + |b| + 5;
    assert forall k | 1 <= k < n :: path[k] == sandbox[1..][k - 1];
    assert forall k | n < k < n + |server| :: path[k] == server[..|server| - 1][k - n - 1];
    assert path[..n] == sandbox && path[n + 1..|path| - 5] == server;
    assert path[..m] == a && path[m + 1..|path| - 5] == b;
    assert m == n;
  }
}
