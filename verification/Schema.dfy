/** Blueprints and their validation. */
module Schema {
  import opened Wrappers
  import opened Text
  import opened Floats

  datatype McpTransport = Bridge | InSandbox | StreamableHttp

  datatype McpServerEntry = McpServerEntry(
    name: Option<string>,
    transport: Option<McpTransport>,
    command: Option<string>,
    env: Option<seq<string>>,
    url: Option<string>
  )

  datatype ResourceSpec = ResourceSpec(cpu: Option<string>, memory: Option<string>)

  datatype BlueprintMetadata = BlueprintMetadata(name: Option<string>)

  datatype BlueprintSpec = BlueprintSpec(
    image: Option<string>,
    policy: Option<string>,
    providers: Option<seq<string>>,
    mcpServers: Option<seq<McpServerEntry>>,
    forwards: Option<seq<string>>,
    resources: Option<ResourceSpec>,
    upload: Option<seq<string>>
  )

  datatype Blueprint = Blueprint(
    apiVersion: Option<string>,
    kind: Option<string>,
    metadata: Option<BlueprintMetadata>,
    spec: Option<BlueprintSpec>
  )

  /** The field an error is reported for. */
  datatype Field =
    | ApiVersion
    | Kind
    | Metadata
    | MetadataName
    | Spec
    | SpecImage
    | SpecPolicy
    | ServerName(server: nat)
    | ServerTransport(server: nat)
    | ServerCommand(server: nat)
    | ServerEnv(server: nat)
    | ServerUrl(server: nat)
    | SpecForward(forward: nat)
    | SpecCpu
    | SpecMemory
    | SpecUpload(upload: nat)

  // ---------------------------------------------------------------------------
  // What a valid blueprint is
  // ---------------------------------------------------------------------------

  predicate IsAlnum(c: char) {
    'a' <= c <= 'z' || '0' <= c <= '9'
  }

  predicate ValidName(name: string) {
    && 0 < |name| <= 63
    && (forall c <- name :: IsAlnum(c) || c == '-')
    && IsAlnum(name[0]) && IsAlnum(name[|name| - 1])
  }

  predicate ValidUrl(url: string) {
    "http://" <= url || "https://" <= url
  }

  /** Each transport has the fields it needs and none of those it must not have. */
  predicate ValidTransport(server: McpServerEntry) {
    match server.transport
    case None => false
    case Some(Bridge) => server.command.Some? && server.url.None?
    case Some(InSandbox) => server.command.Some? && server.env.None?
    case Some(StreamableHttp) => server.url.Some? && ValidUrl(server.url.value) && server.command.None?
  }

  predicate NamedServer(server: McpServerEntry) {
    server.name.Some? && server.name.value != ""
  }

  predicate DistinctNames(servers: seq<McpServerEntry>) {
    forall i, j | 0 <= i < j < |servers| :: servers[i].name != servers[j].name
  }

  predicate ValidServers(servers: seq<McpServerEntry>) {
    && (forall server <- servers :: NamedServer(server) && ValidTransport(server))
    && DistinctNames(servers)
  }

  /** What follows the last colon, or the whole specification without one. */
  function PortPart(spec: string): string {
    match RSplitOnce(spec, ":")
    case Some((_, port)) => port
    case None => spec
  }

  predicate ValidForward(spec: string) {
    var port := ParseUnsigned(PortPart(spec), 0xFFFF);
    port.Some? && port.value > 0
  }

  predicate PositiveU64(s: string) {
    var n := ParseUnsigned(s, 0xFFFF_FFFF_FFFF_FFFF);
    n.Some? && n.value > 0
  }

  /** Millicores as a positive integer, or cores as a positive number. */
  predicate ValidCpu(s: string) {
    match StripSuffix(s, "m")
    case Some(millis) => PositiveU64(millis)
    case None => PositiveFinite(s)
  }

  lemma CoresExactly(n: nat)
    ensures ValidCpu(Decimal(n)) <==> 0 < n < Pow(2, 1024) - Pow(2, 970)
    ensures ValidCpu(Decimal(n) + "m") <==> 0 < n <= 0xFFFF_FFFF_FFFF_FFFF
  {
    var s := Decimal(n);
    WholeNumbers(n);
    ParseDecimal(n, 0xFFFF_FFFF_FFFF_FFFF);
    assert StripSuffix(s, "m").None? by {
      assert IsDigit(s[|s| - 1]);
      assert s[|s| - 1..][0] == s[|s| - 1];
    }
    assert (s + "m")[|s|..] == "m" && (s + "m")[..|s|] == s;
    hide PositiveFinite, ParseUnsigned, Decimal, Pow;
  }

  const BINARY_UNITS: seq<string> := ["Ki", "Mi", "Gi", "Ti", "Pi", "Ei"]
  const DECIMAL_UNITS: seq<string> := ["K", "M", "G", "T", "P", "E"]

  /** The text is a positive integer followed by the unit. */
  predicate Quantity(s: string, unit: string) {
    StripSuffix(s, unit).Some? && PositiveU64(StripSuffix(s, unit).value)
  }

  /** A positive integer with some unit, or none. */
  predicate ValidMemory(s: string) {
    || (exists unit <- BINARY_UNITS :: Quantity(s, unit))
    || (exists unit <- DECIMAL_UNITS :: Quantity(s, unit))
    || PositiveU64(s)
  }

  predicate ValidResources(r: ResourceSpec) {
    && (r.cpu.Some? ==> ValidCpu(r.cpu.value))
    && (r.memory.Some? ==> ValidMemory(r.memory.value))
  }

  const SYSTEM_DIRS: seq<string> := ["/etc", "/usr", "/bin", "/sbin"]

  /** The text of the path is that of a system directory, or goes on from there. */
  predicate NamesSystemDir(remote: string) {
    exists dir <- SYSTEM_DIRS :: remote == dir || dir + "/" <= remote
  }

  /** A local and a remote path, the first without "..", the second not naming a system directory. */
  predicate ValidUpload(spec: string) {
    match SplitOnce(spec, ":")
    case None => false
    case Some((local, remote)) =>
      !Contains(local, "..") && !NamesSystemDir(remote)
  }

  predicate ValidSpec(spec: BlueprintSpec) {
    && spec.image.Some? && spec.image.value != ""
    && (spec.policy.Some? ==> !("/" <= spec.policy.value))
    && (spec.mcpServers.Some? ==> ValidServers(spec.mcpServers.value))
    && ValidRest(spec)
  }

  predicate ValidRest(spec: BlueprintSpec) {
    && (spec.forwards.Some? ==> forall forward <- spec.forwards.value :: ValidForward(forward))
    && (spec.resources.Some? ==> ValidResources(spec.resources.value))
    && (spec.upload.Some? ==> forall upload <- spec.upload.value :: ValidUpload(upload))
  }

  predicate Valid(b: Blueprint) {
    && b.apiVersion == Some("darkshell/v1")
    && b.kind == Some("Blueprint")
    && b.metadata.Some? && b.metadata.value.name.Some? && ValidName(b.metadata.value.name.value)
    && b.spec.Some? && ValidSpec(b.spec.value)
  }

  // ---------------------------------------------------------------------------
  // Which fields are wrong
  // ---------------------------------------------------------------------------

  /** The transport of the server, or a field that it needs, or must not have. */
  predicate WrongTransport(server: McpServerEntry, i: nat, f: Field) {
    match f
    case ServerTransport(k) => k == i && server.transport == None
    case ServerCommand(k) =>
      && k == i && server.transport.Some?
      && if server.transport.value == StreamableHttp then server.command.Some? else server.command.None?
    case ServerEnv(k) => k == i && server.transport == Some(InSandbox) && server.env.Some?
    case ServerUrl(k) =>
      && k == i
      && ((server.transport == Some(Bridge) && server.url.Some?)
          || (server.transport == Some(StreamableHttp) && (server.url.None? || !ValidUrl(server.url.value))))
    case _ => false
  }

  /** The name of the server is missing or empty, or an earlier server has it. */
  predicate WrongName(servers: seq<McpServerEntry>, i: nat, f: Field)
    requires i < |servers|
  {
    && f == ServerName(i)
    && (servers[i].name == None || servers[i].name == Some("")
        || exists k | 0 <= k < i :: servers[k].name == servers[i].name)
  }

  predicate WrongServers(servers: seq<McpServerEntry>, n: nat, f: Field)
    requires n <= |servers|
  {
    exists i | 0 <= i < n :: WrongName(servers, i, f) || WrongTransport(servers[i], i, f)
  }

  predicate WrongForwards(forwards: seq<string>, n: nat, f: Field)
    requires n <= |forwards|
  {
    f.SpecForward? && f.forward < n && !ValidForward(forwards[f.forward])
  }

  predicate WrongUploads(uploads: seq<string>, n: nat, f: Field)
    requires n <= |uploads|
  {
    f.SpecUpload? && f.upload < n && !ValidUpload(uploads[f.upload])
  }

  predicate WrongResources(r: ResourceSpec, f: Field) {
    || (f == SpecCpu && r.cpu.Some? && !ValidCpu(r.cpu.value))
    || (f == SpecMemory && r.memory.Some? && !ValidMemory(r.memory.value))
  }

  predicate WrongMetadata(b: Blueprint, f: Field) {
    match b.metadata
    case None => f == Metadata
    case Some(metadata) => f == MetadataName && (metadata.name.None? || !ValidName(metadata.name.value))
  }

  predicate WrongSpec(b: Blueprint, f: Field) {
    match b.spec
    case None => f == Spec
    case Some(spec) =>
      || (f == SpecImage && (spec.image.None? || spec.image.value == ""))
      || (f == SpecPolicy && spec.policy.Some? && "/" <= spec.policy.value)
      || (spec.mcpServers.Some? && WrongServers(spec.mcpServers.value, |spec.mcpServers.value|, f))
      || WrongRest(spec, f)
  }

  predicate WrongRest(spec: BlueprintSpec, f: Field) {
    || (spec.forwards.Some? && WrongForwards(spec.forwards.value, |spec.forwards.value|, f))
    || (spec.resources.Some? && WrongResources(spec.resources.value, f))
    || (spec.upload.Some? && WrongUploads(spec.upload.value, |spec.upload.value|, f))
  }

  /** The field of the blueprint is wrong. */
  predicate Wrong(b: Blueprint, f: Field) {
    || (f == ApiVersion && b.apiVersion != Some("darkshell/v1"))
    || (f == Kind && b.kind != Some("Blueprint"))
    || WrongMetadata(b, f)
    || WrongSpec(b, f)
  }

  // ---------------------------------------------------------------------------
  // The validator
  // ---------------------------------------------------------------------------

  /** The errors collected so far; validators only ever add to them. */
  class ErrorList {
    var errors: seq<Field>

    constructor ()
      ensures errors == []
    {
      errors := [];
    }

    twostate predicate OnlyGrows()
      reads this
    {
      old(errors) <= errors
    }

    method Push(field: Field)
      modifies this
      ensures errors == old(errors) + [field]
    {
      errors := errors + [field];
    }
  }

  method ValidateApiVersion(b: Blueprint, list: ErrorList)
    modifies list
    ensures list.OnlyGrows()
    ensures forall f ::
      f in list.errors <==> f in old(list.errors) || (f == ApiVersion && b.apiVersion != Some("darkshell/v1"))
    ensures list.errors == old(list.errors) <==> b.apiVersion == Some("darkshell/v1")
  {
    match b.apiVersion
    case None => list.Push(ApiVersion);
    case Some(version) =>
      if version != "darkshell/v1" {
        list.Push(ApiVersion);
      }
  }

  method ValidateKind(b: Blueprint, list: ErrorList)
    modifies list
    ensures list.OnlyGrows()
    ensures forall f :: f in list.errors <==> f in old(list.errors) || (f == Kind && b.kind != Some("Blueprint"))
    ensures list.errors == old(list.errors) <==> b.kind == Some("Blueprint")
  {
    match b.kind
    case None => list.Push(Kind);
    case Some(kind) =>
      if kind != "Blueprint" {
        list.Push(Kind);
      }
  }

  method ValidateMetadata(b: Blueprint, list: ErrorList)
    modifies list
    ensures list.OnlyGrows()
    ensures forall f :: f in list.errors <==> f in old(list.errors) || WrongMetadata(b, f)
    ensures list.errors == old(list.errors)
       <==> b.metadata.Some? && b.metadata.value.name.Some? && ValidName(b.metadata.value.name.value)
  {
    match b.metadata
    case None => list.Push(Metadata);
    case Some(metadata) =>
      match metadata.name
      case None => list.Push(MetadataName);
      case Some(name) =>
        if name == "" {
          list.Push(MetadataName);
        } else {
          if |name| > 63 {
            list.Push(MetadataName);
          }
          if !(forall c <- name :: IsAlnum(c) || c == '-') {
            list.Push(MetadataName);
          } else if !IsAlnum(name[0]) || !IsAlnum(name[|name| - 1]) {
            list.Push(MetadataName);
          }
        }
  }

  method ValidateMcpTransport(transport: McpTransport, server: McpServerEntry, i: nat, list: ErrorList)
    requires server.transport == Some(transport)
    modifies list
    ensures list.OnlyGrows()
    ensures forall f :: f in list.errors <==> f in old(list.errors) || WrongTransport(server, i, f)
    ensures list.errors == old(list.errors) <==> ValidTransport(server)
  {
    match transport
    case Bridge =>
      if server.command.None? { list.Push(ServerCommand(i)); }
      if server.url.Some? { list.Push(ServerUrl(i)); }
    case InSandbox =>
      if server.command.None? { list.Push(ServerCommand(i)); }
      if server.env.Some? { list.Push(ServerEnv(i)); }
    case StreamableHttp =>
      match server.url {
        case None => list.Push(ServerUrl(i));
        case Some(url) =>
          if "file://" <= url || "ftp://" <= url || "javascript:" <= url {
            list.Push(ServerUrl(i));
            assert url[0] != 'h';
          } else if !("http://" <= url) && !("https://" <= url) {
            list.Push(ServerUrl(i));
          }
      }
      if server.command.Some? { list.Push(ServerCommand(i)); }
  }

  /** Every entry is checked by itself, and a name against all names seen before it. */
  method ValidateMcpServers(servers: seq<McpServerEntry>, list: ErrorList)
    modifies list
    ensures list.OnlyGrows()
    ensures forall f :: f in list.errors <==> f in old(list.errors) || WrongServers(servers, |servers|, f)
    ensures list.errors == old(list.errors) <==> ValidServers(servers)
  {
    hide ValidUrl;
    var seenNames: map<string, nat> := map[];
    for i := 0 to |servers|
      invariant list.OnlyGrows()
      invariant forall f :: f in list.errors <==> f in old(list.errors) || WrongServers(servers, i, f)
      invariant list.errors == old(list.errors) <==> ValidServers(servers[..i])
      invariant forall name :: name in seenNames ==> exists k | 0 <= k < i :: servers[k].name == Some(name)
      invariant forall k | 0 <= k < i :: NamedServer(servers[k]) ==> servers[k].name.value in seenNames
    {
      var server := servers[i];
      ghost var before := list.errors;
      match server.name {
        case None => list.Push(ServerName(i));
        case Some(name) =>
          if name == "" {
            list.Push(ServerName(i));
          } else if name in seenNames {
            list.Push(ServerName(i));
          } else {
            seenNames := seenNames[name := i];
          }
      }
      assert forall f :: f in list.errors <==> f in before || WrongName(servers, i, f);
      assert list.errors == before
        <==> NamedServer(server) && forall k | 0 <= k < i :: servers[k].name != server.name;
      ghost var named := list.errors;
      match server.transport {
        case None => list.Push(ServerTransport(i));
        case Some(transport) => ValidateMcpTransport(transport, server, i, list);
      }
      assert forall f :: f in list.errors <==> f in named || WrongTransport(server, i, f);
      forall f ensures WrongServers(servers, i + 1, f)
        <==> WrongServers(servers, i, f) || WrongName(servers, i, f) || WrongTransport(server, i, f)
      {
      }
      assert before <= named <= list.errors;
      assert list.errors == old(list.errors) <==> before == old(list.errors) && named == before && list.errors == named;
      ValidServersSnoc(servers, i);
    }
    assert servers[..|servers|] == servers;
  }

  lemma ValidServersSnoc(servers: seq<McpServerEntry>, i: nat)
    requires i < |servers|
    ensures ValidServers(servers[..i + 1])
       <==> && ValidServers(servers[..i])
            && NamedServer(servers[i]) && ValidTransport(servers[i])
            && forall k | 0 <= k < i :: servers[k].name != servers[i].name
  {
    assert servers[..i + 1] == servers[..i] + [servers[i]];
    if ValidServers(servers[..i + 1]) {
      forall k | 0 <= k < i ensures servers[k].name != servers[i].name {
        assert servers[..i + 1][k].name != servers[..i + 1][i].name;
      }
      assert DistinctNames(servers[..i]) by {
        forall a, b | 0 <= a < b < i ensures servers[..i][a].name != servers[..i][b].name {
          assert servers[..i + 1][a].name != servers[..i + 1][b].name;
        }
      }
    }
  }

  method ValidateForwards(forwards: seq<string>, list: ErrorList)
    modifies list
    ensures list.OnlyGrows()
    ensures forall f :: f in list.errors <==> f in old(list.errors) || WrongForwards(forwards, |forwards|, f)
    ensures list.errors == old(list.errors) <==> forall forward <- forwards :: ValidForward(forward)
  {
    hide ValidForward;
    for i := 0 to |forwards|
      invariant list.OnlyGrows()
      invariant forall f :: f in list.errors <==> f in old(list.errors) || WrongForwards(forwards, i, f)
      invariant list.errors == old(list.errors) <==> forall k | 0 <= k < i :: ValidForward(forwards[k])
    {
      if !ValidForward(forwards[i]) {
        list.Push(SpecForward(i));
      }
    }
  }

  /** Reads a quantity by the first unit that fits; the result is the same for any order, because
      the text cannot end in two of them. */
  method IsValidK8sMemory(s: string) returns (valid: bool)
    ensures valid <==> ValidMemory(s)
  {
    if s == "" {
      NoNumber(s);
      return false;
    }
    OneUnit(s);
    for i := 0 to |BINARY_UNITS|
      invariant forall k | 0 <= k < i :: StripSuffix(s, BINARY_UNITS[k]).None?
    {
      match StripSuffix(s, BINARY_UNITS[i])
      case Some(number) =>
        valid := PositiveU64(number);
        assert Quantity(s, BINARY_UNITS[i]) == valid;
        return;
      case None =>
    }
    for i := 0 to |DECIMAL_UNITS|
      invariant forall k | 0 <= k < |BINARY_UNITS| :: StripSuffix(s, BINARY_UNITS[k]).None?
      invariant forall k | 0 <= k < i :: StripSuffix(s, DECIMAL_UNITS[k]).None?
    {
      match StripSuffix(s, DECIMAL_UNITS[i])
      case Some(number) =>
        valid := PositiveU64(number);
        assert Quantity(s, DECIMAL_UNITS[i]) == valid;
        return;
      case None =>
    }
    valid := PositiveU64(s);
  }

  lemma NoNumber(s: string)
    requires s == ""
    ensures !ValidMemory(s)
  {
  }

  /** A text ends in at most one of the units, and then it is no number by itself. */
  lemma OneUnit(s: string)
    ensures forall u, v | (u in BINARY_UNITS || u in DECIMAL_UNITS) && (v in BINARY_UNITS || v in DECIMAL_UNITS) ::
      StripSuffix(s, u).Some? && StripSuffix(s, v).Some? ==> u == v
    ensures forall u | u in BINARY_UNITS || u in DECIMAL_UNITS :: StripSuffix(s, u).Some? ==> !PositiveU64(s)
  {
    forall u | u in BINARY_UNITS || u in DECIMAL_UNITS
      ensures StripSuffix(s, u).Some? ==> !PositiveU64(s)
    {
      if StripSuffix(s, u).Some? {
        LastOfUnit(s, u);
      }
    }
    forall u, v | (u in BINARY_UNITS || u in DECIMAL_UNITS) && (v in BINARY_UNITS || v in DECIMAL_UNITS)
      ensures StripSuffix(s, u).Some? && StripSuffix(s, v).Some? ==> u == v
    {
      if StripSuffix(s, u).Some? && StripSuffix(s, v).Some? {
        SameUnit(s, u, v);
      }
    }
  }

  lemma LastOfUnit(s: string, u: string)
    requires (u in BINARY_UNITS || u in DECIMAL_UNITS) && StripSuffix(s, u).Some?
    ensures !PositiveU64(s)
  {
    assert s[|s| - 1] == s[|s| - |u|..][|u| - 1] == u[|u| - 1];
    assert !IsDigit(u[|u| - 1]);
    assert s[0] == '+' && s[1..] != [] ==> s[1..][|s| - 2] == s[|s| - 1];
  }

  lemma SameUnit(s: string, u: string, v: string)
    requires (u in BINARY_UNITS || u in DECIMAL_UNITS) && (v in BINARY_UNITS || v in DECIMAL_UNITS)
    requires StripSuffix(s, u).Some? && StripSuffix(s, v).Some?
    ensures u == v
  {
    assert s[|s| - |u|..][0] == u[0] && s[|s| - |v|..][0] == v[0];
    assert s[|s| - |u|..][|u| - 1] == u[|u| - 1] && s[|s| - |v|..][|v| - 1] == v[|v| - 1];
  }

  method ValidateResources(r: ResourceSpec, list: ErrorList)
    modifies list
    ensures list.OnlyGrows()
    ensures forall f :: f in list.errors <==> f in old(list.errors) || WrongResources(r, f)
    ensures list.errors == old(list.errors) <==> ValidResources(r)
  {
    if r.cpu.Some? && !ValidCpu(r.cpu.value) {
      list.Push(SpecCpu);
    }
    if r.memory.Some? {
      var valid := IsValidK8sMemory(r.memory.value);
      if !valid {
        list.Push(SpecMemory);
      }
    }
  }

  method ValidateUploads(uploads: seq<string>, list: ErrorList)
    modifies list
    ensures list.OnlyGrows()
    ensures forall f :: f in list.errors <==> f in old(list.errors) || WrongUploads(uploads, |uploads|, f)
    ensures list.errors == old(list.errors) <==> forall upload <- uploads :: ValidUpload(upload)
  {
    for i := 0 to |uploads|
      invariant list.OnlyGrows()
      invariant forall f :: f in list.errors <==> f in old(list.errors) || WrongUploads(uploads, i, f)
      invariant list.errors == old(list.errors) <==> forall k | 0 <= k < i :: ValidUpload(uploads[k])
    {
      ValidateUpload(uploads[i], i, list);
    }
  }

  method ValidateUpload(spec: string, i: nat, list: ErrorList)
    modifies list
    ensures list.OnlyGrows()
    ensures forall f :: f in list.errors <==> f in old(list.errors) || (f == SpecUpload(i) && !ValidUpload(spec))
    ensures list.errors == old(list.errors) <==> ValidUpload(spec)
  {
    hide Contains, SplitOnce;
    match SplitOnce(spec, ":")
    case None => list.Push(SpecUpload(i));
    case Some((local, remote)) =>
      if Contains(local, "..") {
        list.Push(SpecUpload(i));
      }
      for k := 0 to |SYSTEM_DIRS|
        invariant list.OnlyGrows()
        invariant forall f ::
          f in list.errors <==> f in old(list.errors) || (f == SpecUpload(i) && Contains(local, ".."))
        invariant list.errors == old(list.errors) <==> !Contains(local, "..")
        invariant forall j | 0 <= j < k :: remote != SYSTEM_DIRS[j] && !(SYSTEM_DIRS[j] + "/" <= remote)
      {
        if remote == SYSTEM_DIRS[k] || SYSTEM_DIRS[k] + "/" <= remote {
          list.Push(SpecUpload(i));
          break;
        }
      }
  }

  method ValidateSpec(b: Blueprint, list: ErrorList)
    modifies list
    ensures list.OnlyGrows()
    ensures forall f :: f in list.errors <==> f in old(list.errors) || WrongSpec(b, f)
    ensures list.errors == old(list.errors) <==> b.spec.Some? && ValidSpec(b.spec.value)
  {
    hide ValidServers, ValidRest, WrongServers, WrongRest;
    match b.spec
    case None =>
      list.Push(Spec);
    case Some(spec) =>
      if spec.image.None? || spec.image.value == "" {
        list.Push(SpecImage);
      }
      if spec.policy.Some? && "/" <= spec.policy.value {
        list.Push(SpecPolicy);
      }
      if spec.mcpServers.Some? {
        ValidateMcpServers(spec.mcpServers.value, list);
      }
      ghost var before := list.errors;
      ValidateRest(spec, list);
      assert list.errors == old(list.errors) <==> before == old(list.errors) && list.errors == before;
  }

  /** The part of a spec beside image, policy and servers. */
  method ValidateRest(spec: BlueprintSpec, list: ErrorList)
    modifies list
    ensures list.OnlyGrows()
    ensures forall f :: f in list.errors <==> f in old(list.errors) || WrongRest(spec, f)
    ensures list.errors == old(list.errors) <==> ValidRest(spec)
  {
    hide ValidForward, ValidResources, ValidUpload, WrongForwards, WrongResources, WrongUploads;
    if spec.forwards.Some? {
      ValidateForwards(spec.forwards.value, list);
    }
    ghost var forwards := list.errors;
    if spec.resources.Some? {
      ValidateResources(spec.resources.value, list);
    }
    ghost var resources := list.errors;
    if spec.upload.Some? {
      ValidateUploads(spec.upload.value, list);
    }
    assert old(list.errors) <= forwards <= resources <= list.errors;
  }

  /** Collects all errors of a blueprint: every wrong field is reported, and no other. */
  method Validate(b: Blueprint) returns (errors: seq<Field>)
    ensures forall f :: f in errors <==> Wrong(b, f)
    ensures errors == [] <==> Valid(b)
  {
    hide ValidName, ValidSpec, WrongMetadata, WrongSpec;
    var list := new ErrorList();
    ValidateApiVersion(b, list);
    ghost var e1 := list.errors;
    ValidateKind(b, list);
    ghost var e2 := list.errors;
    ValidateMetadata(b, list);
    ghost var e3 := list.errors;
    ValidateSpec(b, list);
    assert e1 <= e2 <= e3 <= list.errors;
    errors := list.errors;
  }

  // ---------------------------------------------------------------------------
  // What names, forwards and memory quantities are
  // ---------------------------------------------------------------------------

  /** Up to 63 lower-case letters, digits and hyphens, with no hyphen at either end. */
  lemma NamesExactly(name: string)
    ensures ValidName(name) <==>
      && 1 <= |name| <= 63
      && (forall k | 0 <= k < |name| :: 'a' <= name[k] <= 'z' || '0' <= name[k] <= '9' || name[k] == '-')
      && name[0] != '-' && name[|name| - 1] != '-'
  {
    assert forall k | 0 <= k < |name| :: name[k] in name;
  }

  /** An address has one of the two schemes of the web, and none of those that are dangerous. */
  lemma UrlsExactly(rest: string)
    ensures ValidUrl("http://" + rest) && ValidUrl("https://" + rest)
    ensures !ValidUrl("file://" + rest) && !ValidUrl("ftp://" + rest) && !ValidUrl("javascript:" + rest)
  {
    assert ("file://" + rest)[0] == 'f' && ("ftp://" + rest)[0] == 'f' && ("javascript:" + rest)[0] == 'j';
  }

  /** The text stands for a number from 1 to `max`. */
  ghost predicate StandsForPositive(s: string, max: nat) {
    exists n, plus, zeros :: 1 <= n <= max && UnsignedForm(s, n, plus, zeros)
  }

  lemma PositiveExactly(s: string, max: nat)
    ensures (ParseUnsigned(s, max).Some? && ParseUnsigned(s, max).value > 0) <==> StandsForPositive(s, max)
  {
    hide ParseUnsigned, UnsignedForm;
    var r := ParseUnsigned(s, max);
    if r.Some? && r.value > 0 {
      ParseUnsignedExact(s, max, r.value);
      var plus, zeros :| UnsignedForm(s, r.value, plus, zeros);
    }
    if n: nat, plus, zeros :| 1 <= n <= max && UnsignedForm(s, n, plus, zeros) {
      ParseUnsignedExact(s, max, n);
    }
  }

  /** A forward is a port from 1 to 65535, after a bind address and a colon or alone. */
  lemma ForwardsExactly(bind: string, port: string)
    requires ':' !in port
    ensures ValidForward(port) <==> StandsForPositive(port, 65535)
    ensures ValidForward(bind + ":" + port) <==> StandsForPositive(port, 65535)
  {
    PositiveExactly(port, 65535);
    RSplitOnceMeans(bind + ":" + port, ':', bind, port);
    forall i | 0 <= i <= |port| ensures !(":" <= port[i..]) {
      assert i < |port| ==> port[i..][0] == port[i];
    }
    hide ParseUnsigned, RSplitOnce, StandsForPositive;
  }

  /** A memory quantity is a positive 64-bit integer with one of these units, or none. */
  lemma MemoryExactly(s: string)
    ensures ValidMemory(s) <==> exists number, unit ::
      && s == number + unit && StandsForPositive(number, 0xFFFF_FFFF_FFFF_FFFF)
      && unit in ["", "Ki", "Mi", "Gi", "Ti", "Pi", "Ei", "K", "M", "G", "T", "P", "E"]
  {
    hide StandsForPositive, PositiveU64, Quantity;
    forall unit: string
      ensures Quantity(s, unit) <==>
        exists number :: s == number + unit && StandsForPositive(number, 0xFFFF_FFFF_FFFF_FFFF)
    {
      QuantityExactly(s, unit);
    }
    WithoutUnit(s);
    var units := ["", "Ki", "Mi", "Gi", "Ti", "Pi", "Ei", "K", "M", "G", "T", "P", "E"];
    assert units == [""] + BINARY_UNITS + DECIMAL_UNITS;
    if number, unit :| s == number + unit && StandsForPositive(number, 0xFFFF_FFFF_FFFF_FFFF) && unit in units {
      assert Quantity(s, unit);
    }
    if ValidMemory(s) {
      var unit :| unit in [""] + BINARY_UNITS + DECIMAL_UNITS && Quantity(s, unit);
    }
  }

  lemma WithoutUnit(s: string)
    ensures Quantity(s, "") <==> PositiveU64(s)
  {
    assert s[|s|..] == "" && s[..|s|] == s;
  }

  lemma QuantityExactly(s: string, unit: string)
    ensures Quantity(s, unit) <==>
      exists number :: s == number + unit && StandsForPositive(number, 0xFFFF_FFFF_FFFF_FFFF)
  {
    hide StandsForPositive, ParseUnsigned;
    forall number ensures PositiveU64(number) <==> StandsForPositive(number, 0xFFFF_FFFF_FFFF_FFFF) {
      PositiveExactly(number, 0xFFFF_FFFF_FFFF_FFFF);
    }
    hide PositiveU64;
    if StripSuffix(s, unit).Some? {
      assert s == StripSuffix(s, unit).value + unit;
    }
    if number :| s == number + unit && StandsForPositive(number, 0xFFFF_FFFF_FFFF_FFFF) {
      assert s[|s| - |unit|..] == unit && s[..|s| - |unit|] == number;
    }
  }
}
