/** Creating a sandbox from a blueprint: plan, execute step by step against a gateway, and undo
    in reverse what was done when a step fails. */
module Orchestrator {
  import opened Wrappers
  import opened Schema

  // ---------------------------------------------------------------------------
  // The plan
  // ---------------------------------------------------------------------------

  datatype BridgePlan = BridgePlan(name: string, command: string, env: seq<string>)

  datatype InSandboxPlan = InSandboxPlan(name: string, command: string)

  datatype StreamableHttpPlan = StreamableHttpPlan(name: string, url: string)

  datatype Plan = Plan(
    sandboxName: string,
    image: string,
    policy: Option<string>,
    providers: seq<string>,
    bridgeServers: seq<BridgePlan>,
    inSandboxServers: seq<InSandboxPlan>,
    streamableHttpServers: seq<StreamableHttpPlan>,
    forwards: seq<string>,
    resources: Option<ResourceSpec>,
    uploads: seq<string>
  )

  datatype PlanError = InvalidBlueprint | EmptyImage

  /** The entry has what the planner takes from it. */
  predicate PlannableServer(server: McpServerEntry) {
    && server.name.Some? && server.transport.Some?
    && (server.transport.value.StreamableHttp? ==> server.url.Some?)
    && (!server.transport.value.StreamableHttp? ==> server.command.Some?)
  }

  predicate AllPlannable(servers: seq<McpServerEntry>) {
    forall k | 0 <= k < |servers| :: PlannableServer(servers[k])
  }

  predicate Plannable(b: Blueprint) {
    && b.metadata.Some? && b.metadata.value.name.Some?
    && b.spec.Some?
    && b.spec.value.image.Some? && b.spec.value.image.value != ""
    && AllPlannable(Servers(b))
  }

  function Servers(b: Blueprint): seq<McpServerEntry> {
    if b.spec.Some? && b.spec.value.mcpServers.Some? then b.spec.value.mcpServers.value else []
  }

  function OrEmpty(o: Option<seq<string>>): seq<string> {
    if o.Some? then o.value else []
  }

  /** The positions of the servers with the given transport, in order. */
  function Select(servers: seq<McpServerEntry>, t: McpTransport): (r: seq<nat>)
    ensures forall j | 0 <= j < |r| :: r[j] < |servers| && servers[r[j]].transport == Some(t)
  {
    if servers == [] then []
    else
      var n := |servers| - 1;
      Select(servers[..n], t) + if servers[n].transport == Some(t) then [n] else []
  }

  /** A selection is the stable subsequence: increasing positions, and all that qualify. */
  lemma {:induction false} SelectExact(servers: seq<McpServerEntry>, t: McpTransport)
    ensures var r := Select(servers, t);
      && (forall i, j | 0 <= i < j < |r| :: r[i] < r[j])
      && (forall k: nat :: k in r <==> k < |servers| && servers[k].transport == Some(t))
  {
    if servers != [] {
      var n := |servers| - 1;
      SelectExact(servers[..n], t);
      var before := Select(servers[..n], t);
      assert forall j | 0 <= j < |before| :: before[j] < n;
    }
  }

  function BridgePlanOf(server: McpServerEntry): BridgePlan
    requires PlannableServer(server) && server.transport == Some(Bridge)
  {
    BridgePlan(server.name.value, server.command.value, OrEmpty(server.env))
  }

  function InSandboxPlanOf(server: McpServerEntry): InSandboxPlan
    requires PlannableServer(server) && server.transport == Some(InSandbox)
  {
    InSandboxPlan(server.name.value, server.command.value)
  }

  function StreamableHttpPlanOf(server: McpServerEntry): StreamableHttpPlan
    requires PlannableServer(server) && server.transport == Some(StreamableHttp)
  {
    StreamableHttpPlan(server.name.value, server.url.value)
  }

  /** The three lists of a plan are the planned servers of each transport, in order. */
  ghost predicate PlansServers(
    servers: seq<McpServerEntry>, bridges: seq<BridgePlan>,
    inSandbox: seq<InSandboxPlan>, https: seq<StreamableHttpPlan>)
    requires AllPlannable(servers)
  {
    var b, i, h := Select(servers, Bridge), Select(servers, InSandbox), Select(servers, StreamableHttp);
    && |bridges| == |b| && (forall k | 0 <= k < |b| :: bridges[k] == BridgePlanOf(servers[b[k]]))
    && |inSandbox| == |i| && (forall k | 0 <= k < |i| :: inSandbox[k] == InSandboxPlanOf(servers[i[k]]))
    && |https| == |h| && (forall k | 0 <= k < |h| :: https[k] == StreamableHttpPlanOf(servers[h[k]]))
  }

  /** The plan says what the blueprint says. */
  ghost predicate PlanOf(b: Blueprint, p: Plan) {
    && Plannable(b)
    && p.sandboxName == b.metadata.value.name.value
    && p.image == b.spec.value.image.value
    && p.policy == b.spec.value.policy
    && p.providers == OrEmpty(b.spec.value.providers)
    && p.forwards == OrEmpty(b.spec.value.forwards)
    && p.uploads == OrEmpty(b.spec.value.upload)
    && p.resources == b.spec.value.resources
    && PlansServers(Servers(b), p.bridgeServers, p.inSandboxServers, p.streamableHttpServers)
  }

  method BuildPlan(b: Blueprint) returns (r: Result<Plan, PlanError>)
    ensures r.Ok? <==> Plannable(b)
    ensures r == Err(EmptyImage)
       <==> && b.metadata.Some? && b.metadata.value.name.Some? && b.spec.Some?
            && (b.spec.value.image.None? || b.spec.value.image.value == "")
    ensures r.Ok? ==> PlanOf(b, r.value)
  {
    if b.metadata.None? || b.spec.None? || b.metadata.value.name.None? {
      return Err(InvalidBlueprint);
    }
    var spec := b.spec.value;
    if spec.image.None? || spec.image.value == "" {
      return Err(EmptyImage);
    }
    var servers := PlanServers(Servers(b));
    if servers.Err? {
      return Err(servers.error);
    }
    var (bridges, inSandbox, https) := servers.value;
    r := Ok(Plan(b.metadata.value.name.value, spec.image.value, spec.policy, OrEmpty(spec.providers),
                 bridges, inSandbox, https, OrEmpty(spec.forwards), spec.resources, OrEmpty(spec.upload)));
  }

  /** The loop that sorts the servers of a blueprint into the three lists. */
  method PlanServers(servers: seq<McpServerEntry>)
    returns (r: Result<(seq<BridgePlan>, seq<InSandboxPlan>, seq<StreamableHttpPlan>), PlanError>)
    ensures r.Ok? <==> AllPlannable(servers)
    ensures r.Ok? ==> PlansServers(servers, r.value.0, r.value.1, r.value.2)
    ensures r.Err? ==> r.error == InvalidBlueprint
  {
    var bridges: seq<BridgePlan> := [];
    var inSandbox: seq<InSandboxPlan> := [];
    var https: seq<StreamableHttpPlan> := [];
    for n := 0 to |servers|
      invariant AllPlannable(servers[..n])
      invariant PlansServers(servers[..n], bridges, inSandbox, https)
    {
      var server := servers[n];
      assert servers[..n + 1] == servers[..n] + [server];
      if !PlannableServer(server) {
        return Err(InvalidBlueprint);
      }
      PlansServersSnoc(servers, n, bridges, inSandbox, https);
      match server.transport.value
      case Bridge => bridges := bridges + [BridgePlanOf(server)];
      case InSandbox => inSandbox := inSandbox + [InSandboxPlanOf(server)];
      case StreamableHttp => https := https + [StreamableHttpPlanOf(server)];
    }
    assert servers[..|servers|] == servers;
    r := Ok((bridges, inSandbox, https));
  }

  lemma PlansServersSnoc(servers: seq<McpServerEntry>, n: nat, bridges: seq<BridgePlan>,
                         inSandbox: seq<InSandboxPlan>, https: seq<StreamableHttpPlan>)
    requires n < |servers|
    requires AllPlannable(servers[..n + 1])
    requires AllPlannable(servers[..n])
    requires PlannableServer(servers[n])
    requires PlansServers(servers[..n], bridges, inSandbox, https)
    ensures match servers[n].transport.value
      case Bridge => PlansServers(servers[..n + 1], bridges + [BridgePlanOf(servers[n])], inSandbox, https)
      case InSandbox => PlansServers(servers[..n + 1], bridges, inSandbox + [InSandboxPlanOf(servers[n])], https)
      case StreamableHttp =>
        PlansServers(servers[..n + 1], bridges, inSandbox, https + [StreamableHttpPlanOf(servers[n])])
  {
    assert servers[..n + 1][..n] == servers[..n] && servers[..n + 1][n] == servers[n];
  }

  /** Validation makes planning total: a blueprint without errors can always be planned. */
  lemma ValidIsPlannable(b: Blueprint)
    requires Valid(b)
    ensures Plannable(b)
  {
    var servers := Servers(b);
    forall k | 0 <= k < |servers| ensures PlannableServer(servers[k]) {
      assert servers[k] in servers;
    }
  }

  /** No server is lost or planned twice. */
  lemma {:induction false} SelectionsPartition(servers: seq<McpServerEntry>)
    requires forall server <- servers :: server.transport.Some?
    ensures |Select(servers, Bridge)| + |Select(servers, InSandbox)| + |Select(servers, StreamableHttp)| == |servers|
  {
    if servers != [] {
      var n := |servers| - 1;
      assert servers[n] in servers;
      SelectionsPartition(servers[..n]);
      match servers[n].transport.value
      case Bridge =>
      case InSandbox =>
      case StreamableHttp =>
    }
  }

  /** All server names of a plan: first the bridges, then in-sandbox, then streamable-http. */
  function PlannedNames(p: Plan): seq<string> {
    seq(|p.bridgeServers|, k requires 0 <= k < |p.bridgeServers| => p.bridgeServers[k].name)
    + seq(|p.inSandboxServers|, k requires 0 <= k < |p.inSandboxServers| => p.inSandboxServers[k].name)
    + seq(|p.streamableHttpServers|, k requires 0 <= k < |p.streamableHttpServers| => p.streamableHttpServers[k].name)
  }

  lemma PlanKeepsNames(servers: seq<McpServerEntry>, bridges: seq<BridgePlan>,
                       inSandbox: seq<InSandboxPlan>, https: seq<StreamableHttpPlan>)
    requires AllPlannable(servers)
    requires PlansServers(servers, bridges, inSandbox, https)
    ensures forall k | 0 <= k < |bridges| :: servers[Select(servers, Bridge)[k]].name == Some(bridges[k].name)
    ensures forall k | 0 <= k < |inSandbox| :: servers[Select(servers, InSandbox)[k]].name == Some(inSandbox[k].name)
    ensures forall k | 0 <= k < |https| :: servers[Select(servers, StreamableHttp)[k]].name == Some(https[k].name)
  {
  }

  /** In the plan of a valid blueprint every server appears once and no two names are equal. */
  lemma ValidPlanNames(b: Blueprint, p: Plan)
    requires Valid(b) && PlanOf(b, p)
    ensures |PlannedNames(p)| == |Servers(b)|
    ensures forall i, j | 0 <= i < j < |PlannedNames(p)| :: PlannedNames(p)[i] != PlannedNames(p)[j]
  {
    var servers, names := Servers(b), PlannedNames(p);
    SelectionsPartition(servers);
    SelectionsDiffer(servers);
    var at := Selections(servers);
    PlannedNamesAt(servers, p);
    forall i, j | 0 <= i < j < |names| ensures names[i] != names[j] {
      assert at[i] != at[j];
      assert servers[at[i]].name != servers[at[j]].name;
    }
  }

  /** The positions of all servers, transport by transport. */
  function Selections(servers: seq<McpServerEntry>): seq<nat> {
    Select(servers, Bridge) + Select(servers, InSandbox) + Select(servers, StreamableHttp)
  }

  lemma SelectionsDiffer(servers: seq<McpServerEntry>)
    ensures var at := Selections(servers);
      && (forall i | 0 <= i < |at| :: at[i] < |servers|)
      && (forall i, j | 0 <= i < j < |at| :: at[i] != at[j])
  {
    SelectExact(servers, Bridge);
    SelectExact(servers, InSandbox);
    SelectExact(servers, StreamableHttp);
    hide Select;
  }

  lemma PlannedNamesAt(servers: seq<McpServerEntry>, p: Plan)
    requires AllPlannable(servers)
    requires PlansServers(servers, p.bridgeServers, p.inSandboxServers, p.streamableHttpServers)
    ensures |PlannedNames(p)| == |Selections(servers)|
    ensures forall k | 0 <= k < |PlannedNames(p)| ::
      Selections(servers)[k] < |servers| && servers[Selections(servers)[k]].name == Some(PlannedNames(p)[k])
  {
    var names, at := PlannedNames(p), Selections(servers);
    var x, y, z := Select(servers, Bridge), Select(servers, InSandbox), Select(servers, StreamableHttp);
    PlanKeepsNames(servers, p.bridgeServers, p.inSandboxServers, p.streamableHttpServers);
    forall k | 0 <= k < |names| ensures at[k] < |servers| && servers[at[k]].name == Some(names[k]) {
      if k < |x| {
        assert at[k] == x[k];
      } else if k < |x| + |y| {
        assert at[k] == y[k - |x|];
      } else {
        assert at[k] == z[k - |x| - |y|];
      }
    }
  }

  // ---------------------------------------------------------------------------
  // What a plan takes from the blueprint
  // ---------------------------------------------------------------------------

  /** How many servers have this transport. */
  function Earlier(servers: seq<McpServerEntry>, t: McpTransport): nat {
    if servers == [] then 0
    else Earlier(servers[..|servers| - 1], t) + if servers[|servers| - 1].transport == Some(t) then 1 else 0
  }

  lemma {:induction false} SelectCounts(servers: seq<McpServerEntry>, t: McpTransport)
    ensures |Select(servers, t)| == Earlier(servers, t)
    ensures forall i | 0 <= i < |servers| && servers[i].transport == Some(t) ::
      Earlier(servers[..i], t) < |Select(servers, t)| && Select(servers, t)[Earlier(servers[..i], t)] == i
  {
    if servers != [] {
      var n := |servers| - 1;
      assert Earlier(servers, t) == Earlier(servers[..n], t) + if servers[n].transport == Some(t) then 1 else 0;
      SelectCounts(servers[..n], t);
      forall i: nat | i <= n ensures servers[..n][..i] == servers[..i] {
      }
      var before, now := Select(servers[..n], t), Select(servers, t);
      assert servers[n].transport == Some(t) ==> now == before + [n];
      assert servers[n].transport != Some(t) ==> now == before;
      hide Select, Earlier;
    }
  }

  /** A plan holds the lists of the blueprint, a missing one as an empty one; and for every server of
      the blueprint, as many places down the list of its transport as there are servers of that
      transport before it, a server with its name, command and environment, or its address. */
  lemma PlanSays(b: Blueprint, p: Plan)
    requires PlanOf(b, p)
    ensures b.metadata.value.name == Some(p.sandboxName) && b.spec.value.image == Some(p.image)
    ensures b.spec.value.policy == p.policy && b.spec.value.resources == p.resources
    ensures p.providers == match b.spec.value.providers case Some(s) => s case None => []
    ensures p.forwards == match b.spec.value.forwards case Some(s) => s case None => []
    ensures p.uploads == match b.spec.value.upload case Some(s) => s case None => []
    ensures b.spec.value.mcpServers.None? ==>
      p.bridgeServers == [] && p.inSandboxServers == [] && p.streamableHttpServers == []
    ensures b.spec.value.mcpServers.Some? ==>
      var servers := b.spec.value.mcpServers.value;
      && |p.bridgeServers| == Earlier(servers, Bridge)
      && |p.inSandboxServers| == Earlier(servers, InSandbox)
      && |p.streamableHttpServers| == Earlier(servers, StreamableHttp)
      && forall i | 0 <= i < |servers| :: Placed(servers, i, p)
  {
    var servers := Servers(b);
    SelectCounts(servers, Bridge);
    SelectCounts(servers, InSandbox);
    SelectCounts(servers, StreamableHttp);
    assert forall t :: Earlier([], t) == 0;
    hide Select, Earlier;
    forall i | 0 <= i < |servers| ensures Placed(servers, i, p) {
      assert PlannableServer(servers[i]);
    }
  }

  /** The `i`-th server has its place in the plan. */
  predicate Placed(servers: seq<McpServerEntry>, i: nat, p: Plan)
    requires i < |servers|
  {
    var server := servers[i];
    match server.transport
    case None => false
    case Some(Bridge) =>
      var k := Earlier(servers[..i], Bridge);
      && k < |p.bridgeServers|
      && server.name == Some(p.bridgeServers[k].name) && server.command == Some(p.bridgeServers[k].command)
      && p.bridgeServers[k].env == (match server.env case Some(env) => env case None => [])
    case Some(InSandbox) =>
      var k := Earlier(servers[..i], InSandbox);
      && k < |p.inSandboxServers|
      && server.name == Some(p.inSandboxServers[k].name) && server.command == Some(p.inSandboxServers[k].command)
    case Some(StreamableHttp) =>
      var k := Earlier(servers[..i], StreamableHttp);
      && k < |p.streamableHttpServers|
      && server.name == Some(p.streamableHttpServers[k].name)
      && server.url == Some(p.streamableHttpServers[k].url)
  }

  /** What a blueprint needs to be planned. */
  lemma PlannableExactly(b: Blueprint)
    ensures Plannable(b) <==>
      && b.metadata.Some? && b.metadata.value.name.Some? && b.spec.Some?
      && b.spec.value.image.Some? && b.spec.value.image.value != ""
      && (b.spec.value.mcpServers.Some? ==>
            forall k | 0 <= k < |b.spec.value.mcpServers.value| ::
              var server := b.spec.value.mcpServers.value[k];
              && server.name.Some? && server.transport.Some?
              && (if server.transport == Some(StreamableHttp) then server.url.Some? else server.command.Some?))
  {
  }
}
