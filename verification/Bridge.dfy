/** The MCP bridge: concurrent HTTP handlers that share one server process through a mutex.
    Every handler parses its request, passes the tool policy in force at that moment, takes the
    mutex, writes one line to the server and reads one line back, or gives up waiting. */
module Bridge {
  import opened Wrappers
  import opened ToolPolicy

  type Id = nat

  datatype Line = Line(id: Id, request: Json)

  /** The server's answer to a line. */
  datatype Answer = Answer(to: Line)

  /** The pipes of one server process, and what went through them since it was spawned. */
  datatype Process = Process(
    stdin: seq<Line>,      // written, not yet taken by the server
    stdout: seq<Answer>,   // answered, not yet read by the bridge
    written: seq<Line>,    // all lines written
    received: seq<Answer>, // all lines read
    missed: nat            // reads that ended without a line
  )

  const FRESH: Process := Process([], [], [], [], 0)

  datatype Reply =
    | BadRequest
    | Denied
    | Nameless
    | NotRunning
    | Replied(answer: Answer)
    | TimedOut

  datatype Phase =
    | Arrived(request: Json)
    | Cleared(request: Json)
    | Holding(request: Json)
    | Finished(reply: Reply)

  datatype State = State(
    handlers: map<Id, Phase>,
    holder: Option<Id>,               // who has the mutex
    process: Option<Process>,
    policy: McpPolicyFile,            // in force now
    retired: seq<McpPolicyFile>,      // in force before, oldest first
    arrivedUnder: map<Id, nat>,       // the policy in force when the handler started
    judgedUnder: map<Id, nat>,        // the policy a tool call was judged by
    pipe: seq<Line>                   // every line ever written to any server process
  )

  /** What does not change: the name of the server and the pattern language. */
  datatype Config = Config(server: string, matcher: Matcher)

  datatype Event =
    | Arrive(id: Id, body: Body)
    | Gate(id: Id)
    | LockAndWrite(id: Id)
    | Serve
    | Read(id: Id)
    | GiveUp(id: Id)
    | Restart
    | Shutdown
    | Reload(policy: McpPolicyFile)

  predicate Initial(s: State) {
    && s.handlers == map[] && s.holder == None && s.arrivedUnder == map[] && s.judgedUnder == map[]
    && s.process == Some(FRESH) && s.retired == [] && s.pipe == []
  }

  predicate Enabled(s: State, e: Event) {
    match e
    case Arrive(id, _) => id !in s.handlers
    case Gate(id) => id in s.handlers && s.handlers[id].Arrived?
    case LockAndWrite(id) => s.holder == None && id in s.handlers && s.handlers[id].Cleared?
    case Serve => s.process.Some? && s.process.value.stdin != []
    case Read(id) =>
      s.holder == Some(id) && id in s.handlers && s.process.Some? && s.process.value.stdout != []
    case GiveUp(id) => s.holder == Some(id) && id in s.handlers && s.process.Some?
    case Restart => s.holder == None
    case Shutdown => s.holder == None
    case Reload(_) => true
  }

  function Next(c: Config, s: State, e: Event): State
    requires Enabled(s, e)
  {
    match e
    case Arrive(id, body) => Start(s, id, body)
    case Gate(id) => PassGate(c, s, id)
    case LockAndWrite(id) => Write(s, id)
    case Serve => ServeLine(s)
    case Read(id) => ReadLine(s, id)
    case GiveUp(id) => MissLine(s, id)
    case Restart => s.(process := Some(FRESH))
    case Shutdown => s.(process := None)
    case Reload(policy) => s.(policy := policy, retired := s.retired + [s.policy])
  }

  function Start(s: State, id: Id, body: Body): State {
    var phase :=
      match ParseJsonRpcRequest(body)
      case None => Finished(BadRequest)
      case Some(request) => Arrived(request);
    s.(arrivedUnder := s.arrivedUnder[id := |s.retired|], handlers := s.handlers[id := phase])
  }

  function Write(s: State, id: Id): State
    requires id in s.handlers && s.handlers[id].Cleared?
  {
    var request := s.handlers[id].request;
    if s.process.None? then s.(handlers := s.handlers[id := Finished(NotRunning)])
    else
      var p, line := s.process.value, Line(id, request);
      s.(holder := Some(id),
         handlers := s.handlers[id := Holding(request)],
         process := Some(p.(stdin := p.stdin + [line], written := p.written + [line])),
         pipe := s.pipe + [line])
  }

  function ServeLine(s: State): State
    requires s.process.Some? && s.process.value.stdin != []
  {
    var p := s.process.value;
    s.(process := Some(p.(stdin := p.stdin[1..], stdout := p.stdout + [Answer(p.stdin[0])])))
  }

  function ReadLine(s: State, id: Id): State
    requires s.process.Some? && s.process.value.stdout != []
  {
    var p := s.process.value;
    s.(holder := None,
       handlers := s.handlers[id := Finished(Replied(p.stdout[0]))],
       process := Some(p.(stdout := p.stdout[1..], received := p.received + [p.stdout[0]])))
  }

  function MissLine(s: State, id: Id): State
    requires s.process.Some?
  {
    var p := s.process.value;
    s.(holder := None,
       handlers := s.handlers[id := Finished(TimedOut)],
       process := Some(p.(missed := p.missed + 1)))
  }

  /** The policy check of a handler: one snapshot of the policy decides. */
  function PassGate(c: Config, s: State, id: Id): State
    requires id in s.handlers && s.handlers[id].Arrived?
  {
    var request := s.handlers[id].request;
    match ExtractToolCallName(request)
    case Some(tool) =>
      var judged := s.(judgedUnder := s.judgedUnder[id := |s.retired|]);
      if FileAllows(c.matcher, s.policy, c.server, tool)
      then judged.(handlers := s.handlers[id := Cleared(request)])
      else judged.(handlers := s.handlers[id := Finished(Denied)])
    case None =>
      if IsToolCall(request) then s.(handlers := s.handlers[id := Finished(Nameless)])
      else s.(handlers := s.handlers[id := Cleared(request)])
  }

  /** Every policy ever installed, in order. */
  function Policies(s: State): seq<McpPolicyFile> {
    s.retired + [s.policy]
  }

  /** The states of an execution: any interleaving of enabled events from an initial state. */
  ghost predicate Execution(c: Config, run: seq<State>) {
    && run != [] && Initial(run[0])
    && forall n | 0 < n < |run| :: Follows(c, run[n - 1], run[n])
  }

  ghost predicate Follows(c: Config, s: State, s': State) {
    exists e :: Enabled(s, e) && s' == Next(c, s, e)
  }

  // ---------------------------------------------------------------------------
  // What every step keeps
  // ---------------------------------------------------------------------------

  function LinesOf(answers: seq<Answer>): (lines: seq<Line>)
    ensures |lines| == |answers|
    ensures forall k | 0 <= k < |lines| :: lines[k] == answers[k].to
  {
    seq(|answers|, k requires 0 <= k < |answers| => answers[k].to)
  }

  /** Everything written has been read, waits to be read, or waits for the server, in order; and
      the reads lag behind the writes by the reads that were missed. */
  predicate PipesInOrder(process: Option<Process>, held: bool) {
    process.Some? ==>
      var p := process.value;
      && p.written == LinesOf(p.received) + LinesOf(p.stdout) + p.stdin
      && |p.written| == |p.received| + p.missed + if held then 1 else 0
  }

  /** Exactly the holder of the mutex is between its write and its read. */
  predicate OneHolder(handlers: map<Id, Phase>, holder: Option<Id>) {
    && (forall id <- handlers :: handlers[id].Holding? ==> holder == Some(id))
    && (holder.Some? ==> holder.value in handlers && handlers[holder.value].Holding?)
  }

  /** The last line written is the holder's. */
  predicate HolderWrote(handlers: map<Id, Phase>, holder: Option<Id>, process: Option<Process>)
    requires OneHolder(handlers, holder)
  {
    holder.Some? ==>
      && process.Some? && process.value.written != []
      && process.value.written[|process.value.written| - 1] == Line(holder.value, handlers[holder.value].request)
  }

  predicate PastTheGate(p: Phase) {
    p.Holding? || (p.Finished? && (p.reply.Replied? || p.reply.TimedOut?))
  }

  /** Every line in the pipe is from a handler past the gate. */
  predicate PipeOwners(handlers: map<Id, Phase>, pipe: seq<Line>) {
    forall line <- pipe :: line.id in handlers && PastTheGate(handlers[line.id])
  }

  /** A handler writes at most one line. */
  predicate WritesOnce(pipe: seq<Line>) {
    forall i, j | 0 <= i < j < |pipe| :: pipe[i].id != pipe[j].id
  }

  /** What the current process got is the end of what was ever written. */
  predicate WrittenLast(process: Option<Process>, pipe: seq<Line>) {
    process.Some? ==>
      && |process.value.written| <= |pipe|
      && process.value.written == pipe[|pipe| - |process.value.written|..]
  }

  /** Which policies there were, and under which of them a handler started and was judged. */
  datatype Judging = Judging(policies: seq<McpPolicyFile>, arrivedUnder: map<Id, nat>, judgedUnder: map<Id, nat>)

  function JudgingOf(s: State): Judging {
    Judging(Policies(s), s.arrivedUnder, s.judgedUnder)
  }

  /** The request is no tool call, or a named one that the policy the handler was judged by
      allows; that policy was in force at some moment after the handler started. */
  predicate Permitted(c: Config, j: Judging, id: Id, request: Json) {
    IsToolCall(request) ==>
      && ExtractToolCallName(request).Some?
      && id in j.arrivedUnder && id in j.judgedUnder
      && j.arrivedUnder[id] <= j.judgedUnder[id] < |j.policies|
      && FileAllows(c.matcher, j.policies[j.judgedUnder[id]], c.server, ExtractToolCallName(request).value)
  }

  predicate Arrivals(handlers: map<Id, Phase>, j: Judging) {
    forall id <- handlers :: id in j.arrivedUnder && j.arrivedUnder[id] < |j.policies|
  }

  predicate ClearedPermitted(c: Config, handlers: map<Id, Phase>, j: Judging) {
    forall id <- handlers | handlers[id].Cleared? || handlers[id].Holding? ::
      Permitted(c, j, id, handlers[id].request)
  }

  predicate PipePermitted(c: Config, pipe: seq<Line>, j: Judging) {
    forall line <- pipe :: Permitted(c, j, line.id, line.request)
  }

  ghost predicate Inv(c: Config, s: State) {
    && OneHolder(s.handlers, s.holder)
    && HolderWrote(s.handlers, s.holder, s.process)
    && PipesInOrder(s.process, s.holder.Some?)
    && PipeOwners(s.handlers, s.pipe)
    && WritesOnce(s.pipe)
    && WrittenLast(s.process, s.pipe)
    && Arrivals(s.handlers, JudgingOf(s))
    && ClearedPermitted(c, s.handlers, JudgingOf(s))
    && PipePermitted(c, s.pipe, JudgingOf(s))
  }

  /** What a handler was judged by stays, whatever happens to the others. */
  lemma PermittedStays(c: Config, j: Judging, j': Judging, id: Id, request: Json)
    requires Permitted(c, j, id, request) && j.policies <= j'.policies
    requires id in j.arrivedUnder ==> id in j'.arrivedUnder && j'.arrivedUnder[id] == j.arrivedUnder[id]
    requires id in j.judgedUnder ==> id in j'.judgedUnder && j'.judgedUnder[id] == j.judgedUnder[id]
    ensures Permitted(c, j', id, request)
  {
    hide FileAllows, ExtractToolCallName, IsToolCall;
  }

  lemma KeptByStart(c: Config, s: State, id: Id, body: Body)
    requires Inv(c, s) && Enabled(s, Arrive(id, body))
    ensures Inv(c, Next(c, s, Arrive(id, body)))
  {
    var s' := Next(c, s, Arrive(id, body));
    JudgingStays(c, s, s', {id});
    hide Permitted, PipesInOrder, WritesOnce, WrittenLast, ParseJsonRpcRequest, PipePermitted, ClearedPermitted;
  }

  /** The judging of all handlers but the given ones, which have no line and no clearance yet,
      is unchanged or only extended. */
  lemma JudgingStays(c: Config, s: State, s': State, newcomers: set<Id>)
    requires ClearedPermitted(c, s.handlers, JudgingOf(s)) && PipePermitted(c, s.pipe, JudgingOf(s))
    requires PipeOwners(s.handlers, s.pipe) && Policies(s) <= Policies(s')
    requires forall id <- newcomers :: id in s.handlers ==> s.handlers[id].Arrived?
    requires forall id <- newcomers :: id in s'.handlers && !s'.handlers[id].Cleared? && !s'.handlers[id].Holding?
    requires forall id <- s'.handlers | id !in newcomers :: id in s.handlers && s'.handlers[id] == s.handlers[id]
    requires forall id <- s.arrivedUnder | id !in newcomers ::
      id in s'.arrivedUnder && s'.arrivedUnder[id] == s.arrivedUnder[id]
    requires forall id <- s.judgedUnder | id !in newcomers ::
      id in s'.judgedUnder && s'.judgedUnder[id] == s.judgedUnder[id]
    requires s'.pipe == s.pipe
    ensures ClearedPermitted(c, s'.handlers, JudgingOf(s')) && PipePermitted(c, s'.pipe, JudgingOf(s'))
  {
    hide Permitted;
    forall id <- s'.handlers | s'.handlers[id].Cleared? || s'.handlers[id].Holding?
      ensures Permitted(c, JudgingOf(s'), id, s'.handlers[id].request)
    {
      PermittedStays(c, JudgingOf(s), JudgingOf(s'), id, s'.handlers[id].request);
    }
    forall line <- s.pipe ensures Permitted(c, JudgingOf(s'), line.id, line.request) {
      PermittedStays(c, JudgingOf(s), JudgingOf(s'), line.id, line.request);
    }
  }

  lemma KeptByGate(c: Config, s: State, id: Id)
    requires Inv(c, s) && Enabled(s, Gate(id))
    ensures Inv(c, Next(c, s, Gate(id)))
  {
    GateClears(c, s, id);
    GatePipe(c, s, id);
    GateHandlers(c, s, id);
    hide PassGate, Permitted, OneHolder, HolderWrote, PipesInOrder, PipeOwners, WritesOnce, WrittenLast, Arrivals;
    hide PipePermitted, ClearedPermitted, Policies;
  }

  lemma GateHandlers(c: Config, s: State, id: Id)
    requires OneHolder(s.handlers, s.holder) && HolderWrote(s.handlers, s.holder, s.process)
    requires PipeOwners(s.handlers, s.pipe) && Arrivals(s.handlers, JudgingOf(s)) && Enabled(s, Gate(id))
    ensures var s' := PassGate(c, s, id);
      && s' == s.(handlers := s'.handlers, judgedUnder := s'.judgedUnder)
      && OneHolder(s'.handlers, s'.holder) && HolderWrote(s'.handlers, s'.holder, s'.process)
      && PipeOwners(s'.handlers, s'.pipe) && Arrivals(s'.handlers, JudgingOf(s'))
  {
    hide FileAllows, ExtractToolCallName, IsToolCall;
    var s' := PassGate(c, s, id);
    assert s' == s.(handlers := s'.handlers, judgedUnder := s'.judgedUnder);
    assert s'.handlers == s.handlers[id := s'.handlers[id]];
    assert !s'.handlers[id].Holding? && id !in (set line <- s.pipe :: line.id);
    hide PassGate;
  }

  lemma GateClears(c: Config, s: State, id: Id)
    requires ClearedPermitted(c, s.handlers, JudgingOf(s)) && Arrivals(s.handlers, JudgingOf(s)) && Enabled(s, Gate(id))
    ensures ClearedPermitted(c, PassGate(c, s, id).handlers, JudgingOf(PassGate(c, s, id)))
  {
    var s' := PassGate(c, s, id);
    forall other <- s'.handlers | s'.handlers[other].Cleared? || s'.handlers[other].Holding?
      ensures Permitted(c, JudgingOf(s'), other, s'.handlers[other].request)
    {
      if other != id {
        PermittedStays(c, JudgingOf(s), JudgingOf(s'), other, s'.handlers[other].request);
      }
    }
  }

  lemma GatePipe(c: Config, s: State, id: Id)
    requires PipePermitted(c, s.pipe, JudgingOf(s)) && PipeOwners(s.handlers, s.pipe) && Enabled(s, Gate(id))
    ensures PipePermitted(c, s.pipe, JudgingOf(PassGate(c, s, id)))
  {
    var s' := PassGate(c, s, id);
    forall line <- s.pipe ensures Permitted(c, JudgingOf(s'), line.id, line.request) {
      PermittedStays(c, JudgingOf(s), JudgingOf(s'), line.id, line.request);
    }
  }

  lemma KeptByWrite(c: Config, s: State, id: Id)
    requires Inv(c, s) && Enabled(s, LockAndWrite(id))
    ensures Inv(c, Next(c, s, LockAndWrite(id)))
  {
    WriteInOrder(s, id);
    WriteOnce(s, id);
    WriteHandlers(s, id);
    WritePermitted(c, s, id);
    hide Write, Permitted, OneHolder, HolderWrote, PipesInOrder, PipeOwners, WritesOnce, WrittenLast, Arrivals;
    hide PipePermitted, ClearedPermitted;
  }

  lemma WriteHandlers(s: State, id: Id)
    requires OneHolder(s.handlers, s.holder) && PipeOwners(s.handlers, s.pipe) && Enabled(s, LockAndWrite(id))
    ensures var s' := Write(s, id);
      && OneHolder(s'.handlers, s'.holder) && HolderWrote(s'.handlers, s'.holder, s'.process)
      && PipeOwners(s'.handlers, s'.pipe)
  {
  }

  lemma WritePermitted(c: Config, s: State, id: Id)
    requires Arrivals(s.handlers, JudgingOf(s)) && ClearedPermitted(c, s.handlers, JudgingOf(s))
    requires PipePermitted(c, s.pipe, JudgingOf(s)) && Enabled(s, LockAndWrite(id))
    ensures var s' := Write(s, id);
      && Arrivals(s'.handlers, JudgingOf(s')) && ClearedPermitted(c, s'.handlers, JudgingOf(s'))
      && PipePermitted(c, s'.pipe, JudgingOf(s'))
  {
    assert JudgingOf(Write(s, id)) == JudgingOf(s);
    hide Permitted;
  }

  lemma WriteInOrder(s: State, id: Id)
    requires Enabled(s, LockAndWrite(id)) && PipesInOrder(s.process, false)
    ensures PipesInOrder(Write(s, id).process, Write(s, id).holder.Some?)
  {
  }

  lemma WriteOnce(s: State, id: Id)
    requires Enabled(s, LockAndWrite(id))
    requires PipeOwners(s.handlers, s.pipe) && WritesOnce(s.pipe) && WrittenLast(s.process, s.pipe)
    ensures WritesOnce(Write(s, id).pipe) && WrittenLast(Write(s, id).process, Write(s, id).pipe)
  {
    if s.process.Some? {
      var p, line := s.process.value, Line(id, s.handlers[id].request);
      var d := |s.pipe| - |p.written|;
      assert (s.pipe + [line])[d..] == s.pipe[d..] + [line];
      forall i | 0 <= i < |s.pipe| ensures s.pipe[i].id != id {
        assert s.pipe[i] in s.pipe;
      }
    }
  }

  lemma KeptByServe(c: Config, s: State)
    requires Inv(c, s) && Enabled(s, Serve)
    ensures Inv(c, Next(c, s, Serve))
  {
    assert JudgingOf(ServeLine(s)) == JudgingOf(s);
    hide OneHolder, PipeOwners, WritesOnce, Arrivals, ClearedPermitted, PipePermitted;
  }

  lemma KeptByRead(c: Config, s: State, id: Id)
    requires Inv(c, s) && Enabled(s, Read(id))
    ensures Inv(c, Next(c, s, Read(id)))
  {
    assert JudgingOf(ReadLine(s, id)) == JudgingOf(s);
    ReadInOrder(s, id);
    hide Permitted, PipesInOrder, WritesOnce, PipePermitted;
  }

  lemma ReadInOrder(s: State, id: Id)
    requires PipesInOrder(s.process, true) && s.process.Some? && s.process.value.stdout != []
    ensures PipesInOrder(ReadLine(s, id).process, false)
  {
  }

  lemma KeptByGiveUp(c: Config, s: State, id: Id)
    requires Inv(c, s) && Enabled(s, GiveUp(id))
    ensures Inv(c, Next(c, s, GiveUp(id)))
  {
    assert JudgingOf(MissLine(s, id)) == JudgingOf(s);
    hide Permitted, WritesOnce, PipePermitted;
  }

  lemma KeptByReload(c: Config, s: State, policy: McpPolicyFile)
    requires Inv(c, s)
    ensures Inv(c, Next(c, s, Reload(policy)))
  {
    var s' := Next(c, s, Reload(policy));
    assert Policies(s') == Policies(s) + [policy];
    JudgingStays(c, s, s', {});
    hide Permitted, PipesInOrder, WritesOnce, WrittenLast, PipePermitted, ClearedPermitted, HolderWrote, PipeOwners;
  }

  lemma KeptByRestart(c: Config, s: State, e: Event)
    requires Inv(c, s) && Enabled(s, e) && (e.Restart? || e.Shutdown?)
    ensures Inv(c, Next(c, s, e))
  {
    assert JudgingOf(Next(c, s, e)) == JudgingOf(s);
    hide OneHolder, PipeOwners, WritesOnce, Arrivals, ClearedPermitted, PipePermitted;
  }

  lemma InitialInv(c: Config, s: State)
    requires Initial(s)
    ensures Inv(c, s)
  {
  }

  lemma Kept(c: Config, s: State, s': State)
    requires Inv(c, s) && Follows(c, s, s')
    ensures Inv(c, s')
  {
    hide Inv, Enabled, Next;
    var e :| Enabled(s, e) && s' == Next(c, s, e);
    match e
    case Arrive(id, body) => KeptByStart(c, s, id, body);
    case Gate(id) => KeptByGate(c, s, id);
    case LockAndWrite(id) => KeptByWrite(c, s, id);
    case Serve => KeptByServe(c, s);
    case Read(id) => KeptByRead(c, s, id);
    case GiveUp(id) => KeptByGiveUp(c, s, id);
    case Restart => KeptByRestart(c, s, e);
    case Shutdown => KeptByRestart(c, s, e);
    case Reload(policy) => KeptByReload(c, s, policy);
  }

  lemma {:induction false} InvAlways(c: Config, run: seq<State>, n: nat)
    requires Execution(c, run) && n < |run|
    ensures Inv(c, run[n])
    decreases n
  {
    hide Inv, Follows;
    if n == 0 {
      InitialInv(c, run[0]);
    } else {
      InvAlways(c, run, n - 1);
      Kept(c, run[n - 1], run[n]);
    }
  }

  // ---------------------------------------------------------------------------
  // What this means for the handlers
  // ---------------------------------------------------------------------------

  /** In every interleaving the k-th line read answers the k-th line written since the spawn. */
  lemma AnswersInOrder(c: Config, run: seq<State>, n: nat, k: nat)
    requires Execution(c, run) && n < |run|
    requires run[n].process.Some? && k < |run[n].process.value.received|
    ensures k < |run[n].process.value.written|
    ensures run[n].process.value.received[k].to == run[n].process.value.written[k]
  {
    InvAlways(c, run, n);
  }

  /** A handler that reads gets the answer to the line written as many lines before its own as
      reads were missed since the spawn; that is its own answer exactly when none was missed. */
  lemma ReadGetsLaggedAnswer(c: Config, run: seq<State>, n: nat, id: Id)
    requires Execution(c, run) && n < |run| && Enabled(run[n], Read(id))
    ensures var s, s' := run[n], Next(c, run[n], Read(id));
      var p := s.process.value;
      && p.missed < |p.written|
      && s.handlers[id].Holding?
      && p.written[|p.written| - 1] == Line(id, s.handlers[id].request)
      && s'.handlers[id] == Finished(Replied(Answer(p.written[|p.written| - 1 - p.missed])))
      && (s'.handlers[id].reply.answer.to.id == id <==> p.missed == 0)
  {
    InvAlways(c, run, n);
    var p := run[n].process.value;
    assert p.stdout[0].to == LinesOf(p.stdout)[0] == p.written[|p.received|];
    var d := |run[n].pipe| - |p.written|;
    assert p.written[|p.received|] == run[n].pipe[d + |p.received|];
    assert p.written[|p.written| - 1] == run[n].pipe[|run[n].pipe| - 1];
  }

  lemma LagStep(c: Config, s: State, e: Event)
    requires Enabled(s, e) && s.process.Some? && Next(c, s, e).process.Some?
    ensures Next(c, s, e).process.value.missed
         == if e.GiveUp? then s.process.value.missed + 1
            else if e.Restart? then 0
            else s.process.value.missed
  {
  }

  /** The states that these events lead to, one after the other. */
  ghost predicate Driven(c: Config, run: seq<State>, events: seq<Event>) {
    && |run| == |events| + 1 && Initial(run[0])
    && forall n | 0 <= n < |events| :: Enabled(run[n], events[n]) && run[n + 1] == Next(c, run[n], events[n])
  }

  /** How many handlers gave up waiting since the last restart. */
  function MissedSinceRestart(events: seq<Event>): nat {
    if events == [] then 0
    else
      var last := events[|events| - 1];
      if last.Restart? then 0
      else MissedSinceRestart(events[..|events| - 1]) + if last.GiveUp? then 1 else 0
  }

  predicate ShutDown(events: seq<Event>) {
    && events != [] && !events[|events| - 1].Restart?
    && (events[|events| - 1].Shutdown? || ShutDown(events[..|events| - 1]))
  }

  /** The lag of the answers is the number of reads given up since the last restart; there is a
      server unless the bridge was shut down and not restarted. */
  lemma {:induction false} LagCountsMissedReads(c: Config, run: seq<State>, events: seq<Event>, n: nat)
    requires Driven(c, run, events) && n <= |events|
    ensures run[n].process.Some? <==> !ShutDown(events[..n])
    ensures run[n].process.Some? ==> run[n].process.value.missed == MissedSinceRestart(events[..n])
    decreases n
  {
    if n > 0 {
      LagCountsMissedReads(c, run, events, n - 1);
      assert events[..n][..n - 1] == events[..n - 1];
      var s, e := run[n - 1], events[n - 1];
      ProcessStep(c, s, e);
      if s.process.Some? && Next(c, s, e).process.Some? {
        LagStep(c, s, e);
      }
    }
  }

  lemma ProcessStep(c: Config, s: State, e: Event)
    requires Enabled(s, e)
    ensures Next(c, s, e).process.Some? <==> e.Restart? || (s.process.Some? && !e.Shutdown?)
    ensures e.Restart? ==> Next(c, s, e).process == Some(FRESH)
    ensures e.GiveUp? ==> s.process.Some?
  {
  }

  lemma DrivenIsExecution(c: Config, run: seq<State>, events: seq<Event>)
    requires Driven(c, run, events)
    ensures Execution(c, run) && |run| == |events| + 1
  {
    hide Enabled, Next, Initial;
    forall n | 0 < n < |run| ensures Follows(c, run[n - 1], run[n]) {
      assert Enabled(run[n - 1], events[n - 1]) && run[(n - 1) + 1] == Next(c, run[n - 1], events[n - 1]);
    }
  }

  /** After any events: if T reads were given up since the last restart, a handler that reads gets
      the answer to the request that reached the server T requests before its own; that is its own
      exactly if T is zero. */
  lemma AnswersLateByMissedReads(c: Config, run: seq<State>, events: seq<Event>, n: nat, id: Id)
    requires Driven(c, run, events) && n <= |events| && Enabled(run[n], Read(id))
    ensures var missed, pipe := MissedSinceRestart(events[..n]), run[n].pipe;
      var s' := Next(c, run[n], Read(id));
      && missed < |pipe| && pipe[|pipe| - 1].id == id
      && s'.handlers[id] == Finished(Replied(Answer(pipe[|pipe| - 1 - missed])))
      && (pipe[|pipe| - 1 - missed].id == id <==> missed == 0)
  {
    hide *;
    DrivenIsExecution(c, run, events);
    LagCountsMissedReads(c, run, events, n);
    ReadGetsLaggedAnswer(c, run, n, id);
    ReaderWroteLast(c, run, n, id, 0);
    ReaderWroteLast(c, run, n, id, MissedSinceRestart(events[..n]));
  }

  /** The pipe ends with what the current process was written. */
  lemma ReaderWroteLast(c: Config, run: seq<State>, n: nat, id: Id, k: nat)
    requires Execution(c, run) && n < |run| && Enabled(run[n], Read(id))
    ensures run[n].process.Some?
    ensures var written, pipe := run[n].process.value.written, run[n].pipe;
      k < |written| ==> k < |pipe| && written[|written| - 1 - k] == pipe[|pipe| - 1 - k]
  {
    InvAlways(c, run, n);
    assert WrittenLast(run[n].process, run[n].pipe);
    hide Inv;
  }

  /** Over any execution with any reloads: whatever reached the server is no tool call, or a named
      tool call allowed by the one policy its handler was judged by. */
  lemma OnlyPermittedLinesReachTheServer(c: Config, run: seq<State>, n: nat, line: Line)
    requires Execution(c, run) && n < |run| && line in run[n].pipe
    ensures Permitted(c, JudgingOf(run[n]), line.id, line.request)
  {
    InvAlways(c, run, n);
  }

  lemma FinishedStays(c: Config, s: State, s': State, id: Id)
    requires OneHolder(s.handlers, s.holder) && Follows(c, s, s')
    requires id in s.handlers && s.handlers[id].Finished?
    ensures id in s'.handlers && s'.handlers[id] == s.handlers[id]
  {
    hide OneHolder, Enabled, Next;
    var e :| Enabled(s, e) && s' == Next(c, s, e);
    NextKeepsFinished(c, s, e, id);
  }

  lemma NextKeepsFinished(c: Config, s: State, e: Event, id: Id)
    requires OneHolder(s.handlers, s.holder) && Enabled(s, e)
    requires id in s.handlers && s.handlers[id].Finished?
    ensures id in Next(c, s, e).handlers && Next(c, s, e).handlers[id] == s.handlers[id]
  {
    hide ParseJsonRpcRequest, ExtractToolCallName, FileAllows, IsToolCall;
  }

  lemma HolderAlways(c: Config, run: seq<State>, n: nat)
    requires Execution(c, run) && n < |run|
    ensures OneHolder(run[n].handlers, run[n].holder)
  {
    InvAlways(c, run, n);
  }

  lemma {:induction false} FinishedForever(c: Config, run: seq<State>, n: nat, m: nat, id: Id)
    requires Execution(c, run) && n <= m < |run|
    requires id in run[n].handlers && run[n].handlers[id].Finished?
    ensures id in run[m].handlers && run[m].handlers[id] == run[n].handlers[id]
    decreases m
  {
    if n < m {
      FinishedForever(c, run, n, m - 1, id);
      HolderAlways(c, run, m - 1);
      assert Follows(c, run[m - 1], run[m]);
      FinishedStays(c, run[m - 1], run[m], id);
    }
  }

  /** A handler refused before the pipe never has a line in it, at any time. */
  lemma RefusedNeverWrites(c: Config, run: seq<State>, n: nat, m: nat, id: Id)
    requires Execution(c, run) && n <= m < |run|
    requires id in run[n].handlers && run[n].handlers[id].Finished?
    requires !run[n].handlers[id].reply.Replied? && !run[n].handlers[id].reply.TimedOut?
    ensures forall line <- run[m].pipe :: line.id != id
  {
    FinishedForever(c, run, n, m, id);
    InvAlways(c, run, m);
    assert PipeOwners(run[m].handlers, run[m].pipe);
  }

  // ---------------------------------------------------------------------------
  // The policy gate, in terms of requests and pattern lists
  // ---------------------------------------------------------------------------

  /** Every tool call that ever reached the server names a tool, and one policy that was in force
      after its handler started grants it: none of its deny patterns for the server match, and one of
      its allow patterns does, unless it has none or does not mention the server. */
  lemma ToolCallsAreGranted(c: Config, run: seq<State>, n: nat, line: Line)
    requires Execution(c, run) && n < |run| && line in run[n].pipe && CallsTool(line.request)
    ensures line.id in run[n].arrivedUnder && line.id in run[n].judgedUnder
    ensures run[n].arrivedUnder[line.id] <= run[n].judgedUnder[line.id] < |Policies(run[n])|
    ensures exists tool ::
      && Names(line.request, tool)
      && Grants(c.matcher, Policies(run[n])[run[n].judgedUnder[line.id]], c.server, tool)
  {
    OnlyPermittedLinesReachTheServer(c, run, n, line);
    hide Execution, FileAllows, Grants, Names, IsToolCall, CallsTool, ExtractToolCallName, ParseJsonRpcRequest;
    RequestsExactly(None, line.request, "");
    assert IsToolCall(line.request);
    var tool := ExtractToolCallName(line.request).value;
    RequestsExactly(None, line.request, tool);
    GrantsExactly(c.matcher, Policies(run[n])[run[n].judgedUnder[line.id]], c.server, tool);
  }

  /** What the gate does to a request under the policy in force: it denies the calls that the policy
      does not grant, sends back those that name no tool, and lets everything else through. */
  lemma GateExactly(c: Config, s: State, id: Id)
    requires Enabled(s, Gate(id))
    ensures var request, after := s.handlers[id].request, Next(c, s, Gate(id)).handlers[id];
      after == Finished(Denied)
      <==> exists tool :: Names(request, tool) && !Grants(c.matcher, s.policy, c.server, tool)
    ensures var request, after := s.handlers[id].request, Next(c, s, Gate(id)).handlers[id];
      after == Finished(Nameless) <==> CallsTool(request) && forall tool :: !Names(request, tool)
    ensures var request, after := s.handlers[id].request, Next(c, s, Gate(id)).handlers[id];
      after == Cleared(request)
      <==> || !CallsTool(request)
           || exists tool :: Names(request, tool) && Grants(c.matcher, s.policy, c.server, tool)
  {
    hide FileAllows, Grants, Names, IsToolCall, CallsTool, ExtractToolCallName, ParseJsonRpcRequest;
    var request := s.handlers[id].request;
    RequestsExactly(None, request, "");
    forall tool
      ensures ExtractToolCallName(request) == Some(tool) <==> Names(request, tool)
      ensures FileAllows(c.matcher, s.policy, c.server, tool) <==> Grants(c.matcher, s.policy, c.server, tool)
    {
      RequestsExactly(None, request, tool);
      GrantsExactly(c.matcher, s.policy, c.server, tool);
    }
    NamedIsCall(request);
  }

  lemma NamedIsCall(request: Json)
    ensures forall tool | Names(request, tool) :: CallsTool(request)
  {
  }

  /** A handler that was denied was denied at some step, by the policy in force then, which did not
      grant the tool that its request named. */
  lemma {:induction false} DeniedForAReason(c: Config, run: seq<State>, n: nat, id: Id)
    requires Execution(c, run) && n < |run|
    requires id in run[n].handlers && run[n].handlers[id] == Finished(Denied)
    ensures exists m | 0 <= m < n :: DeniedAt(c, run[m], id)
    decreases n
  {
    hide DeniedAt, Next, Enabled;
    assert n > 0;
    var s := run[n - 1];
    assert Follows(c, s, run[n]);
    var e :| Enabled(s, e) && run[n] == Next(c, s, e);
    if id in s.handlers && s.handlers[id] == Finished(Denied) {
      DeniedForAReason(c, run, n - 1, id);
    } else {
      OnlyTheGateDenies(c, s, e, id);
    }
  }

  /** The handler is at the gate with a call that the policy in force does not grant. */
  ghost predicate DeniedAt(c: Config, s: State, id: Id) {
    && id in s.handlers && s.handlers[id].Arrived?
    && exists tool :: Names(s.handlers[id].request, tool) && !Grants(c.matcher, s.policy, c.server, tool)
  }

  lemma OnlyTheGateDenies(c: Config, s: State, e: Event, id: Id)
    requires Enabled(s, e) && id in Next(c, s, e).handlers && Next(c, s, e).handlers[id] == Finished(Denied)
    requires !(id in s.handlers && s.handlers[id] == Finished(Denied))
    ensures DeniedAt(c, s, id)
  {
    assert e == Gate(id) by {
      hide ParseJsonRpcRequest, ExtractToolCallName, FileAllows, IsToolCall;
    }
    hide Next, PassGate;
    GateExactly(c, s, id);
  }

  // ---------------------------------------------------------------------------
  // The other steps
  // ---------------------------------------------------------------------------

  /** The policies that were installed, in order. */
  function Reloads(events: seq<Event>): seq<McpPolicyFile> {
    if events == [] then []
    else
      var last := events[|events| - 1];
      Reloads(events[..|events| - 1]) + if last.Reload? then [last.policy] else []
  }

  /** The policies are the first one and those installed since; the last of them is in force. */
  lemma {:induction false} PoliciesAreReloads(c: Config, run: seq<State>, events: seq<Event>, n: nat)
    requires Driven(c, run, events) && n <= |events|
    ensures Policies(run[n]) == [run[0].policy] + Reloads(events[..n])
    ensures run[n].policy == Policies(run[n])[|Policies(run[n])| - 1]
    decreases n
  {
    if n > 0 {
      PoliciesAreReloads(c, run, events, n - 1);
      assert events[..n][..n - 1] == events[..n - 1];
      ReloadStep(c, run[n - 1], events[n - 1]);
    } else {
      assert events[..0] == [];
    }
  }

  lemma ReloadStep(c: Config, s: State, e: Event)
    requires Enabled(s, e)
    ensures Policies(Next(c, s, e)) == Policies(s) + if e.Reload? then [e.policy] else []
  {
    hide ParseJsonRpcRequest, ExtractToolCallName, FileAllows, IsToolCall;
  }

  /** A body that is no request is refused; a request without a server is told so, and writes nothing;
      one with a server is written once; and who gives up waiting is told so. */
  lemma RepliesExactly(c: Config, s: State, e: Event, id: Id)
    requires Enabled(s, e)
    ensures e.Arrive? && e.id == id ==>
      var after := Next(c, s, e).handlers[id];
      if e.body.Some? && IsRequest(e.body.value) then after == Arrived(e.body.value) else after == Finished(BadRequest)
    ensures e == LockAndWrite(id) ==>
      var after := Next(c, s, e);
      if s.process.None? then after.handlers[id] == Finished(NotRunning) && after.pipe == s.pipe
      else after.holder == Some(id) && after.pipe == s.pipe + [Line(id, s.handlers[id].request)]
    ensures e == GiveUp(id) ==> Next(c, s, e).handlers[id] == Finished(TimedOut) && Next(c, s, e).holder == None
    ensures e == Read(id) ==> Next(c, s, e).holder == None
  {
    if e.Arrive? && e.body.Some? {
      RequestsExactly(e.body, e.body.value, "");
    }
    hide ParseJsonRpcRequest, ExtractToolCallName, FileAllows, IsToolCall, IsRequest;
  }

  /** No handler is ever stuck: one that has arrived can pass the gate; one that is cleared can take the
      mutex when it is free; and the one that has it can give up, can read if an answer waits, and
      otherwise the server has a line to answer. */
  lemma NeverStuck(c: Config, run: seq<State>, n: nat, id: Id)
    requires Execution(c, run) && n < |run| && id in run[n].handlers
    ensures run[n].handlers[id].Arrived? ==> Enabled(run[n], Gate(id))
    ensures run[n].handlers[id].Cleared? && run[n].holder == None ==> Enabled(run[n], LockAndWrite(id))
    ensures run[n].handlers[id].Holding? ==>
      && run[n].holder == Some(id) && Enabled(run[n], GiveUp(id)) && run[n].process.Some?
      && (Enabled(run[n], Read(id)) <==> run[n].process.value.stdout != [])
      && (Enabled(run[n], Serve) <==> run[n].process.value.stdin != [])
      && (run[n].process.value.stdout != [] || run[n].process.value.stdin != [])
  {
    InvAlways(c, run, n);
    var s := run[n];
    if s.handlers[id].Holding? {
      var p := s.process.value;
      assert |p.written| == |p.received| + p.missed + 1;
      assert p.written == LinesOf(p.received) + LinesOf(p.stdout) + p.stdin;
    }
    hide Permitted, WritesOnce, PipePermitted, ClearedPermitted, Arrivals, PipeOwners, WrittenLast;
  }
}
