/** Executing an orchestration plan against the gateway, with rollback on failure. */
module Execution {
  import opened Wrappers
  import opened Schema
  import opened Orchestrator
  import opened Text

  datatype Call =
    | CreateSandbox(sandbox: string, image: string)
    | ApplyPolicy(sandbox: string, policy: string)
    | AttachProvider(sandbox: string, provider: string)
    | StartBridge(sandbox: string, server: string, command: string, env: seq<string>)
    | ConfigureInSandbox(sandbox: string, server: string, command: string)
    | EstablishForward(sandbox: string, spec: string)
    | ApplyLimits(sandbox: string, cpu: Option<string>, memory: Option<string>)
    | Upload(sandbox: string, spec: string)
    | DeleteSandbox(sandbox: string)
    | StopBridge(sandbox: string, server: string)
    | RemoveForward(sandbox: string, spec: string)

  datatype CompletedStep =
    | SandboxCreated(name: string)
    | StepDone(call: Call)
    | StreamableHttpAcknowledged(sandbox: string, server: string, url: string)

  /** A call the gateway received, and whether it succeeded.  A successful creation replies with
      the name of the sandbox. */
  datatype Record = Record(call: Call, ok: bool, reply: string)

  // ---------------------------------------------------------------------------
  // What an execution is
  // ---------------------------------------------------------------------------

  /** The calls of a plan in their fixed order. */
  function Canonical(p: Plan): seq<Call> {
    FirstCalls(p) + LastCalls(p)
  }

  function FirstCalls(p: Plan): seq<Call> {
    [CreateSandbox(p.sandboxName, p.image)] + PolicyCalls(p) + ProviderCalls(p) + BridgeCalls(p) + InSandboxCalls(p)
  }

  function LastCalls(p: Plan): seq<Call> {
    ForwardCalls(p) + LimitCalls(p) + UploadCalls(p)
  }

  function PolicyCalls(p: Plan): seq<Call> {
    if p.policy.Some? then [ApplyPolicy(p.sandboxName, p.policy.value)] else []
  }

  function ProviderCalls(p: Plan): seq<Call> {
    seq(|p.providers|, k requires 0 <= k < |p.providers| => AttachProvider(p.sandboxName, p.providers[k]))
  }

  function BridgeCalls(p: Plan): seq<Call> {
    seq(|p.bridgeServers|, k requires 0 <= k < |p.bridgeServers| =>
      var b := p.bridgeServers[k]; StartBridge(p.sandboxName, b.name, b.command, b.env))
  }

  function InSandboxCalls(p: Plan): seq<Call> {
    seq(|p.inSandboxServers|, k requires 0 <= k < |p.inSandboxServers| =>
      var s := p.inSandboxServers[k]; ConfigureInSandbox(p.sandboxName, s.name, s.command))
  }

  function ForwardCalls(p: Plan): seq<Call> {
    seq(|p.forwards|, k requires 0 <= k < |p.forwards| => EstablishForward(p.sandboxName, p.forwards[k]))
  }

  function LimitCalls(p: Plan): seq<Call> {
    if p.resources.Some?
    then [ApplyLimits(p.sandboxName, p.resources.value.cpu, p.resources.value.memory)]
    else []
  }

  function UploadCalls(p: Plan): seq<Call> {
    seq(|p.uploads|, k requires 0 <= k < |p.uploads| => Upload(p.sandboxName, p.uploads[k]))
  }

  function HttpSteps(p: Plan): seq<CompletedStep> {
    seq(|p.streamableHttpServers|, k requires 0 <= k < |p.streamableHttpServers| =>
      var s := p.streamableHttpServers[k]; StreamableHttpAcknowledged(p.sandboxName, s.name, s.url))
  }

  /** The call that undoes a call; `created` is the name the gateway gave the sandbox.  What lives
      inside the sandbox goes with it. */
  function UndoCall(c: Call, created: string): seq<Call> {
    match c
    case CreateSandbox(_, _) => [DeleteSandbox(created)]
    case StartBridge(sandbox, server, _, _) => [StopBridge(sandbox, server)]
    case EstablishForward(sandbox, spec) => [RemoveForward(sandbox, spec)]
    case _ => []
  }

  /** The undo calls of a list of calls, last call first. */
  function UndoCalls(calls: seq<Call>, created: string): seq<Call> {
    if calls == [] then []
    else UndoCall(calls[|calls| - 1], created) + UndoCalls(calls[..|calls| - 1], created)
  }

  function Calls(t: seq<Record>): (r: seq<Call>)
    ensures |r| == |t|
    ensures forall k | 0 <= k < |r| :: r[k] == t[k].call
  {
    seq(|t|, k requires 0 <= k < |t| => t[k].call)
  }

  predicate AllOk(t: seq<Record>) {
    forall r <- t :: r.ok
  }

  /** The name the gateway gave the sandbox, if the first call created one. */
  function CreatedName(t: seq<Record>): string {
    if t == [] then "" else t[0].reply
  }

  /** Every call of the plan was made in order, and all succeeded. */
  predicate Succeeds(plan: seq<Call>, t: seq<Record>) {
    Calls(t) == plan && AllOk(t)
  }

  /** The first `f` calls of the plan succeeded, the next one failed, and then exactly the undo
      calls of those that had succeeded were made, last first.  If nothing had succeeded there are
      no undo calls. */
  predicate FailsAt(plan: seq<Call>, t: seq<Record>, f: nat) {
    && f < |plan| && f < |t|
    && Calls(t[..f + 1]) == plan[..f + 1]
    && AllOk(t[..f]) && !t[f].ok
    && Calls(t[f + 1..]) == UndoCalls(plan[..f], CreatedName(t))
  }

  ghost predicate Fails(plan: seq<Call>, t: seq<Record>, failed: Call) {
    exists f: nat :: FailsAt(plan, t, f) && t[f].call == failed
  }

  // ---------------------------------------------------------------------------
  // The executor
  // ---------------------------------------------------------------------------

  class Gateway {
    /** All calls made so far. */
    var trace: seq<Record>

    method Perform(c: Call) returns (r: Record)
      modifies this
      ensures r.call == c && trace == old(trace) + [r]
    {
      var ok: bool := *;
      var reply: string := *;
      r := Record(c, ok, reply);
      trace := trace + [r];
    }
  }

  function DoneSteps(calls: seq<Call>): (r: seq<CompletedStep>)
    ensures |r| == |calls|
    ensures forall k | 0 <= k < |r| :: r[k] == StepDone(calls[k])
  {
    seq(|calls|, k requires 0 <= k < |calls| => StepDone(calls[k]))
  }

  /** The steps reported for a completed plan. */
  function AllSteps(p: Plan, created: string): seq<CompletedStep> {
    [SandboxCreated(created)] + DoneSteps(PolicyCalls(p)) + DoneSteps(ProviderCalls(p)) + DoneSteps(BridgeCalls(p))
    + DoneSteps(InSandboxCalls(p)) + HttpSteps(p) + DoneSteps(ForwardCalls(p)) + DoneSteps(LimitCalls(p))
    + DoneSteps(UploadCalls(p))
  }

  /** The call that undoes a recorded step. */
  function UndoStep(step: CompletedStep): seq<Call> {
    match step
    case SandboxCreated(name) => [DeleteSandbox(name)]
    case StepDone(StartBridge(sandbox, server, _, _)) => [StopBridge(sandbox, server)]
    case StepDone(EstablishForward(sandbox, spec)) => [RemoveForward(sandbox, spec)]
    case _ => []
  }

  /** The undo calls of recorded steps, last step first. */
  function UndoSteps(steps: seq<CompletedStep>): seq<Call> {
    if steps == [] then []
    else UndoStep(steps[|steps| - 1]) + UndoSteps(steps[..|steps| - 1])
  }

  /** Where an execution stands: all calls so far succeeded, they are the first calls of the plan,
      and undoing the recorded steps is undoing the calls made. */
  predicate InStep(plan: seq<Call>, t: seq<Record>, steps: seq<CompletedStep>) {
    && t != [] && AllOk(t)
    && Calls(t) <= plan
    && UndoSteps(steps) == UndoCalls(Calls(t), CreatedName(t))
  }

  lemma InStepSnoc(plan: seq<Call>, t: seq<Record>, steps: seq<CompletedStep>, r: Record)
    requires InStep(plan, t, steps) && |t| < |plan| && plan[|t|] == r.call && !r.call.CreateSandbox? && r.ok
    ensures InStep(plan, t + [r], steps + [StepDone(r.call)]) && CreatedName(t + [r]) == CreatedName(t)
  {
    hide UndoSteps, UndoCalls;
    UndoSnoc(t, steps, r);
  }

  lemma UndoSnoc(t: seq<Record>, steps: seq<CompletedStep>, r: Record)
    requires t != [] && !r.call.CreateSandbox?
    requires UndoSteps(steps) == UndoCalls(Calls(t), CreatedName(t))
    ensures UndoSteps(steps + [StepDone(r.call)]) == UndoCalls(Calls(t + [r]), CreatedName(t + [r]))
  {
    hide UndoSteps, UndoCalls;
    CallsConcat(t, [r]);
    assert Calls([r]) == [r.call];
    LastUndone(Calls(t), r.call, CreatedName(t));
    LastStepUndone(steps, StepDone(r.call));
  }

  lemma LastUndone(calls: seq<Call>, c: Call, created: string)
    ensures UndoCalls(calls + [c], created) == UndoCall(c, created) + UndoCalls(calls, created)
  {
    assert (calls + [c])[..|calls|] == calls;
  }

  lemma LastStepUndone(steps: seq<CompletedStep>, step: CompletedStep)
    ensures UndoSteps(steps + [step]) == UndoStep(step) + UndoSteps(steps)
  {
    assert (steps + [step])[..|steps|] == steps;
  }

  /** An execution that fails here and rolls back is as it should be. */
  lemma FailureSnoc(plan: seq<Call>, t: seq<Record>, steps: seq<CompletedStep>, r: Record, undo: seq<Record>)
    requires InStep(plan, t, steps) && |t| < |plan| && plan[|t|] == r.call && !r.ok
    requires Calls(undo) == UndoSteps(steps)
    ensures Fails(plan, t + [r] + undo, r.call)
  {
    var all := t + [r] + undo;
    assert all[|t|] == r;
    assert all[..|t| + 1] == t + [r] && all[..|t|] == t && all[|t| + 1..] == undo;
    assert Calls(t + [r]) == Calls(t) + [r.call];
    assert plan[..|t|] == Calls(t);
    assert FailsAt(plan, all, |t|);
  }

  lemma CallsConcat(a: seq<Record>, b: seq<Record>)
    ensures Calls(a + b) == Calls(a) + Calls(b)
  {
  }

  method UndoOne(step: CompletedStep, gateway: Gateway) returns (ghost undo: seq<Record>)
    modifies gateway
    ensures gateway.trace == old(gateway.trace) + undo
    ensures Calls(undo) == UndoStep(step)
  {
    undo := [];
    match step
    case SandboxCreated(name) =>
      var r := gateway.Perform(DeleteSandbox(name));
      undo := [r];
    case StepDone(StartBridge(sandbox, server, _, _)) =>
      var r := gateway.Perform(StopBridge(sandbox, server));
      undo := [r];
    case StepDone(EstablishForward(sandbox, spec)) =>
      var r := gateway.Perform(RemoveForward(sandbox, spec));
      undo := [r];
    case _ =>
  }

  lemma UndoStepsSnoc(steps: seq<CompletedStep>, i: nat)
    requires i < |steps|
    ensures UndoSteps(steps[..i + 1]) == UndoStep(steps[i]) + UndoSteps(steps[..i])
  {
    assert steps[..i + 1][..i] == steps[..i];
  }

  lemma RollbackStep(steps: seq<CompletedStep>, i: nat, undo: seq<Record>, one: seq<Record>)
    requires i < |steps| && Calls(one) == UndoStep(steps[i])
    ensures Calls(undo + one) + UndoSteps(steps[..i]) == Calls(undo) + UndoSteps(steps[..i + 1])
  {
    UndoStepsSnoc(steps, i);
    CallsConcat(undo, one);
  }

  /** Undoes the recorded steps in reverse; a failing undo call does not stop the others. */
  method Rollback(completed: seq<CompletedStep>, gateway: Gateway) returns (ghost undo: seq<Record>)
    modifies gateway
    ensures gateway.trace == old(gateway.trace) + undo
    ensures Calls(undo) == UndoSteps(completed)
  {
    hide Calls, UndoStep;
    undo := [];
    assert completed[..|completed|] == completed;
    for i := |completed| downto 0
      invariant gateway.trace == old(gateway.trace) + undo
      invariant Calls(undo) + UndoSteps(completed[..i]) == UndoSteps(completed)
    {
      ghost var one := UndoOne(completed[i], gateway);
      RollbackStep(completed, i, undo, one);
      undo := undo + one;
    }
  }

  /** Makes one call and records its step, or rolls everything back if it fails.  `t` holds the
      records of this execution, before the call and after it. */
  method RunStep(c: Call, gateway: Gateway, completed: seq<CompletedStep>,
                 ghost plan: seq<Call>, ghost earlier: seq<Record>, ghost t: seq<Record>)
    returns (ok: bool, steps: seq<CompletedStep>, ghost t': seq<Record>)
    requires gateway.trace == earlier + t && t != [] && InStep(plan, t, completed)
    requires |t| < |plan| && plan[|t|] == c && !c.CreateSandbox?
    modifies gateway
    ensures gateway.trace == earlier + t'
    ensures ok ==>
      && InStep(plan, t', steps) && |t'| == |t| + 1 && CreatedName(t') == CreatedName(t)
      && steps == completed + [StepDone(c)]
    ensures !ok ==> Fails(plan, t', c)
  {
    hide *;
    steps := completed;
    var r := gateway.Perform(c);
    ok := r.ok;
    t' := t + [r];
    assert gateway.trace == earlier + t';
    if ok {
      InStepSnoc(plan, t, completed, r);
      steps := completed + [StepDone(c)];
    } else {
      ghost var undo := Rollback(completed, gateway);
      FailureSnoc(plan, t, completed, r, undo);
      t' := t + [r] + undo;
      assert gateway.trace == earlier + t';
    }
  }

  /** These are the calls of the plan from position `at` on. */
  predicate NextCalls(plan: seq<Call>, at: int, calls: seq<Call>) {
    && 0 <= at && at + |calls| <= |plan|
    && forall k | 0 <= k < |calls| :: plan[at + k] == calls[k] && !calls[k].CreateSandbox?
  }

  /** Makes calls one after the other, up to the first that fails. */
  method RunSteps(calls: seq<Call>, gateway: Gateway, completed: seq<CompletedStep>,
                  ghost plan: seq<Call>, ghost earlier: seq<Record>, ghost t: seq<Record>)
    returns (failed: Option<Call>, steps: seq<CompletedStep>, ghost t': seq<Record>)
    requires gateway.trace == earlier + t && t != [] && InStep(plan, t, completed) && NextCalls(plan, |t|, calls)
    modifies gateway
    ensures gateway.trace == earlier + t'
    ensures failed.None? ==>
      && InStep(plan, t', steps) && |t'| == |t| + |calls| && CreatedName(t') == CreatedName(t)
      && steps == completed + DoneSteps(calls)
    ensures failed.Some? ==> Fails(plan, t', failed.value)
  {
    hide InStep, Fails;
    steps := completed;
    t' := t;
    for n := 0 to |calls|
      invariant gateway.trace == earlier + t' && |t'| == |t| + n
      invariant InStep(plan, t', steps) && CreatedName(t') == CreatedName(t)
      invariant Recorded(completed, calls, n, steps)
    {
      var ok;
      ghost var was := steps;
      assert plan[|t| + n] == calls[n];
      ok, steps, t' := RunStep(calls[n], gateway, steps, plan, earlier, t');
      if !ok {
        return Some(calls[n]), steps, t';
      }
      assert Recorded(completed, calls, n + 1, was + [StepDone(calls[n])]);
    }
    AllRecorded(completed, calls, steps);
    failed := None;
  }

  /** The first `n` calls have been recorded. */
  predicate Recorded(completed: seq<CompletedStep>, calls: seq<Call>, n: nat, steps: seq<CompletedStep>)
    requires n <= |calls|
  {
    && |steps| == |completed| + n
    && (forall k | 0 <= k < |completed| :: steps[k] == completed[k])
    && (forall k | |completed| <= k < |steps| :: steps[k] == StepDone(calls[k - |completed|]))
  }

  lemma AllRecorded(completed: seq<CompletedStep>, calls: seq<Call>, steps: seq<CompletedStep>)
    requires Recorded(completed, calls, |calls|, steps)
    ensures steps == completed + DoneSteps(calls)
  {
  }

  /** Where the calls of each kind stand in the plan. */
  lemma CanonicalOrder(p: Plan)
    ensures var plan := Canonical(p);
      var a := 1;
      var b := a + |PolicyCalls(p)|;
      var c := b + |ProviderCalls(p)|;
      var d := c + |BridgeCalls(p)|;
      var e := d + |InSandboxCalls(p)|;
      var f := e + |ForwardCalls(p)|;
      var g := f + |LimitCalls(p)|;
      && NextCalls(plan, a, PolicyCalls(p))
      && NextCalls(plan, b, ProviderCalls(p))
      && NextCalls(plan, c, BridgeCalls(p))
      && NextCalls(plan, d, InSandboxCalls(p))
      && NextCalls(plan, e, ForwardCalls(p))
      && NextCalls(plan, f, LimitCalls(p))
      && NextCalls(plan, g, UploadCalls(p))
      && |plan| == g + |UploadCalls(p)|
  {
    hide FirstCalls, LastCalls, NextCalls;
    FirstOrder(p);
    LastOrder(p);
    var first, last := FirstCalls(p), LastCalls(p);
    NextCallsWithin(first, 1, PolicyCalls(p), last);
    NextCallsWithin(first, 1 + |PolicyCalls(p)|, ProviderCalls(p), last);
    NextCallsWithin(first, 1 + |PolicyCalls(p)| + |ProviderCalls(p)|, BridgeCalls(p), last);
    NextCallsWithin(first, 1 + |PolicyCalls(p)| + |ProviderCalls(p)| + |BridgeCalls(p)|, InSandboxCalls(p), last);
    NextCallsAfter(first, last, 0, ForwardCalls(p));
    NextCallsAfter(first, last, |ForwardCalls(p)|, LimitCalls(p));
    NextCallsAfter(first, last, |ForwardCalls(p)| + |LimitCalls(p)|, UploadCalls(p));
  }

  lemma FirstOrder(p: Plan)
    ensures var first := FirstCalls(p);
      var b := 1 + |PolicyCalls(p)|;
      var c := b + |ProviderCalls(p)|;
      var d := c + |BridgeCalls(p)|;
      && NextCalls(first, 1, PolicyCalls(p))
      && NextCalls(first, b, ProviderCalls(p))
      && NextCalls(first, c, BridgeCalls(p))
      && NextCalls(first, d, InSandboxCalls(p))
      && |first| == d + |InSandboxCalls(p)|
  {
    OnlyOneCreation(p);
    hide PolicyCalls, ProviderCalls, BridgeCalls, InSandboxCalls;
  }

  lemma LastOrder(p: Plan)
    ensures var last := LastCalls(p);
      var f := |ForwardCalls(p)|;
      var g := f + |LimitCalls(p)|;
      && NextCalls(last, 0, ForwardCalls(p))
      && NextCalls(last, f, LimitCalls(p))
      && NextCalls(last, g, UploadCalls(p))
      && |last| == g + |UploadCalls(p)|
  {
    OnlyOneCreation(p);
    hide ForwardCalls, LimitCalls, UploadCalls;
  }

  lemma NextCallsWithin(plan: seq<Call>, at: int, calls: seq<Call>, more: seq<Call>)
    requires NextCalls(plan, at, calls)
    ensures NextCalls(plan + more, at, calls)
  {
  }

  lemma NextCallsAfter(before: seq<Call>, plan: seq<Call>, at: int, calls: seq<Call>)
    requires NextCalls(plan, at, calls)
    ensures NextCalls(before + plan, |before| + at, calls)
  {
    forall k | 0 <= k < |calls| ensures (before + plan)[|before| + at + k] == calls[k] {
      assert plan[at + k] == calls[k];
    }
  }

  predicate NoCreation(calls: seq<Call>) {
    forall k | 0 <= k < |calls| :: !calls[k].CreateSandbox?
  }

  lemma OnlyOneCreation(p: Plan)
    ensures NoCreation(PolicyCalls(p)) && NoCreation(ProviderCalls(p)) && NoCreation(BridgeCalls(p))
    ensures NoCreation(InSandboxCalls(p)) && NoCreation(ForwardCalls(p)) && NoCreation(LimitCalls(p))
    ensures NoCreation(UploadCalls(p))
  {
  }

  method ExecutePlan(p: Plan, gateway: Gateway) returns (r: Result<seq<CompletedStep>, Call>, ghost t: seq<Record>)
    modifies gateway
    ensures gateway.trace == old(gateway.trace) + t
    ensures r.Ok? ==> Succeeds(Canonical(p), t) && r.value == AllSteps(p, CreatedName(t))
    ensures r.Err? ==> Fails(Canonical(p), t, r.error)
  {
    hide *;
    ghost var plan, earlier := Canonical(p), gateway.trace;
    CanonicalOrder(p);
    var created := gateway.Perform(CreateSandbox(p.sandboxName, p.image));
    t := [created];
    if !created.ok {
      CreationFails(p, created);
      return Err(created.call), t;
    }
    CreationSucceeds(p, created);
    var completed := [SandboxCreated(created.reply)];
    var failed: Option<Call>;

    failed, completed, t := RunSteps(PolicyCalls(p), gateway, completed, plan, earlier, t);
    if failed.Some? { return Err(failed.value), t; }
    failed, completed, t := RunSteps(ProviderCalls(p), gateway, completed, plan, earlier, t);
    if failed.Some? { return Err(failed.value), t; }
    failed, completed, t := RunSteps(BridgeCalls(p), gateway, completed, plan, earlier, t);
    if failed.Some? { return Err(failed.value), t; }
    failed, completed, t := RunSteps(InSandboxCalls(p), gateway, completed, plan, earlier, t);
    if failed.Some? { return Err(failed.value), t; }

    ghost var called := completed;
    completed := Acknowledge(p, completed);
    Acknowledged(plan, t, called, completed);

    failed, completed, t := RunSteps(ForwardCalls(p), gateway, completed, plan, earlier, t);
    if failed.Some? { return Err(failed.value), t; }
    failed, completed, t := RunSteps(LimitCalls(p), gateway, completed, plan, earlier, t);
    if failed.Some? { return Err(failed.value), t; }
    failed, completed, t := RunSteps(UploadCalls(p), gateway, completed, plan, earlier, t);
    if failed.Some? { return Err(failed.value), t; }
    AllDone(p, t, completed);
    r := Ok(completed);
  }

  lemma Acknowledged(plan: seq<Call>, t: seq<Record>, before: seq<CompletedStep>, after: seq<CompletedStep>)
    requires InStep(plan, t, before) && UndoSteps(after) == UndoSteps(before)
    ensures InStep(plan, t, after)
  {
  }

  lemma AllDone(p: Plan, t: seq<Record>, steps: seq<CompletedStep>)
    requires InStep(Canonical(p), t, steps) && |t| == |Canonical(p)|
    ensures Succeeds(Canonical(p), t)
    ensures AllSteps(p, CreatedName(t))
         == [SandboxCreated(CreatedName(t))] + DoneSteps(PolicyCalls(p)) + DoneSteps(ProviderCalls(p))
            + DoneSteps(BridgeCalls(p)) + DoneSteps(InSandboxCalls(p)) + HttpSteps(p) + DoneSteps(ForwardCalls(p))
            + DoneSteps(LimitCalls(p)) + DoneSteps(UploadCalls(p))
  {
    hide Canonical;
  }

  /** Streamable-HTTP servers need no call; they are only recorded. */
  method Acknowledge(p: Plan, completed: seq<CompletedStep>) returns (steps: seq<CompletedStep>)
    ensures steps == completed + HttpSteps(p)
    ensures UndoSteps(steps) == UndoSteps(completed)
  {
    hide UndoSteps;
    steps := completed;
    for n := 0 to |p.streamableHttpServers|
      invariant steps == completed + HttpSteps(p)[..n]
      invariant UndoSteps(steps) == UndoSteps(completed)
    {
      var server := p.streamableHttpServers[n];
      var step := StreamableHttpAcknowledged(p.sandboxName, server.name, server.url);
      LastStepUndone(steps, step);
      steps := steps + [step];
    }
  }

  lemma CreationFails(p: Plan, r: Record)
    requires r.call == CreateSandbox(p.sandboxName, p.image) && !r.ok
    ensures Fails(Canonical(p), [r], r.call)
  {
    assert [r][..0 + 1] == [r];
    assert Calls([r]) == Canonical(p)[..1];
    assert UndoCalls(Canonical(p)[..0], r.reply) == [];
    assert FailsAt(Canonical(p), [r], 0);
  }

  lemma CreationSucceeds(p: Plan, r: Record)
    requires r.call == CreateSandbox(p.sandboxName, p.image) && r.ok
    ensures InStep(Canonical(p), [r], [SandboxCreated(r.reply)]) && CreatedName([r]) == r.reply
    ensures Calls([r]) == [CreateSandbox(p.sandboxName, p.image)]
  {
    var c := CreateSandbox(p.sandboxName, p.image);
    assert Calls([r]) == [c];
    assert [c][..0] == [] && [SandboxCreated(r.reply)][..0] == [];
    assert UndoCalls([], r.reply) == [];
  }

  // ---------------------------------------------------------------------------
  // Which calls a plan asks for
  // ---------------------------------------------------------------------------

  function OneIf(b: bool): nat {
    if b then 1 else 0
  }

  /** The providers are attached from position `at` on. */
  predicate ProvidersAt(calls: seq<Call>, at: nat, p: Plan) {
    && at + |p.providers| <= |calls|
    && forall k | 0 <= k < |p.providers| :: calls[at + k] == AttachProvider(p.sandboxName, p.providers[k])
  }

  predicate BridgesAt(calls: seq<Call>, at: nat, p: Plan) {
    && at + |p.bridgeServers| <= |calls|
    && forall k | 0 <= k < |p.bridgeServers| ::
      var server := p.bridgeServers[k];
      calls[at + k] == StartBridge(p.sandboxName, server.name, server.command, server.env)
  }

  predicate InSandboxAt(calls: seq<Call>, at: nat, p: Plan) {
    && at + |p.inSandboxServers| <= |calls|
    && forall k | 0 <= k < |p.inSandboxServers| ::
      var server := p.inSandboxServers[k];
      calls[at + k] == ConfigureInSandbox(p.sandboxName, server.name, server.command)
  }

  predicate ForwardsAt(calls: seq<Call>, at: nat, p: Plan) {
    && at + |p.forwards| <= |calls|
    && forall k | 0 <= k < |p.forwards| :: calls[at + k] == EstablishForward(p.sandboxName, p.forwards[k])
  }

  predicate UploadsAt(calls: seq<Call>, at: nat, p: Plan) {
    && at + |p.uploads| <= |calls|
    && forall k | 0 <= k < |p.uploads| :: calls[at + k] == Upload(p.sandboxName, p.uploads[k])
  }

  predicate PolicyAt(calls: seq<Call>, at: nat, p: Plan) {
    p.policy.Some? ==> at < |calls| && calls[at] == ApplyPolicy(p.sandboxName, p.policy.value)
  }

  predicate LimitsAt(calls: seq<Call>, at: nat, p: Plan) {
    p.resources.Some? ==>
      at < |calls| && calls[at] == ApplyLimits(p.sandboxName, p.resources.value.cpu, p.resources.value.memory)
  }

  /** Where each kind of call begins: policy, providers, bridges, in-sandbox servers, forwards, limits,
      uploads, and the end. */
  function Starts(p: Plan): (nat, nat, nat, nat, nat, nat, nat, nat) {
    var providers := 1 + OneIf(p.policy.Some?);
    var bridges := providers + |p.providers|;
    var inSandbox := bridges + |p.bridgeServers|;
    var forwards := inSandbox + |p.inSandboxServers|;
    var limits := forwards + |p.forwards|;
    var uploads := limits + OneIf(p.resources.Some?);
    (1, providers, bridges, inSandbox, forwards, limits, uploads, uploads + |p.uploads|)
  }

  /** The calls are those of the plan, each at its place and no others. */
  predicate PlanCalls(calls: seq<Call>, p: Plan) {
    var (policy, providers, bridges, inSandbox, forwards, limits, uploads, end) := Starts(p);
    && |calls| == end
    && calls[0] == CreateSandbox(p.sandboxName, p.image)
    && PolicyAt(calls, policy, p)
    && ProvidersAt(calls, providers, p)
    && BridgesAt(calls, bridges, p)
    && InSandboxAt(calls, inSandbox, p)
    && ForwardsAt(calls, forwards, p)
    && LimitsAt(calls, limits, p)
    && UploadsAt(calls, uploads, p)
  }

  lemma CanonicalExact(p: Plan)
    ensures PlanCalls(Canonical(p), p)
  {
    hide Canonical, NextCalls, PolicyCalls, ProviderCalls, BridgeCalls, InSandboxCalls, ForwardCalls, LimitCalls;
    hide UploadCalls, PolicyAt, ProvidersAt, BridgesAt, InSandboxAt, ForwardsAt, LimitsAt, UploadsAt;
    var plan := Canonical(p);
    CreationFirst(p);
    ListLengths(p);
    CanonicalOrder(p);
    var (policy, providers, bridges, inSandbox, forwards, limits, uploads, end) := Starts(p);
    PolicyStands(plan, policy, p);
    ProvidersStand(plan, providers, p);
    BridgesStand(plan, bridges, p);
    InSandboxStand(plan, inSandbox, p);
    ForwardsStand(plan, forwards, p);
    LimitsStand(plan, limits, p);
    UploadsStand(plan, uploads, p);
  }

  lemma CreationFirst(p: Plan)
    ensures Canonical(p) != [] && Canonical(p)[0] == CreateSandbox(p.sandboxName, p.image)
  {
    hide PolicyCalls, ProviderCalls, BridgeCalls, InSandboxCalls, LastCalls;
  }

  lemma ListLengths(p: Plan)
    ensures |PolicyCalls(p)| == OneIf(p.policy.Some?) && |ProviderCalls(p)| == |p.providers|
    ensures |BridgeCalls(p)| == |p.bridgeServers| && |InSandboxCalls(p)| == |p.inSandboxServers|
    ensures |ForwardCalls(p)| == |p.forwards| && |LimitCalls(p)| == OneIf(p.resources.Some?)
    ensures |UploadCalls(p)| == |p.uploads|
  {
  }

  lemma PolicyStands(plan: seq<Call>, at: nat, p: Plan)
    requires NextCalls(plan, at, PolicyCalls(p))
    ensures PolicyAt(plan, at, p)
  {
    assert p.policy.Some? ==> plan[at + 0] == PolicyCalls(p)[0];
  }

  lemma ProvidersStand(plan: seq<Call>, at: nat, p: Plan)
    requires NextCalls(plan, at, ProviderCalls(p))
    ensures ProvidersAt(plan, at, p)
  {
    forall k | 0 <= k < |p.providers| ensures plan[at + k] == AttachProvider(p.sandboxName, p.providers[k]) {
      assert plan[at + k] == ProviderCalls(p)[k];
    }
  }

  lemma BridgesStand(plan: seq<Call>, at: nat, p: Plan)
    requires NextCalls(plan, at, BridgeCalls(p))
    ensures BridgesAt(plan, at, p)
  {
    forall k | 0 <= k < |p.bridgeServers|
      ensures var server := p.bridgeServers[k];
        plan[at + k] == StartBridge(p.sandboxName, server.name, server.command, server.env)
    {
      assert plan[at + k] == BridgeCalls(p)[k];
    }
  }

  lemma InSandboxStand(plan: seq<Call>, at: nat, p: Plan)
    requires NextCalls(plan, at, InSandboxCalls(p))
    ensures InSandboxAt(plan, at, p)
  {
    forall k | 0 <= k < |p.inSandboxServers|
      ensures var server := p.inSandboxServers[k];
        plan[at + k] == ConfigureInSandbox(p.sandboxName, server.name, server.command)
    {
      assert plan[at + k] == InSandboxCalls(p)[k];
    }
  }

  lemma ForwardsStand(plan: seq<Call>, at: nat, p: Plan)
    requires NextCalls(plan, at, ForwardCalls(p))
    ensures ForwardsAt(plan, at, p)
  {
    forall k | 0 <= k < |p.forwards| ensures plan[at + k] == EstablishForward(p.sandboxName, p.forwards[k]) {
      assert plan[at + k] == ForwardCalls(p)[k];
    }
  }

  lemma LimitsStand(plan: seq<Call>, at: nat, p: Plan)
    requires NextCalls(plan, at, LimitCalls(p))
    ensures LimitsAt(plan, at, p)
  {
    assert p.resources.Some? ==> plan[at + 0] == LimitCalls(p)[0];
  }

  lemma UploadsStand(plan: seq<Call>, at: nat, p: Plan)
    requires NextCalls(plan, at, UploadCalls(p))
    ensures UploadsAt(plan, at, p)
  {
    forall k | 0 <= k < |p.uploads| ensures plan[at + k] == Upload(p.sandboxName, p.uploads[k]) {
      assert plan[at + k] == UploadCalls(p)[k];
    }
  }

  /** The kinds of calls in the order in which they are made. */
  function Kind(c: Call): nat {
    match c
    case CreateSandbox(_, _) => 0
    case ApplyPolicy(_, _) => 1
    case AttachProvider(_, _) => 2
    case StartBridge(_, _, _, _) => 3
    case ConfigureInSandbox(_, _, _) => 4
    case EstablishForward(_, _) => 5
    case ApplyLimits(_, _, _) => 6
    case Upload(_, _) => 7
    case _ => 8
  }

  /** The kind of call that belongs at this position. */
  function KindAt(p: Plan, i: nat): nat {
    var (policy, providers, bridges, inSandbox, forwards, limits, uploads, end) := Starts(p);
    if i < policy then 0
    else if i < providers then 1
    else if i < bridges then 2
    else if i < inSandbox then 3
    else if i < forwards then 4
    else if i < limits then 5
    else if i < uploads then 6
    else 7
  }

  lemma KindsInPlace(calls: seq<Call>, p: Plan, i: nat)
    requires PlanCalls(calls, p) && i < |calls|
    ensures Kind(calls[i]) == KindAt(p, i)
  {
    var (policy, providers, bridges, inSandbox, forwards, limits, uploads, end) := Starts(p);
    if providers <= i < bridges {
      assert p.providers[i - providers] in p.providers;
    } else if bridges <= i < inSandbox {
      assert p.bridgeServers[i - bridges] in p.bridgeServers;
    } else if inSandbox <= i < forwards {
      assert p.inSandboxServers[i - inSandbox] in p.inSandboxServers;
    } else if forwards <= i < limits {
      assert p.forwards[i - forwards] in p.forwards;
    } else if uploads <= i {
      assert p.uploads[i - uploads] in p.uploads;
    }
  }

  /** The steps that are reported for a completed plan: the sandbox, the calls made after its creation,
      and between those inside the sandbox and the forwards the servers that need no call. */
  lemma StepsReported(p: Plan, created: string)
    ensures AllSteps(p, created)
         == [SandboxCreated(created)] + DoneSteps(FirstCalls(p)[1..]) + HttpSteps(p) + DoneSteps(LastCalls(p))
    ensures |HttpSteps(p)| == |p.streamableHttpServers|
    ensures forall k | 0 <= k < |HttpSteps(p)| ::
      var server := p.streamableHttpServers[k];
      HttpSteps(p)[k] == StreamableHttpAcknowledged(p.sandboxName, server.name, server.url)
  {
    var a, b, c, d := PolicyCalls(p), ProviderCalls(p), BridgeCalls(p), InSandboxCalls(p);
    var e, f, g := ForwardCalls(p), LimitCalls(p), UploadCalls(p);
    WithoutFirst(CreateSandbox(p.sandboxName, p.image), a, b, c, d);
    DoneInParts(a, b, c, d);
    DoneInParts(e, f, g, []);
    assert e + f + g + [] == e + f + g;
    hide PolicyCalls, ProviderCalls, BridgeCalls, InSandboxCalls, ForwardCalls, LimitCalls, UploadCalls, HttpSteps;
    hide DoneSteps;
    AllInParts([SandboxCreated(created)], DoneSteps(a), DoneSteps(b), DoneSteps(c), DoneSteps(d), HttpSteps(p),
               DoneSteps(e), DoneSteps(f), DoneSteps(g));
  }

  lemma WithoutFirst(first: Call, a: seq<Call>, b: seq<Call>, c: seq<Call>, d: seq<Call>)
    ensures ([first] + a + b + c + d)[1..] == a + b + c + d
  {
  }

  lemma DoneInParts(a: seq<Call>, b: seq<Call>, c: seq<Call>, d: seq<Call>)
    ensures DoneSteps(a + b + c + d) == DoneSteps(a) + DoneSteps(b) + DoneSteps(c) + DoneSteps(d)
    ensures d == [] ==> DoneSteps(a + b + c) == DoneSteps(a) + DoneSteps(b) + DoneSteps(c)
  {
  }

  lemma AllInParts<T>(z: seq<T>, a: seq<T>, b: seq<T>, c: seq<T>, d: seq<T>, h: seq<T>, e: seq<T>, f: seq<T>, g: seq<T>)
    ensures z + a + b + c + d + h + e + f + g == z + (a + b + c + d) + h + (e + f + g)
  {
  }

  /** The undo calls of later calls come before those of earlier ones. */
  lemma {:induction false} UndoBackwards(a: seq<Call>, b: seq<Call>, created: string)
    ensures UndoCalls(a + b, created) == UndoCalls(b, created) + UndoCalls(a, created)
  {
    if b == [] {
      assert a + b == a;
    } else {
      var rest, last := b[..|b| - 1], b[|b| - 1];
      LastSplit(b);
      Assoc(a, rest, [last]);
      UndoBackwards(a, rest, created);
      LastUndone(a + rest, last, created);
      LastUndone(rest, last, created);
      Assoc(UndoCall(last, created), UndoCalls(rest, created), UndoCalls(a, created));
    }
  }

  /** A successful run makes the calls of the plan and no others, all of which succeed; the policy is
      applied exactly if there is one; and calls of an earlier kind come before those of a later. */
  lemma SuccessMakesThePlan(p: Plan, t: seq<Record>)
    requires Succeeds(Canonical(p), t)
    ensures PlanCalls(Calls(t), p) && forall k | 0 <= k < |t| :: t[k].ok
    ensures forall s, x ::
      (exists k | 0 <= k < |t| :: t[k].call == ApplyPolicy(s, x)) <==> s == p.sandboxName && p.policy == Some(x)
    ensures forall i, j | 0 <= i < j < |t| :: Kind(t[i].call) <= Kind(t[j].call)
  {
    CanonicalExact(p);
    hide Canonical, PlanCalls;
    var calls := Calls(t);
    assert forall r <- t :: r.ok;
    assert forall k | 0 <= k < |t| :: t[k] in t;
    forall k | 0 <= k < |t| ensures Kind(t[k].call) == KindAt(p, k) {
      KindsInPlace(calls, p, k);
      assert calls[k] == t[k].call;
    }
    PolicyInPlace(calls, p);
  }

  lemma PolicyInPlace(calls: seq<Call>, p: Plan)
    requires PlanCalls(calls, p)
    ensures |calls| > OneIf(p.policy.Some?)
    ensures p.policy.Some? ==> calls[1] == ApplyPolicy(p.sandboxName, p.policy.value)
  {
  }

  // ---------------------------------------------------------------------------
  // From the blueprint to the sandbox
  // ---------------------------------------------------------------------------

  datatype Failure =
    | ValidationFailed(errors: seq<Field>)
    | ResourceNotFound
    | CallFailed(call: Call)

  /** What exists outside: images, providers and policy files. */
  datatype Outside = Outside(images: set<string>, providers: set<string>, policies: set<string>)

  /** Everything the plan refers to exists. */
  predicate AllThere(p: Plan, outside: Outside) {
    && p.image in outside.images
    && (forall k | 0 <= k < |p.providers| :: p.providers[k] in outside.providers)
    && (p.policy.Some? ==> p.policy.value in outside.policies)
  }

  method ValidateResources(p: Plan, outside: Outside) returns (ok: bool)
    ensures ok <==> AllThere(p, outside)
  {
    if p.image !in outside.images {
      return false;
    }
    for n := 0 to |p.providers|
      invariant forall k | 0 <= k < n :: p.providers[k] in outside.providers
    {
      if p.providers[n] !in outside.providers {
        return false;
      }
    }
    ok := p.policy.Some? ==> p.policy.value in outside.policies;
  }

  /** Validate, plan, check the resources, execute.  The gateway is called only for a valid
      blueprint, with the calls of that blueprint's plan, and planning a valid one never fails. */
  method Execute(b: Blueprint, outside: Outside, gateway: Gateway)
    returns (r: Result<seq<CompletedStep>, Failure>, ghost p: Plan, ghost t: seq<Record>)
    modifies gateway
    ensures gateway.trace == old(gateway.trace) + t
    ensures (r.Err? && r.error.ValidationFailed?) <==> !Valid(b)
    ensures r.Err? && r.error.ValidationFailed? ==> forall f :: f in r.error.errors <==> Wrong(b, f)
    ensures r == Err(ResourceNotFound) <==> Valid(b) && !AllThere(p, outside)
    ensures Valid(b) ==> PlanOf(b, p)
    ensures r.Err? && !r.error.CallFailed? ==> t == []
    ensures r.Ok? ==> PlanOf(b, p) && Succeeds(Canonical(p), t) && r.value == AllSteps(p, CreatedName(t))
    ensures r.Err? && r.error.CallFailed? ==> PlanOf(b, p) && Fails(Canonical(p), t, r.error.call)
    ensures t != [] ==> PlanOf(b, p)
  {
    hide Succeeds, Fails, Canonical, AllSteps, PlanOf, AllThere, Wrong, Valid;
    t := [];
    p := Plan("", "", None, [], [], [], [], [], None, []);
    var errors := Validate(b);
    if errors != [] {
      return Err(ValidationFailed(errors)), p, t;
    }
    ValidIsPlannable(b);
    var plan := BuildPlan(b);
    if plan.Err? {
      // A valid blueprint can be planned.
      assert false;
    }
    p := plan.value;
    var available := ValidateResources(plan.value, outside);
    if !available {
      return Err(ResourceNotFound), p, t;
    }
    var result;
    result, t := ExecutePlan(plan.value, gateway);
    match result
    case Ok(steps) => r := Ok(steps);
    case Err(call) => r := Err(CallFailed(call));
  }
}
