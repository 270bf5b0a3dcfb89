/** What executions leave behind: the state of the gateway as the effect of the calls it received,
    and what rollback makes of it. */
module World {
  import opened Orchestrator
  import opened Execution

  /** Sandboxes with what was done inside them, and the host-side bridges and port forwards, each
      known by the sandbox it serves and the server or port specification. */
  datatype World = World(
    sandboxes: map<string, seq<Call>>,
    bridges: map<(string, string), (string, seq<string>)>,
    forwards: set<(string, string)>
  )

  /** The effect of one call; a failed call has none. */
  function Effect(w: World, r: Record): World {
    if !r.ok then w
    else
      match r.call
      case CreateSandbox(_, _) => w.(sandboxes := w.sandboxes[r.reply := [r.call]])
      case DeleteSandbox(name) => w.(sandboxes := w.sandboxes - {name})
      case StartBridge(sandbox, server, command, env) =>
        w.(bridges := w.bridges[(sandbox, server) := (command, env)])
      case StopBridge(sandbox, server) => w.(bridges := w.bridges - {(sandbox, server)})
      case EstablishForward(sandbox, spec) => w.(forwards := w.forwards + {(sandbox, spec)})
      case RemoveForward(sandbox, spec) => w.(forwards := w.forwards - {(sandbox, spec)})
      case ApplyPolicy(_, _) => Inside(w, r.call)
      case AttachProvider(_, _) => Inside(w, r.call)
      case ConfigureInSandbox(_, _, _) => Inside(w, r.call)
      case ApplyLimits(_, _, _) => Inside(w, r.call)
      case Upload(_, _) => Inside(w, r.call)
  }

  /** A call that changes the inside of a sandbox. */
  function Inside(w: World, c: Call): World {
    if c.sandbox in w.sandboxes
    then w.(sandboxes := w.sandboxes[c.sandbox := w.sandboxes[c.sandbox] + [c]])
    else w
  }

  function Replay(w: World, t: seq<Record>): World {
    if t == [] then w else Effect(Replay(w, t[..|t| - 1]), t[|t| - 1])
  }

  lemma {:induction false} ReplayConcat(w: World, a: seq<Record>, b: seq<Record>)
    ensures Replay(w, a + b) == Replay(Replay(w, a), b)
  {
    if b == [] {
      assert a + b == a;
    } else {
      var n := |b| - 1;
      assert (a + b)[..|a + b| - 1] == a + b[..n];
      ReplayConcat(w, a, b[..n]);
    }
  }

  predicate IsUndo(c: Call) {
    c.DeleteSandbox? || c.StopBridge? || c.RemoveForward?
  }

  /** The call was made and succeeded. */
  predicate Did(t: seq<Record>, c: Call) {
    exists k | 0 <= k < |t| :: t[k].ok && t[k].call == c
  }

  predicate Started(t: seq<Record>, bridge: (string, string)) {
    exists k | 0 <= k < |t| ::
      t[k].ok && t[k].call.StartBridge? && (t[k].call.sandbox, t[k].call.server) == bridge
  }

  predicate Created(t: seq<Record>, name: string) {
    exists k | 0 <= k < |t| :: t[k].ok && t[k].call.CreateSandbox? && t[k].reply == name
  }

  /** No call concerns the inside of this sandbox. */
  predicate LeavesAlone(t: seq<Record>, name: string) {
    forall k | 0 <= k < |t| :: t[k].call.CreateSandbox? || t[k].call.DeleteSandbox? || t[k].call.sandbox != name
  }

  predicate OnlySteps(t: seq<Record>) {
    forall k | 0 <= k < |t| :: !IsUndo(t[k].call)
  }

  predicate OnlyUndo(t: seq<Record>) {
    forall k | 0 <= k < |t| :: IsUndo(t[k].call)
  }

  // ---------------------------------------------------------------------------
  // Steps add, undo calls remove
  // ---------------------------------------------------------------------------

  lemma DidSnoc(t: seq<Record>, c: Call)
    requires t != []
    ensures var last := t[|t| - 1];
      Did(t, c) <==> Did(t[..|t| - 1], c) || (last.ok && last.call == c)
  {
  }

  lemma {:induction false} StepsAddForwards(w: World, t: seq<Record>, f: (string, string))
    requires OnlySteps(t)
    ensures f in Replay(w, t).forwards <==> f in w.forwards || Did(t, EstablishForward(f.0, f.1))
    decreases |t|
  {
    if t != [] {
      DidSnoc(t, EstablishForward(f.0, f.1));
      hide Did;
      StepsAddForwards(w, t[..|t| - 1], f);
    }
  }

  lemma {:induction false} StepsAddBridges(w: World, t: seq<Record>, b: (string, string))
    requires OnlySteps(t)
    ensures b in Replay(w, t).bridges <==> b in w.bridges || Started(t, b)
    ensures b in w.bridges && !Started(t, b) ==> Replay(w, t).bridges[b] == w.bridges[b]
    decreases |t|
  {
    if t != [] {
      StepsAddBridges(w, t[..|t| - 1], b);
    }
  }

  lemma {:induction false} StepsAddSandboxes(w: World, t: seq<Record>, n: string)
    requires OnlySteps(t)
    ensures n in Replay(w, t).sandboxes <==> n in w.sandboxes || Created(t, n)
    ensures n in w.sandboxes && !Created(t, n) && LeavesAlone(t, n) ==> Replay(w, t).sandboxes[n] == w.sandboxes[n]
    decreases |t|
  {
    if t != [] {
      StepsAddSandboxes(w, t[..|t| - 1], n);
    }
  }

  lemma {:induction false} UndoRemovesForwards(w: World, t: seq<Record>, f: (string, string))
    requires OnlyUndo(t)
    ensures f in Replay(w, t).forwards <==> f in w.forwards && !Did(t, RemoveForward(f.0, f.1))
    decreases |t|
  {
    if t != [] {
      DidSnoc(t, RemoveForward(f.0, f.1));
      hide Did;
      UndoRemovesForwards(w, t[..|t| - 1], f);
    }
  }

  lemma {:induction false} UndoRemovesBridges(w: World, t: seq<Record>, b: (string, string))
    requires OnlyUndo(t)
    ensures b in Replay(w, t).bridges <==> b in w.bridges && !Did(t, StopBridge(b.0, b.1))
    ensures b in Replay(w, t).bridges ==> Replay(w, t).bridges[b] == w.bridges[b]
    decreases |t|
  {
    if t != [] {
      DidSnoc(t, StopBridge(b.0, b.1));
      hide Did;
      UndoRemovesBridges(w, t[..|t| - 1], b);
    }
  }

  lemma {:induction false} UndoRemovesSandboxes(w: World, t: seq<Record>, n: string)
    requires OnlyUndo(t)
    ensures n in Replay(w, t).sandboxes <==> n in w.sandboxes && !Did(t, DeleteSandbox(n))
    ensures n in Replay(w, t).sandboxes ==> Replay(w, t).sandboxes[n] == w.sandboxes[n]
    decreases |t|
  {
    if t != [] {
      DidSnoc(t, DeleteSandbox(n));
      hide Did;
      UndoRemovesSandboxes(w, t[..|t| - 1], n);
    }
  }

  // ---------------------------------------------------------------------------
  // The shape of a failed execution
  // ---------------------------------------------------------------------------

  /** The name is not in use: no sandbox has it, and nothing on the host serves it. */
  ghost predicate FreshName(w: World, name: string) {
    && name !in w.sandboxes
    && (forall b <- w.bridges :: b.0 != name)
    && (forall f <- w.forwards :: f.0 != name)
  }

  predicate AllFor(calls: seq<Call>, name: string) {
    forall k | 0 <= k < |calls| :: calls[k].sandbox == name && !IsUndo(calls[k])
  }

  /** All calls of a plan concern its own sandbox, and only the first creates one. */
  lemma CanonicalCalls(p: Plan)
    ensures AllFor(Canonical(p), p.sandboxName)
    ensures Canonical(p) != [] && Canonical(p)[0].CreateSandbox?
    ensures forall k | 0 < k < |Canonical(p)| :: !Canonical(p)[k].CreateSandbox?
  {
    OnlyOneCreation(p);
    assert AllFor(PolicyCalls(p), p.sandboxName) && AllFor(ProviderCalls(p), p.sandboxName);
    assert AllFor(BridgeCalls(p), p.sandboxName) && AllFor(InSandboxCalls(p), p.sandboxName);
    assert AllFor(ForwardCalls(p), p.sandboxName) && AllFor(LimitCalls(p), p.sandboxName);
    assert AllFor(UploadCalls(p), p.sandboxName);
    hide PolicyCalls, ProviderCalls, BridgeCalls, InSandboxCalls, ForwardCalls, LimitCalls, UploadCalls;
  }

  /** Undo calls are the undo calls of the calls made, each of them and nothing else. */
  lemma {:induction false} UndoCallsExact(calls: seq<Call>, created: string, c: Call)
    ensures c in UndoCalls(calls, created) <==> exists k | 0 <= k < |calls| :: c in UndoCall(calls[k], created)
  {
    if calls != [] {
      var n := |calls| - 1;
      var last, rest := UndoCall(calls[n], created), UndoCalls(calls[..n], created);
      assert UndoCalls(calls, created) == last + rest;
      hide UndoCall, UndoCalls;
      UndoCallsExact(calls[..n], created, c);
      if c in rest {
        var k :| 0 <= k < n && c in UndoCall(calls[..n][k], created);
        assert c in UndoCall(calls[k], created);
      }
      if k :| 0 <= k < n && c in UndoCall(calls[k], created) {
        assert c in UndoCall(calls[..n][k], created);
      }
    }
  }

  /** The successful steps of an execution that failed at its `f`-th call, and the undo calls. */
  function Steps(t: seq<Record>, f: nat): seq<Record>
    requires f < |t|
  {
    t[..f]
  }

  function Undos(t: seq<Record>, f: nat): seq<Record>
    requires f < |t|
  {
    t[f + 1..]
  }

  lemma FailedShape(p: Plan, t: seq<Record>, f: nat)
    requires FailsAt(Canonical(p), t, f)
    ensures Calls(Steps(t, f)) == Canonical(p)[..f] && AllOk(Steps(t, f)) && OnlySteps(Steps(t, f))
    ensures Calls(Undos(t, f)) == UndoCalls(Canonical(p)[..f], CreatedName(t)) && OnlyUndo(Undos(t, f))
    ensures forall w: World :: Replay(w, t) == Replay(Replay(w, Steps(t, f)), Undos(t, f))
  {
    CanonicalCalls(p);
    hide Canonical;
    var plan, undo := Canonical(p), Undos(t, f);
    assert t[..f + 1][..f] == t[..f];
    assert Calls(t[..f]) == Calls(t[..f + 1])[..f];
    forall k | 0 <= k < f ensures !IsUndo(t[..f][k].call) {
      assert Calls(t[..f])[k] == plan[k];
    }
    forall k | 0 <= k < |undo| ensures IsUndo(undo[k].call) {
      UndoCallsExact(plan[..f], CreatedName(t), Calls(undo)[k]);
    }
    forall w: World ensures Replay(w, t) == Replay(Replay(w, t[..f]), undo) {
      assert t == t[..f + 1] + undo;
      ReplayConcat(w, t[..f + 1], undo);
    }
  }

  lemma UndoCallsAreOwn(p: Plan, f: nat, created: string, c: Call)
    requires f <= |Canonical(p)| && c in UndoCalls(Canonical(p)[..f], created)
    ensures if c.DeleteSandbox? then f > 0 && c.sandbox == created else c.sandbox == p.sandboxName
  {
    CanonicalCalls(p);
    hide Canonical, UndoCalls;
    var plan := Canonical(p);
    UndoCallsExact(plan[..f], created, c);
    var j :| 0 <= j < f && c in UndoCall(plan[..f][j], created);
    assert plan[..f][j] == plan[j];
  }

  /** An undo call of a failed execution is for the plan's own sandbox, or deletes the one that was
      created. */
  lemma UndoIsOwn(p: Plan, t: seq<Record>, f: nat, c: Call)
    requires FailsAt(Canonical(p), t, f) && Did(Undos(t, f), c)
    ensures if c.DeleteSandbox? then f > 0 && c.sandbox == CreatedName(t) else c.sandbox == p.sandboxName
  {
    assert f <= |Canonical(p)| && Calls(Undos(t, f)) == UndoCalls(Canonical(p)[..f], CreatedName(t));
    hide FailsAt, Canonical, UndoCalls, CreatedName;
    var undo := Undos(t, f);
    var k :| 0 <= k < |undo| && undo[k].ok && undo[k].call == c;
    assert Calls(undo)[k] == c;
    UndoCallsAreOwn(p, f, CreatedName(t), c);
  }

  /** What succeeded has its undo call made. */
  lemma UndoIsMade(p: Plan, t: seq<Record>, f: nat, k: nat, c: Call)
    requires FailsAt(Canonical(p), t, f) && k < f
    requires c in UndoCall(t[k].call, CreatedName(t))
    ensures exists j :: 0 <= j < |Undos(t, f)| && Undos(t, f)[j].call == c
  {
    FailedShape(p, t, f);
    hide Canonical, FailsAt;
    var plan := Canonical(p);
    assert Calls(Steps(t, f))[k] == plan[..f][k];
    UndoCallsExact(plan[..f], CreatedName(t), c);
    assert c in Calls(Undos(t, f));
  }

  // ---------------------------------------------------------------------------
  // What rollback leaves
  // ---------------------------------------------------------------------------

  lemma EstablishedIsUndone(p: Plan, t: seq<Record>, f: nat, x: (string, string))
    requires FailsAt(Canonical(p), t, f) && Did(Steps(t, f), EstablishForward(x.0, x.1))
    ensures exists j :: 0 <= j < |Undos(t, f)| && Undos(t, f)[j].call == RemoveForward(x.0, x.1)
    ensures x.0 == p.sandboxName
  {
    FailedShape(p, t, f);
    CanonicalCalls(p);
    hide Canonical, FailsAt;
    var k :| 0 <= k < f && t[..f][k].call == EstablishForward(x.0, x.1);
    assert Calls(Steps(t, f))[k] == Canonical(p)[..f][k];
    UndoIsMade(p, t, f, k, RemoveForward(x.0, x.1));
  }

  /** A port forward is left exactly if it was there before, or was established and every call
      to remove it failed (and such a call was made). */
  lemma ForwardsLeft(w: World, p: Plan, t: seq<Record>, f: nat, x: (string, string))
    requires FailsAt(Canonical(p), t, f) && FreshName(w, p.sandboxName)
    ensures x in Replay(w, t).forwards
       <==> || x in w.forwards
            || (Did(Steps(t, f), EstablishForward(x.0, x.1)) && !Did(Undos(t, f), RemoveForward(x.0, x.1)))
    ensures Did(Steps(t, f), EstablishForward(x.0, x.1)) ==>
      exists j :: 0 <= j < |Undos(t, f)| && Undos(t, f)[j].call == RemoveForward(x.0, x.1)
  {
    FailedShape(p, t, f);
    hide Canonical, FailsAt, Replay, Effect, Did;
    StepsAddForwards(w, Steps(t, f), x);
    UndoRemovesForwards(Replay(w, Steps(t, f)), Undos(t, f), x);
    if Did(Undos(t, f), RemoveForward(x.0, x.1)) {
      UndoIsOwn(p, t, f, RemoveForward(x.0, x.1));
    }
    if Did(Steps(t, f), EstablishForward(x.0, x.1)) {
      EstablishedIsUndone(p, t, f, x);
    }
  }

  lemma StartedIsOwn(p: Plan, t: seq<Record>, f: nat, b: (string, string))
    requires FailsAt(Canonical(p), t, f) && Started(Steps(t, f), b)
    ensures b.0 == p.sandboxName
    ensures exists j :: 0 <= j < |Undos(t, f)| && Undos(t, f)[j].call == StopBridge(b.0, b.1)
  {
    FailedShape(p, t, f);
    CanonicalCalls(p);
    hide Canonical, FailsAt;
    var steps := Steps(t, f);
    var k :| 0 <= k < f && steps[k].call.StartBridge? && (steps[k].call.sandbox, steps[k].call.server) == b;
    assert Calls(steps)[k] == Canonical(p)[..f][k];
    UndoIsMade(p, t, f, k, StopBridge(b.0, b.1));
  }

  /** A bridge is left exactly if it was there before, and then unchanged, or was started and
      every call to stop it failed (and such a call was made). */
  lemma BridgesLeft(w: World, p: Plan, t: seq<Record>, f: nat, b: (string, string))
    requires FailsAt(Canonical(p), t, f) && FreshName(w, p.sandboxName)
    ensures b in Replay(w, t).bridges
       <==> b in w.bridges || (Started(Steps(t, f), b) && !Did(Undos(t, f), StopBridge(b.0, b.1)))
    ensures b in w.bridges ==> Replay(w, t).bridges[b] == w.bridges[b]
    ensures Started(Steps(t, f), b) ==>
      exists j :: 0 <= j < |Undos(t, f)| && Undos(t, f)[j].call == StopBridge(b.0, b.1)
  {
    FailedShape(p, t, f);
    hide Canonical, FailsAt, Replay, Effect, Started, Did;
    StepsAddBridges(w, Steps(t, f), b);
    UndoRemovesBridges(Replay(w, Steps(t, f)), Undos(t, f), b);
    if Did(Undos(t, f), StopBridge(b.0, b.1)) {
      UndoIsOwn(p, t, f, StopBridge(b.0, b.1));
    }
    if Started(Steps(t, f), b) {
      StartedIsOwn(p, t, f, b);
    }
  }

  lemma CreatedExactly(p: Plan, t: seq<Record>, f: nat, n: string)
    requires FailsAt(Canonical(p), t, f)
    ensures Created(Steps(t, f), n) <==> f > 0 && n == CreatedName(t)
    ensures n != p.sandboxName ==> LeavesAlone(Steps(t, f), n)
    ensures f > 0 ==> t[0].call.CreateSandbox?
  {
    FailedShape(p, t, f);
    CanonicalCalls(p);
    hide Canonical, FailsAt, Replay;
    var steps, plan := Steps(t, f), Canonical(p);
    forall k | 0 <= k < f ensures steps[k].call == plan[k] {
      assert Calls(steps)[k] == plan[..f][k];
    }
    if f > 0 {
      assert steps[0] in steps;
    }
  }

  /** Other sandboxes are left as they were; the new one is left exactly if deleting it failed. */
  lemma SandboxesLeft(w: World, p: Plan, t: seq<Record>, f: nat, n: string)
    requires FailsAt(Canonical(p), t, f) && FreshName(w, p.sandboxName)
    requires f > 0 ==> CreatedName(t) !in w.sandboxes
    ensures n in Replay(w, t).sandboxes
       <==> n in w.sandboxes || (f > 0 && n == CreatedName(t) && !Did(Undos(t, f), DeleteSandbox(n)))
    ensures n in w.sandboxes ==> Replay(w, t).sandboxes[n] == w.sandboxes[n]
    ensures f > 0 ==>
      exists j :: 0 <= j < |Undos(t, f)| && Undos(t, f)[j].call == DeleteSandbox(CreatedName(t))
  {
    FailedShape(p, t, f);
    CreatedExactly(p, t, f, n);
    hide Canonical, FailsAt, Replay, Effect, Created, Did;
    StepsAddSandboxes(w, Steps(t, f), n);
    UndoRemovesSandboxes(Replay(w, Steps(t, f)), Undos(t, f), n);
    if Did(Undos(t, f), DeleteSandbox(n)) {
      UndoIsOwn(p, t, f, DeleteSandbox(n));
    }
    if f > 0 {
      UndoIsMade(p, t, f, 0, DeleteSandbox(CreatedName(t)));
    }
  }

  /** Everything that was created has had a call to undo it succeed. */
  ghost predicate EverythingUndone(t: seq<Record>, f: nat)
    requires f < |t|
  {
    && (f > 0 ==> Did(Undos(t, f), DeleteSandbox(CreatedName(t))))
    && (forall x: (string, string) ::
          Did(Steps(t, f), EstablishForward(x.0, x.1)) ==> Did(Undos(t, f), RemoveForward(x.0, x.1)))
    && (forall b: (string, string) :: Started(Steps(t, f), b) ==> Did(Undos(t, f), StopBridge(b.0, b.1)))
  }

  /** If the name is fresh and the created sandbox new, a failed execution leaves the gateway as it
      was exactly if everything created was undone, which it is if no undo call fails. */
  lemma RollbackRestores(w: World, p: Plan, t: seq<Record>, f: nat)
    requires FailsAt(Canonical(p), t, f) && FreshName(w, p.sandboxName)
    requires f > 0 ==> CreatedName(t) !in w.sandboxes
    ensures Replay(w, t) == w <==> EverythingUndone(t, f)
    ensures AllOk(Undos(t, f)) ==> EverythingUndone(t, f)
  {
    assert f < |t|;
    hide FailsAt, Canonical, Replay, Started, Did;
    if EverythingUndone(t, f) {
      UndoneRestores(w, p, t, f);
    }
    if Replay(w, t) == w {
      RestoredIsUndone(w, p, t, f);
    }
    if AllOk(Undos(t, f)) {
      MadeIsUndone(w, p, t, f);
    }
  }

  lemma UndoneRestores(w: World, p: Plan, t: seq<Record>, f: nat)
    requires FailsAt(Canonical(p), t, f) && FreshName(w, p.sandboxName)
    requires f > 0 ==> CreatedName(t) !in w.sandboxes
    requires EverythingUndone(t, f)
    ensures Replay(w, t) == w
  {
    assert f < |t|;
    hide FailsAt, Canonical, Replay, Started, Did;
    var v := Replay(w, t);
    forall x ensures x in v.forwards <==> x in w.forwards {
      ForwardsLeft(w, p, t, f, x);
    }
    forall b ensures b in v.bridges <==> b in w.bridges
             ensures b in w.bridges ==> v.bridges[b] == w.bridges[b] {
      BridgesLeft(w, p, t, f, b);
    }
    forall n ensures n in v.sandboxes <==> n in w.sandboxes
             ensures n in w.sandboxes ==> v.sandboxes[n] == w.sandboxes[n] {
      SandboxesLeft(w, p, t, f, n);
    }
    assert v.forwards == w.forwards && v.bridges == w.bridges && v.sandboxes == w.sandboxes;
  }

  lemma RestoredIsUndone(w: World, p: Plan, t: seq<Record>, f: nat)
    requires FailsAt(Canonical(p), t, f) && FreshName(w, p.sandboxName)
    requires f > 0 ==> CreatedName(t) !in w.sandboxes
    requires Replay(w, t) == w
    ensures f < |t| && EverythingUndone(t, f)
  {
    assert f < |t|;
    hide FailsAt, Canonical, Replay, Started, Did;
    SandboxesLeft(w, p, t, f, CreatedName(t));
    forall x: (string, string) | Did(Steps(t, f), EstablishForward(x.0, x.1))
      ensures Did(Undos(t, f), RemoveForward(x.0, x.1))
    {
      EstablishedIsUndone(p, t, f, x);
      ForwardsLeft(w, p, t, f, x);
    }
    forall b | Started(Steps(t, f), b) ensures Did(Undos(t, f), StopBridge(b.0, b.1)) {
      StartedIsOwn(p, t, f, b);
      BridgesLeft(w, p, t, f, b);
    }
  }

  lemma MadeIsUndone(w: World, p: Plan, t: seq<Record>, f: nat)
    requires FailsAt(Canonical(p), t, f) && FreshName(w, p.sandboxName)
    requires f > 0 ==> CreatedName(t) !in w.sandboxes
    requires AllOk(Undos(t, f))
    ensures f < |t| && EverythingUndone(t, f)
  {
    assert f < |t|;
    hide FailsAt, Canonical, Replay, Started;
    var undo := Undos(t, f);
    forall c | exists j :: 0 <= j < |undo| && undo[j].call == c ensures Did(undo, c) {
    }
    SandboxesLeft(w, p, t, f, CreatedName(t));
    forall x: (string, string) | Did(Steps(t, f), EstablishForward(x.0, x.1))
      ensures Did(undo, RemoveForward(x.0, x.1))
    {
      EstablishedIsUndone(p, t, f, x);
    }
    forall b | Started(Steps(t, f), b) ensures Did(undo, StopBridge(b.0, b.1)) {
      StartedIsOwn(p, t, f, b);
    }
  }
}
