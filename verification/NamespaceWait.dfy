/** Waiting for a Kubernetes namespace to appear: a bounded number of attempts with growing pauses
    between them and a DNS probe at every third. */
module NamespaceWait {
  import opened Wrappers

  const ATTEMPTS: nat := 60
  const MAX_BACKOFF_MS: nat := 2000
  const DNS_PROBE_START: nat := 3
  const DNS_PROBE_INTERVAL: nat := 3
  const DNS_FAILURE_THRESHOLD: nat := 2

  /** A DNS probe resolves the registry, does not, or could not be run in the container. */
  datatype Probe = Resolves | DoesNotResolve | ExecFailed

  /** The namespace query: whether it could be run, and then whether it lists the namespace; if it
      could not be run, whether the container is still running. */
  datatype Query = Answered(found: bool) | NotRun(running: bool)

  datatype Attempt = Attempt(probe: Probe, query: Query)

  datatype Outcome = Found | DnsFailing | ContainerGone | ExecNeverWorked | TimedOut

  predicate Probes(k: nat) {
    k >= DNS_PROBE_START && (k - DNS_PROBE_START) % DNS_PROBE_INTERVAL == 0
  }

  // ---------------------------------------------------------------------------
  // When the wait ends
  // ---------------------------------------------------------------------------

  predicate Fails(attempts: seq<Attempt>, k: nat)
    requires k < |attempts|
  {
    Probes(k) && attempts[k].probe == DoesNotResolve
  }

  /** The probe at `k` fails, an earlier one failed, and none in between succeeded.  Probes that
      could not be run neither count nor reset. */
  predicate FailsTwice(attempts: seq<Attempt>, k: nat)
    requires k < |attempts|
  {
    && Fails(attempts, k)
    && exists j | 0 <= j < k ::
      && Fails(attempts, j)
      && forall i | j < i < k :: !(Probes(i) && attempts[i].probe == Resolves)
  }

  /** What the `k`-th attempt decides, if anything. */
  function OutcomeAt(attempts: seq<Attempt>, k: nat): Option<Outcome>
    requires k < |attempts|
  {
    if FailsTwice(attempts, k) then Some(DnsFailing)
    else
      match attempts[k].query
      case NotRun(false) => Some(ContainerGone)
      case NotRun(true) => if k + 1 == ATTEMPTS then Some(ExecNeverWorked) else None
      case Answered(true) => Some(Found)
      case Answered(false) => if k + 1 == ATTEMPTS then Some(TimedOut) else None
  }

  /** Failed probes since the last successful one, among the first `k` attempts. */
  function FailuresSince(attempts: seq<Attempt>, k: nat): nat
    requires k <= |attempts|
  {
    if k == 0 then 0
    else
      var before := FailuresSince(attempts, k - 1);
      if !Probes(k - 1) then before
      else
        match attempts[k - 1].probe
        case Resolves => 0
        case DoesNotResolve => before + 1
        case ExecFailed => before
  }

  lemma {:induction false} FailuresSinceExact(attempts: seq<Attempt>, k: nat)
    requires k <= |attempts|
    ensures FailuresSince(attempts, k) > 0
       <==> exists j | 0 <= j < k ::
              && Fails(attempts, j)
              && forall i | j < i < k :: !(Probes(i) && attempts[i].probe == Resolves)
  {
    hide Probes;
    if k > 0 {
      FailuresSinceExact(attempts, k - 1);
      if Fails(attempts, k - 1) {
        assert FailuresSince(attempts, k) > 0;
      }
    }
  }

  /** The counter reaches the threshold exactly when the probe fails a second time in a row. */
  lemma ThresholdExact(attempts: seq<Attempt>, k: nat)
    requires k < |attempts| && Fails(attempts, k)
    ensures FailuresSince(attempts, k) + 1 >= DNS_FAILURE_THRESHOLD <==> FailsTwice(attempts, k)
  {
    FailuresSinceExact(attempts, k);
  }

  // ---------------------------------------------------------------------------
  // Pauses
  // ---------------------------------------------------------------------------

  function Min(a: nat, b: nat): nat {
    if a < b then a else b
  }

  /** The pause after the `k`-th attempt: it doubles up to the maximum. */
  function Pause(k: nat): nat {
    if k == 0 then 200 else Min(Pause(k - 1) * 2, MAX_BACKOFF_MS)
  }

  function TotalPause(n: nat): nat {
    if n == 0 then 0 else TotalPause(n - 1) + Pause(n - 1)
  }

  lemma {:induction false} PauseCapped(k: nat)
    requires k >= 4
    ensures Pause(k) == MAX_BACKOFF_MS
  {
    if k == 4 {
      assert Pause(1) == 400 && Pause(2) == 800 && Pause(3) == 1600;
    } else {
      PauseCapped(k - 1);
    }
  }

  lemma {:induction false} TotalPauseCapped(n: nat)
    requires n >= 4
    ensures TotalPause(n) == 3000 + (n - 4) * MAX_BACKOFF_MS
  {
    if n == 4 {
      assert Pause(1) == 400 && Pause(2) == 800 && Pause(3) == 1600;
      assert TotalPause(2) == 600;
    } else {
      PauseCapped(n - 1);
      TotalPauseCapped(n - 1);
    }
  }

  lemma {:induction false} TotalPauseGrows(m: nat, n: nat)
    requires m <= n
    ensures TotalPause(m) <= TotalPause(n)
    decreases n
  {
    if m < n {
      TotalPauseGrows(m, n - 1);
    }
  }

  // ---------------------------------------------------------------------------
  // The loop
  // ---------------------------------------------------------------------------

  /** Every third attempt from the fourth on probes the name resolution; the `k`-th does so in vain,
      an earlier one did, and none in between succeeded. */
  ghost predicate DnsGivenUp(attempts: seq<Attempt>, k: nat)
    requires k < |attempts|
  {
    && k % 3 == 0 && attempts[k].probe == DoesNotResolve
    && exists j | 3 <= j < k ::
      && j % 3 == 0 && attempts[j].probe == DoesNotResolve
      && forall i | j < i < k && i % 3 == 0 :: attempts[i].probe != Resolves
  }

  /** The last attempt, the `k`-th, is what the outcome says, and no other outcome would. */
  ghost predicate Explained(attempts: seq<Attempt>, k: nat, outcome: Outcome)
    requires k < |attempts|
  {
    && (outcome == DnsFailing <==> DnsGivenUp(attempts, k))
    && (outcome == Found <==> !DnsGivenUp(attempts, k) && attempts[k].query == Answered(true))
    && (outcome == ContainerGone <==> !DnsGivenUp(attempts, k) && attempts[k].query == NotRun(false))
    && (outcome == ExecNeverWorked <==> !DnsGivenUp(attempts, k) && attempts[k].query == NotRun(true) && k == 59)
    && (outcome == TimedOut <==> !DnsGivenUp(attempts, k) && attempts[k].query == Answered(false) && k == 59)
  }

  lemma GivenUpExactly(attempts: seq<Attempt>, k: nat)
    requires k < |attempts|
    ensures FailsTwice(attempts, k) <==> DnsGivenUp(attempts, k)
  {
    forall i: nat ensures Probes(i) <==> i >= 3 && i % 3 == 0 {
    }
    hide Probes;
    if DnsGivenUp(attempts, k) {
      var j :| 3 <= j < k && j % 3 == 0 && attempts[j].probe == DoesNotResolve
        && forall i | j < i < k && i % 3 == 0 :: attempts[i].probe != Resolves;
      assert Fails(attempts, j);
    }
    if FailsTwice(attempts, k) {
      var j :| 0 <= j < k && Fails(attempts, j)
        && forall i | j < i < k :: !(Probes(i) && attempts[i].probe == Resolves);
      forall i | j < i < k && i % 3 == 0 ensures attempts[i].probe != Resolves {
        assert Probes(i);
      }
    }
  }

  /** The pauses after the first `n` attempts: 200, 400, 800 and 1600 ms, then 2 s each. */
  function PausesAdded(n: nat): nat {
    if n == 0 then 0 else if n == 1 then 200 else if n == 2 then 600 else if n == 3 then 1400
    else 3000 + (n - 4) * 2000
  }

  lemma PausesAre(n: nat)
    ensures TotalPause(n) == PausesAdded(n)
  {
    if n >= 4 {
      TotalPauseCapped(n);
    } else {
      assert Pause(0) == 200 && Pause(1) == 400 && Pause(2) == 800;
      assert TotalPause(1) == 200 && TotalPause(2) == 600 && TotalPause(3) == 1400;
    }
  }

  /** `made` attempts are made, the last of which is the first that decides, with a pause after
      each of the others.  One of all the attempts always decides. */
  method WaitForNamespace(attempts: seq<Attempt>) returns (outcome: Outcome, made: nat, pausedMs: nat)
    requires |attempts| == ATTEMPTS
    ensures 0 < made <= ATTEMPTS
    ensures forall k | 0 <= k < made - 1 :: OutcomeAt(attempts, k) == None
    ensures OutcomeAt(attempts, made - 1) == Some(outcome)
    ensures Explained(attempts, made - 1, outcome)
    ensures pausedMs == TotalPause(made - 1) == PausesAdded(made - 1) <= 113_000
  {
    hide FailsTwice, DnsGivenUp, Probes, Pause;
    TotalPauseCapped(ATTEMPTS - 1);
    FirstPause();
    LastAttemptDecides(attempts);
    var backoff := 200;
    var dnsFailures := 0;
    pausedMs := 0;
    for attempt := 0 to ATTEMPTS
      invariant forall k | 0 <= k < attempt :: OutcomeAt(attempts, k) == None
      invariant dnsFailures == FailuresSince(attempts, attempt)
      invariant backoff == Pause(attempt) && pausedMs == TotalPause(attempt)
    {
      made := attempt + 1;
      TotalPauseGrows(attempt, ATTEMPTS - 1);
      PausesAre(attempt);
      GivenUpExactly(attempts, attempt);
      if Probes(attempt) {
        match attempts[attempt].probe {
          case Resolves => dnsFailures := 0;
          case DoesNotResolve =>
            ThresholdExact(attempts, attempt);
            dnsFailures := dnsFailures + 1;
            if dnsFailures >= DNS_FAILURE_THRESHOLD {
              return DnsFailing, made, pausedMs;
            }
          case ExecFailed =>
        }
      }
      NotTwice(attempts, attempt);
      match attempts[attempt].query {
        case NotRun(running) =>
          if !running { return ContainerGone, made, pausedMs; }
          if attempt + 1 == ATTEMPTS { return ExecNeverWorked, made, pausedMs; }
        case Answered(found) =>
          if found { return Found, made, pausedMs; }
          if attempt + 1 == ATTEMPTS { return TimedOut, made, pausedMs; }
      }
      pausedMs := pausedMs + backoff;
      NextPause(attempt);
      backoff := Min(backoff * 2, MAX_BACKOFF_MS);
    }
    assert false;
  }

  /** This is why the loop cannot run out. */
  lemma LastAttemptDecides(attempts: seq<Attempt>)
    requires |attempts| == ATTEMPTS
    ensures OutcomeAt(attempts, ATTEMPTS - 1).Some?
  {
  }

  lemma FirstPause()
    ensures Pause(0) == 200
  {
  }

  lemma NextPause(k: nat)
    ensures Pause(k + 1) == Min(Pause(k) * 2, MAX_BACKOFF_MS)
  {
  }

  lemma NotTwice(attempts: seq<Attempt>, k: nat)
    requires k < |attempts|
    ensures !Fails(attempts, k) ==> !FailsTwice(attempts, k)
  {
  }
}
