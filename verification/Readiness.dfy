/** Waiting for a gateway container to become ready: polling its health, and giving up early when
    the recent log lines show a lasting failure. */
module Readiness {
  import opened Wrappers
  import opened Text

  // ---------------------------------------------------------------------------
  // The window of recent lines
  // ---------------------------------------------------------------------------

  const WINDOW: nat := 15

  function Last<T>(s: seq<T>, n: nat): (r: seq<T>)
    ensures |r| <= n
  {
    if |s| <= n then s else s[|s| - n..]
  }

  function LastLines(lines: seq<string>): seq<string> {
    Last(lines, WINDOW)
  }

  /** Keeping a window of a window and what follows is keeping a window of everything. */
  lemma LastOfLast<T>(a: seq<T>, b: seq<T>, n: nat)
    ensures Last(Last(a, n) + b, n) == Last(a + b, n)
  {
    if |a| > n {
      var cut := |a| - n;
      assert (a + b)[cut..] == a[cut..] + b;
      assert (a + b)[cut..][|b|..] == (a + b)[cut + |b|..];
    }
  }

  class Watcher {
    var recent: seq<string>
    var logged: seq<string>

    constructor ()
      ensures recent == [] && logged == []
    {
      recent, logged := [], [];
    }

    /** Takes all lines that wait on the channel. */
    method DrainLogs(waiting: seq<string>)
      requires recent == LastLines(logged)
      modifies this
      ensures logged == old(logged) + waiting
      ensures recent == LastLines(logged)
    {
      for n := 0 to |waiting|
        invariant logged == old(logged) + waiting[..n]
        invariant recent == LastLines(logged)
      {
        var line := waiting[n];
        ghost var was := logged;
        if |recent| == WINDOW {
          recent := recent[1..];
        }
        recent := recent + [line];
        logged := logged + [line];
        WindowMoves(was, line, WINDOW);
        assert waiting[..n + 1] == waiting[..n] + [line];
        Assoc(old(logged), waiting[..n], [line]);
      }
      assert waiting[..|waiting|] == waiting;
    }
  }

  lemma WindowMoves<T>(s: seq<T>, x: T, n: nat)
    requires n > 0
    ensures var w := Last(s, n);
      Last(s + [x], n) == (if |w| == n then w[1..] else w) + [x]
  {
    LastOfLast(s, [x], n);
  }

  // ---------------------------------------------------------------------------
  // What a poll sees
  // ---------------------------------------------------------------------------

  datatype Health = Healthy | Unhealthy | Starting | NoHealthCheck

  datatype Inspect = InspectFailed | Stopped | Running(health: Health)

  /** One round of polling: the lines that have arrived since the last, and the container's state. */
  datatype Poll = Poll(lines: seq<string>, inspect: Inspect)

  datatype Verdict =
    | Ready
    | DnsFailing
    | NodePressure
    | MissingSupervisor
    | CannotInspect
    | Exited
    | ReportedUnhealthy
    | HasNoHealthCheck
    | TimedOut

  const ATTEMPTS: nat := 180
  const DNS_FAILURE_GRACE_ITERATIONS: nat := 5
  const NODE_PRESSURE_GRACE_ITERATIONS: nat := 8

  datatype Marker = Dns | Pressure | Supervisor

  predicate Marks(line: string, m: Marker) {
    match m
    case Dns => Contains(line, "DNS_PROBE_FAILED") || Contains(line, "HEALTHCHECK_DNS_FAILURE")
    case Pressure => Contains(line, "HEALTHCHECK_NODE_PRESSURE")
    case Supervisor => Contains(line, "HEALTHCHECK_MISSING_SUPERVISOR")
  }

  function AllLines(polls: seq<Poll>): seq<string> {
    if polls == [] then [] else AllLines(polls[..|polls| - 1]) + polls[|polls| - 1].lines
  }

  predicate Shows(window: seq<string>, m: Marker) {
    exists line <- window :: Marks(line, m)
  }

  /** The marker is in the window at the `k`-th poll. */
  predicate Seen(polls: seq<Poll>, k: nat, m: Marker)
    requires k < |polls|
  {
    Shows(LastLines(AllLines(polls[..k + 1])), m)
  }

  /** For how many polls up to the `k`-th the marker has been seen without interruption. */
  function RunLength(polls: seq<Poll>, k: nat, m: Marker): nat
    requires k < |polls|
  {
    if !Seen(polls, k, m) then 0
    else if k == 0 then 1
    else RunLength(polls, k - 1, m) + 1
  }

  /** The run is the longest stretch of polls ending here that all saw the marker. */
  lemma {:induction false} RunLengthExact(polls: seq<Poll>, k: nat, m: Marker)
    requires k < |polls|
    ensures var r := RunLength(polls, k, m);
      && r <= k + 1
      && (forall j | k - r < j <= k :: Seen(polls, j, m))
      && (r <= k ==> !Seen(polls, k - r, m))
    decreases k
  {
    hide Seen;
    if Seen(polls, k, m) && k > 0 {
      RunLengthExact(polls, k - 1, m);
    }
  }

  /** What the `k`-th poll decides, if anything. */
  function VerdictAt(polls: seq<Poll>, k: nat): Option<Verdict>
    requires k < |polls|
  {
    if RunLength(polls, k, Dns) >= DNS_FAILURE_GRACE_ITERATIONS then Some(DnsFailing)
    else if RunLength(polls, k, Pressure) >= NODE_PRESSURE_GRACE_ITERATIONS then Some(NodePressure)
    else if Seen(polls, k, Supervisor) then Some(MissingSupervisor)
    else
      match polls[k].inspect
      case InspectFailed => Some(CannotInspect)
      case Stopped => Some(Exited)
      case Running(Healthy) => Some(Ready)
      case Running(Unhealthy) => if k + 1 == ATTEMPTS then Some(ReportedUnhealthy) else None
      case Running(NoHealthCheck) => if k == 0 then Some(HasNoHealthCheck) else None
      case Running(Starting) => None
  }

  /** A marker that is seen once goes on being seen while no new lines arrive: four quiet polls
      after a single DNS failure line are enough to give up. */
  lemma QuietMarkerCounts(polls: seq<Poll>, k: nat)
    requires 4 <= k < |polls| && Seen(polls, k - 4, Dns)
    requires forall j | k - 4 < j <= k :: polls[j].lines == []
    ensures VerdictAt(polls, k) == Some(DnsFailing)
  {
    hide Seen, RunLength;
    QuietRun(polls, k - 4, 4, Dns);
  }

  lemma {:induction false} QuietRun(polls: seq<Poll>, j: nat, n: nat, m: Marker)
    requires j + n < |polls| && Seen(polls, j, m)
    requires forall i | j < i <= j + n :: polls[i].lines == []
    ensures Seen(polls, j + n, m) && RunLength(polls, j + n, m) > n
    decreases n
  {
    hide Seen;
    if n > 0 {
      QuietRun(polls, j, n - 1, m);
      QuietKeepsSeen(polls, j + n, m);
    }
  }

  lemma QuietKeepsSeen(polls: seq<Poll>, k: nat, m: Marker)
    requires 0 < k < |polls| && polls[k].lines == [] && Seen(polls, k - 1, m)
    ensures Seen(polls, k, m)
  {
    assert polls[..k + 1][..k] == polls[..k];
    assert AllLines(polls[..k]) + [] == AllLines(polls[..k]);
  }

  // ---------------------------------------------------------------------------
  // The loop
  // ---------------------------------------------------------------------------

  /** No lasting failure shows in the log at the `k`-th poll. */
  predicate Quiet(polls: seq<Poll>, k: nat)
    requires k < |polls|
  {
    RunLength(polls, k, Dns) < 5 && RunLength(polls, k, Pressure) < 8 && !Seen(polls, k, Supervisor)
  }

  /** The last poll, the `k`-th, is what the verdict says, and no other verdict would. */
  predicate Explained(polls: seq<Poll>, k: nat, verdict: Verdict)
    requires k < |polls|
  {
    && (verdict == DnsFailing <==> RunLength(polls, k, Dns) >= 5)
    && (verdict == NodePressure <==> RunLength(polls, k, Dns) < 5 && RunLength(polls, k, Pressure) >= 8)
    && (verdict == MissingSupervisor <==>
          RunLength(polls, k, Dns) < 5 && RunLength(polls, k, Pressure) < 8 && Seen(polls, k, Supervisor))
    && (verdict == CannotInspect <==> Quiet(polls, k) && polls[k].inspect == InspectFailed)
    && (verdict == Exited <==> Quiet(polls, k) && polls[k].inspect == Stopped)
    && (verdict == Ready <==> Quiet(polls, k) && polls[k].inspect == Running(Healthy))
    && (verdict == HasNoHealthCheck <==> Quiet(polls, k) && polls[k].inspect == Running(NoHealthCheck) && k == 0)
    && (verdict == ReportedUnhealthy <==> Quiet(polls, k) && polls[k].inspect == Running(Unhealthy) && k == 179)
    && (verdict == TimedOut <==>
          && Quiet(polls, k) && k == 179
          && (polls[k].inspect == Running(Starting) || polls[k].inspect == Running(NoHealthCheck)))
  }

  /** One of the last fifteen lines has the text in it. */
  ghost predicate LastFifteenHave(lines: seq<string>, text: string) {
    exists i | 0 <= i < |lines| && |lines| - 15 <= i :: Contains(lines[i], text)
  }

  /** What the markers are: texts in the last fifteen lines that were logged up to a poll. */
  lemma SeenExactly(polls: seq<Poll>, k: nat)
    requires k < |polls|
    ensures var all := AllLines(polls[..k + 1]);
      && (Seen(polls, k, Dns) <==>
            LastFifteenHave(all, "DNS_PROBE_FAILED") || LastFifteenHave(all, "HEALTHCHECK_DNS_FAILURE"))
      && (Seen(polls, k, Pressure) <==> LastFifteenHave(all, "HEALTHCHECK_NODE_PRESSURE"))
      && (Seen(polls, k, Supervisor) <==> LastFifteenHave(all, "HEALTHCHECK_MISSING_SUPERVISOR"))
  {
    var all := AllLines(polls[..k + 1]);
    hide Contains, LastLines, LastFifteenHave;
    TextShows(all, "DNS_PROBE_FAILED");
    TextShows(all, "HEALTHCHECK_DNS_FAILURE");
    TextShows(all, "HEALTHCHECK_NODE_PRESSURE");
    TextShows(all, "HEALTHCHECK_MISSING_SUPERVISOR");
  }

  lemma TextShows(lines: seq<string>, text: string)
    ensures (exists line <- LastLines(lines) :: Contains(line, text)) <==> LastFifteenHave(lines, text)
  {
    hide Contains;
    var window := LastLines(lines);
    var d := |lines| - |window|;
    assert forall j | 0 <= j < |window| :: window[j] == lines[d + j];
    if i :| 0 <= i < |lines| && |lines| - 15 <= i && Contains(lines[i], text) {
      assert window[i - d] == lines[i];
    }
  }

  lemma VerdictsExplained(polls: seq<Poll>)
    requires |polls| == ATTEMPTS
    ensures forall k, verdict | 0 <= k < |polls| && VerdictAt(polls, k) == Some(verdict) :: Explained(polls, k, verdict)
    ensures VerdictAt(polls, ATTEMPTS - 1) == None ==> Explained(polls, ATTEMPTS - 1, TimedOut)
  {
    hide RunLength, Seen;
  }

  /** Polls until some poll decides; `polled` polls were made, and the last of them is the first
      that decides, unless none of all attempts does. */
  method WaitForGatewayReady(polls: seq<Poll>) returns (verdict: Verdict, polled: nat)
    requires |polls| == ATTEMPTS
    ensures 0 < polled <= ATTEMPTS
    ensures forall k | 0 <= k < polled - 1 :: VerdictAt(polls, k) == None
    ensures VerdictAt(polls, polled - 1) == Some(verdict)
      || (verdict == TimedOut && polled == ATTEMPTS && VerdictAt(polls, polled - 1) == None)
    ensures Explained(polls, polled - 1, verdict)
  {
    hide Shows, LastLines, RunLength, Explained, AllLines, Quiet;
    VerdictsExplained(polls);
    EachPoll(polls);
    var watcher := new Watcher();
    assert LastLines([]) == [] by { NoLines(); }
    var dnsCount, pressureCount := 0, 0;
    polled := 0;
    for attempt := 0 to ATTEMPTS
      invariant polled == attempt
      invariant watcher.logged == AllLines(polls[..attempt])
      invariant watcher.recent == LastLines(watcher.logged)
      invariant dnsCount == if attempt == 0 then 0 else RunLength(polls, attempt - 1, Dns)
      invariant pressureCount == if attempt == 0 then 0 else RunLength(polls, attempt - 1, Pressure)
      invariant forall k | 0 <= k < attempt :: VerdictAt(polls, k) == None
    {
      polled := attempt + 1;
      watcher.DrainLogs(polls[attempt].lines);
      RunLengthNext(polls, attempt, Dns);
      RunLengthNext(polls, attempt, Pressure);

      var dnsFailing := Shows(watcher.recent, Dns);
      if dnsFailing {
        dnsCount := dnsCount + 1;
        if dnsCount >= DNS_FAILURE_GRACE_ITERATIONS {
          return DnsFailing, polled;
        }
      } else {
        dnsCount := 0;
      }

      var underPressure := Shows(watcher.recent, Pressure);
      if !underPressure {
        pressureCount := 0;
      } else {
        pressureCount := pressureCount + 1;
        if pressureCount >= NODE_PRESSURE_GRACE_ITERATIONS {
          return NodePressure, polled;
        }
      }

      if Shows(watcher.recent, Supervisor) {
        return MissingSupervisor, polled;
      }

      match polls[attempt].inspect {
        case InspectFailed => return CannotInspect, polled;
        case Stopped => return Exited, polled;
        case Running(Healthy) => return Ready, polled;
        case Running(Unhealthy) =>
          if attempt + 1 == ATTEMPTS { return ReportedUnhealthy, polled; }
        case Running(NoHealthCheck) =>
          if attempt == 0 { return HasNoHealthCheck, polled; }
        case Running(Starting) =>
      }
    }
    verdict := TimedOut;
  }

  lemma EachPoll(polls: seq<Poll>)
    ensures AllLines(polls[..0]) == []
    ensures forall k | 0 <= k < |polls| :: AllLines(polls[..k + 1]) == AllLines(polls[..k]) + polls[k].lines
  {
    forall k | 0 <= k < |polls| ensures AllLines(polls[..k + 1]) == AllLines(polls[..k]) + polls[k].lines {
      assert polls[..k + 1][..k] == polls[..k];
    }
  }

  lemma NoLines()
    ensures LastLines([]) == []
  {
  }

  lemma RunLengthNext(polls: seq<Poll>, k: nat, m: Marker)
    requires k < |polls|
    ensures RunLength(polls, k, m)
         == if Seen(polls, k, m) then (if k == 0 then 0 else RunLength(polls, k - 1, m)) + 1 else 0
  {
  }
}
