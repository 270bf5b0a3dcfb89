/** The bounded event channel behind `sandbox watch`: events that find it full are dropped and
    counted, and every hundredth drop an overflow notice is attempted. */
module EventStream {
  import opened Wrappers
  import opened Text

  /** An event of some type; `overflow` is set for the stream's own overflow notices. */
  datatype Event = Event(eventType: string, overflow: Option<nat>, text: string)

  /** The event types to let through; none means all. */
  datatype Filter = Filter(types: seq<string>)

  datatype Config = Config(capacity: nat, filter: Filter)

  predicate Passes(f: Filter, e: Event) {
    f.types == [] || e.eventType in f.types
  }

  function Passing(f: Filter, events: seq<Event>): seq<Event> {
    if events == [] then []
    else
      var last := events[|events| - 1];
      Passing(f, events[..|events| - 1]) + if Passes(f, last) then [last] else []
  }

  function OverflowNotice(dropped: nat): Event {
    Event("watch", Some(dropped), "events dropped due to buffer overflow")
  }

  // ---------------------------------------------------------------------------
  // The stream and its history
  // ---------------------------------------------------------------------------

  datatype State = State(
    queue: seq<Event>,
    dropped: nat,
    // what happened so far
    accepted: seq<Event>,   // everything the channel took in
    taken: seq<Event>,      // everything received from it
    delivered: seq<Event>,  // what passed the filter and was handed out
    notices: nat            // overflow notices attempted
  )

  const START: State := State([], 0, [], [], [], 0)

  /** The channel takes an event in if it has room. */
  function Offer(c: Config, s: State, e: Event): State {
    if |s.queue| < c.capacity then s.(queue := s.queue + [e], accepted := s.accepted + [e]) else s
  }

  function TrySend(c: Config, s: State, e: Event): State {
    if |s.queue| < c.capacity then Offer(c, s, e)
    else
      var d := s.(dropped := s.dropped + 1);
      if d.dropped % 100 == 1
      then Offer(c, d.(notices := d.notices + 1), OverflowNotice(d.dropped))
      else d
  }

  /** The position of the first event that passes, or the number of events if none does. */
  function FirstPassing(f: Filter, events: seq<Event>): (n: nat)
    ensures n <= |events|
    ensures forall k | 0 <= k < n :: !Passes(f, events[k])
    ensures n < |events| ==> Passes(f, events[n])
  {
    if events == [] || Passes(f, events[0]) then 0 else 1 + FirstPassing(f, events[1..])
  }

  /** The receiver takes events off the channel up to the first that passes; without one it has
      emptied the channel and goes on waiting. */
  function NextEvent(c: Config, s: State): (State, Option<Event>) {
    var n := FirstPassing(c.filter, s.queue);
    if n < |s.queue| then
      (s.(queue := s.queue[n + 1..], taken := s.taken + s.queue[..n + 1], delivered := s.delivered + [s.queue[n]]),
       Some(s.queue[n]))
    else
      (s.(queue := [], taken := s.taken + s.queue), None)
  }

  /** An event is let through if no types are asked for, or its type is. */
  predicate LetThrough(types: seq<string>, e: Event) {
    types == [] || exists k | 0 <= k < |types| :: types[k] == e.eventType
  }

  /** The first event that is let through is handed out, and it and those before it are gone; if there
      is none, nothing is handed out and all are gone. */
  ghost predicate HandsOut(types: seq<string>, queue: seq<Event>, r: Option<Event>, after: seq<Event>) {
    match r
    case None => after == [] && forall k | 0 <= k < |queue| :: !LetThrough(types, queue[k])
    case Some(e) =>
      exists n | 0 <= n < |queue| ::
        && queue[n] == e && LetThrough(types, e) && after == queue[n + 1..]
        && forall k | 0 <= k < n :: !LetThrough(types, queue[k])
  }

  lemma HandsOutExactly(c: Config, s: State)
    ensures var (after, r) := NextEvent(c, s);
      && HandsOut(c.filter.types, s.queue, r, after.queue)
      && after.delivered == s.delivered + (if r.Some? then [r.value] else [])
      && after.dropped == s.dropped
  {
    forall e ensures Passes(c.filter, e) <==> LetThrough(c.filter.types, e) {
    }
    hide Passes, LetThrough;
    var n := FirstPassing(c.filter, s.queue);
    assert s.delivered + [] == s.delivered;
  }

  /** An event goes to the end of the queue if there is room, and is counted as dropped if not. */
  lemma SendExactly(c: Config, s: State, e: Event)
    ensures var after := TrySend(c, s, e);
      if |s.queue| < c.capacity then after.queue == s.queue + [e] && after.dropped == s.dropped
      else after.queue == s.queue && after.dropped == s.dropped + 1
  {
  }

  class EventStream {
    const config: Config
    var queue: seq<Event>
    var droppedCount: nat
    ghost var accepted: seq<Event>
    ghost var taken: seq<Event>
    ghost var delivered: seq<Event>
    ghost var notices: nat

    ghost function View(): State
      reads this
    {
      State(queue, droppedCount, accepted, taken, delivered, notices)
    }

    constructor (config: Config)
      ensures this.config == config && View() == START
    {
      this.config := config;
      queue, droppedCount := [], 0;
      accepted, taken, delivered, notices := [], [], [], 0;
    }

    /** The channel's own operation. */
    method ChannelTrySend(e: Event) returns (full: bool)
      modifies this
      ensures View() == Offer(config, old(View()), e)
      ensures full <==> |old(queue)| >= config.capacity
    {
      full := |queue| >= config.capacity;
      if !full {
        queue := queue + [e];
        accepted := accepted + [e];
      }
    }

    method TrySendEvent(e: Event)
      modifies this
      ensures View() == TrySend(config, old(View()), e)
    {
      var full := ChannelTrySend(e);
      if full {
        droppedCount := droppedCount + 1;
        if droppedCount % 100 == 1 {
          notices := notices + 1;
          var ignored := ChannelTrySend(OverflowNotice(droppedCount));
        }
      }
    }

    method ReceiveEvent() returns (r: Option<Event>)
      modifies this
      ensures (View(), r) == NextEvent(config, old(View()))
      ensures HandsOut(config.filter.types, old(queue), r, queue) && droppedCount == old(droppedCount)
    {
      ghost var before, k := queue, 0;
      while queue != []
        invariant k <= FirstPassing(config.filter, before)
        invariant queue == before[k..] && taken == old(taken) + before[..k]
        invariant View() == old(View()).(queue := queue, taken := taken)
        decreases |queue|
      {
        var event := queue[0];
        queue := queue[1..];
        taken := taken + [event];
        assert before[..k + 1] == before[..k] + [event];
        Assoc(old(taken), before[..k], [event]);
        k := k + 1;
        if Passes(config.filter, event) {
          delivered := delivered + [event];
          assert FirstPassing(config.filter, before) == k - 1 && before[k - 1] == event;
          HandsOutExactly(config, old(View()));
          return Some(event);
        }
      }
      assert before[..k] == before;
      r := None;
      HandsOutExactly(config, old(View()));
    }
  }

  // ---------------------------------------------------------------------------
  // Any sequence of operations
  // ---------------------------------------------------------------------------

  datatype Op = Send(event: Event) | Receive

  function Apply(c: Config, s: State, op: Op): State {
    match op
    case Send(e) => TrySend(c, s, e)
    case Receive => NextEvent(c, s).0
  }

  function Run(c: Config, ops: seq<Op>): State {
    if ops == [] then START else Apply(c, Run(c, ops[..|ops| - 1]), ops[|ops| - 1])
  }

  /** How many events the callers have offered. */
  function Offered(ops: seq<Op>): nat {
    if ops == [] then 0 else Offered(ops[..|ops| - 1]) + if ops[|ops| - 1].Send? then 1 else 0
  }

  lemma {:induction false} PassingConcat(f: Filter, a: seq<Event>, b: seq<Event>)
    ensures Passing(f, a + b) == Passing(f, a) + Passing(f, b)
  {
    if b == [] {
      assert a + b == a;
    } else {
      var n := |b| - 1;
      PassingConcat(f, a, b[..n]);
      assert (a + b)[..|a + b| - 1] == a + b[..n];
    }
  }

  lemma {:induction false} PassingNone(f: Filter, events: seq<Event>)
    requires forall k | 0 <= k < |events| :: !Passes(f, events[k])
    ensures Passing(f, events) == []
  {
    if events != [] {
      PassingNone(f, events[..|events| - 1]);
    }
  }

  /** Every event offered is received, waits in the queue, or was dropped: overflow notices never
      get in, because they are attempted only while the channel is full. */
  ghost predicate Conserved(c: Config, ops: seq<Op>, s: State) {
    && |s.queue| <= c.capacity
    && s.accepted == s.taken + s.queue
    && Offered(ops) == |s.taken| + |s.queue| + s.dropped
    && s.delivered == Passing(c.filter, s.taken)
    && s.notices == (s.dropped + 99) / 100
  }

  lemma {:induction false} RunConserves(c: Config, ops: seq<Op>)
    ensures Conserved(c, ops, Run(c, ops))
  {
    if ops != [] {
      var before, op := ops[..|ops| - 1], ops[|ops| - 1];
      RunConserves(c, before);
      match op
      case Send(e) =>
      case Receive => ReceiveConserves(c, before, Run(c, before));
    }
  }

  lemma ReceiveConserves(c: Config, ops: seq<Op>, s: State)
    requires Conserved(c, ops, s)
    ensures Conserved(c, ops, NextEvent(c, s).0)
  {
    hide Passing, FirstPassing;
    var n := FirstPassing(c.filter, s.queue);
    PassingOfFirst(c.filter, s.queue);
    if n < |s.queue| {
      PassingConcat(c.filter, s.taken, s.queue[..n + 1]);
      assert s.queue == s.queue[..n + 1] + s.queue[n + 1..];
      Assoc(s.taken, s.queue[..n + 1], s.queue[n + 1..]);
    } else {
      PassingConcat(c.filter, s.taken, s.queue);
    }
  }

  lemma PassingOfFirst(f: Filter, events: seq<Event>)
    ensures var n := FirstPassing(f, events);
      if n < |events| then Passing(f, events[..n + 1]) == [events[n]] else Passing(f, events) == []
  {
    hide FirstPassing;
    var n := FirstPassing(f, events);
    PassingNone(f, events[..n]);
    if n < |events| {
      assert events[..n + 1][..n] == events[..n];
    } else {
      assert events[..n] == events;
    }
  }

  /** The events the callers offered, in order. */
  function OfferedEvents(ops: seq<Op>): seq<Event> {
    if ops == [] then []
    else
      var last := ops[|ops| - 1];
      OfferedEvents(ops[..|ops| - 1]) + if last.Send? then [last.event] else []
  }

  /** `a` arises from `b` by leaving elements out. */
  predicate Subsequence(a: seq<Event>, b: seq<Event>)
    decreases |b|
  {
    if b == [] then a == []
    else
      var n := |b| - 1;
      || Subsequence(a, b[..n])
      || (a != [] && a[|a| - 1] == b[n] && Subsequence(a[..|a| - 1], b[..n]))
  }

  lemma SubsequenceExtended(a: seq<Event>, b: seq<Event>, e: Event)
    requires Subsequence(a, b)
    ensures Subsequence(a, b + [e]) && Subsequence(a + [e], b + [e])
  {
    Appended(a, e);
    Appended(b, e);
  }

  lemma {:induction false} OfferedCounted(ops: seq<Op>)
    ensures |OfferedEvents(ops)| == Offered(ops)
  {
    if ops != [] {
      OfferedCounted(ops[..|ops| - 1]);
    }
  }

  /** What the channel took in are offered events in their order, as many as were not dropped: no
      overflow notice ever gets in. */
  lemma {:induction false} AcceptedInOrder(c: Config, ops: seq<Op>)
    ensures Subsequence(Run(c, ops).accepted, OfferedEvents(ops))
    ensures |Run(c, ops).accepted| + Run(c, ops).dropped == |OfferedEvents(ops)|
  {
    RunConserves(c, ops);
    OfferedCounted(ops);
    if ops != [] {
      var before, op := ops[..|ops| - 1], ops[|ops| - 1];
      AcceptedInOrder(c, before);
      if op.Send? {
        SubsequenceExtended(Run(c, before).accepted, OfferedEvents(before), op.event);
      } else {
        assert OfferedEvents(before) + [] == OfferedEvents(before);
      }
    }
  }

  /** Events are dropped only while the channel is full, and never after it was taken in. */
  lemma DroppedOnlyWhenFull(c: Config, ops: seq<Op>, op: Op)
    ensures Run(c, ops + [op]).dropped
         == Run(c, ops).dropped + if op.Send? && |Run(c, ops).queue| == c.capacity then 1 else 0
  {
    RunConserves(c, ops);
    Appended(ops, op);
  }
}
