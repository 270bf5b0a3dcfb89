/** Reassembling the log lines of a container from the chunks of its output streams, and keeping
    the most recent ones. */
module GatewayLogs {
  import opened Text

  // ---------------------------------------------------------------------------
  // The lines of a text
  // ---------------------------------------------------------------------------

  const NEWLINE: char := '\n'

  function TrimEndReturns(s: string): (r: string)
    ensures r <= s && (r == [] || r[|r| - 1] != '\r')
    ensures forall k | |r| <= k < |s| :: s[k] == '\r'
  {
    if s != [] && s[|s| - 1] == '\r' then TrimEndReturns(s[..|s| - 1]) else s
  }

  /** A finished line is sent without its carriage returns, and not at all if nothing is left. */
  function Sent(line: string): seq<string> {
    if TrimEndReturns(line) == [] then [] else [TrimEndReturns(line)]
  }

  function SentAll(lines: seq<string>): seq<string> {
    if lines == [] then [] else SentAll(lines[..|lines| - 1]) + Sent(lines[|lines| - 1])
  }

  /** What a text sends: its finished lines. */
  function Lines(text: string): seq<string> {
    var p := Pieces(text, NEWLINE);
    SentAll(p[..|p| - 1])
  }

  /** What a text carries over: its unfinished last line. */
  function Rest(text: string): string {
    var p := Pieces(text, NEWLINE);
    p[|p| - 1]
  }

  /** What is sent of the unfinished line at the end: trimmed on both sides. */
  function Flushed(partial: string): seq<string> {
    if Trim(partial) == [] then [] else [Trim(partial)]
  }

  predicate AllReturns(s: string) {
    forall k | 0 <= k < |s| :: s[k] == '\r'
  }

  /** A finished line is sent without the carriage returns at its end, unless nothing is left. */
  lemma SentExactly(line: string, tail: string)
    requires AllReturns(tail) && (line == "" || line[|line| - 1] != '\r')
    ensures Sent(line + tail) == if line == "" then [] else [line]
  {
    hide TrimEndReturns;
    var s := line + tail;
    var r := TrimEndReturns(s);
    assert forall k | |line| <= k < |s| :: s[k] == tail[k - |line|];
    assert line != "" ==> s[|line| - 1] == line[|line| - 1];
    assert |r| == |line|;
    assert r == s[..|r|] == line;
  }

  /** An unfinished line is sent at the end without the white space around it, unless nothing is left. */
  lemma FlushedExactly(before: string, line: string, after: string)
    requires AllWhitespace(before) && AllWhitespace(after) && (line == "" || Trimmed(line))
    ensures Flushed(before + line + after) == if line == "" then [] else [line]
  {
    hide Trim, IsWhitespace;
    var s := before + line + after;
    var b, a := TrimExact(s);
    assert forall k | 0 <= k < |before| :: s[k] == before[k];
    assert forall k | |before| + |line| <= k < |s| :: s[k] == after[k - |before| - |line|];
    assert forall k | 0 <= k < |line| :: s[|before| + k] == line[k];
    OneMiddle(s, before, line, after, b, Trim(s), a);
  }

  /** There is only one way to take white space off both ends. */
  lemma OneMiddle(s: string, b: string, m: string, a: string, b': string, m': string, a': string)
    requires s == b + m + a == b' + m' + a'
    requires AllWhitespace(b) && AllWhitespace(a) && AllWhitespace(b') && AllWhitespace(a')
    requires (m == "" || Trimmed(m)) && (m' == "" || Trimmed(m'))
    ensures m == m'
  {
    hide IsWhitespace;
    assert forall k | 0 <= k < |b| :: s[k] == b[k];
    assert forall k | 0 <= k < |b'| :: s[k] == b'[k];
    assert forall k | |b| + |m| <= k < |s| :: s[k] == a[k - |b| - |m|];
    assert forall k | |b'| + |m'| <= k < |s| :: s[k] == a'[k - |b'| - |m'|];
    assert m != "" ==> s[|b|] == m[0] && s[|b| + |m| - 1] == m[|m| - 1];
    assert m' != "" ==> s[|b'|] == m'[0] && s[|b'| + |m'| - 1] == m'[|m'| - 1];
    if m != "" || m' != "" {
      assert m != "" && m' != "";
      assert |b| == |b'| && |m| == |m'|;
      assert m == s[|b|..|b| + |m|] == m';
    }
  }

  lemma SentAllSnoc(lines: seq<string>, line: string)
    ensures SentAll(lines + [line]) == SentAll(lines) + Sent(line)
  {
    Appended(lines, line);
  }

  lemma {:induction false} SentAllConcat(a: seq<string>, b: seq<string>)
    ensures SentAll(a + b) == SentAll(a) + SentAll(b)
  {
    if b == [] {
      assert a + b == a;
    } else {
      var rest, last := b[..|b| - 1], b[|b| - 1];
      LastSplit(b);
      Assoc(a, rest, [last]);
      SentAllSnoc(a + rest, last);
      SentAllSnoc(rest, last);
      SentAllConcat(a, rest);
      Assoc(SentAll(a), SentAll(rest), Sent(last));
    }
  }

  /** Feeding a text in two parts sends and carries over the same as feeding it at once. */
  lemma FeedAppend(a: string, b: string)
    ensures Lines(a + b) == Lines(a) + Lines(Rest(a) + b)
    ensures Rest(a + b) == Rest(Rest(a) + b)
    ensures NEWLINE !in Rest(a)
  {
    hide Pieces, SentAll;
    PiecesAppend(a, b, NEWLINE);
    PiecesJoin(a, NEWLINE);
    var p, q := Pieces(a, NEWLINE), Pieces(Rest(a) + b, NEWLINE);
    var all := Pieces(a + b, NEWLINE);
    assert all[..|all| - 1] == p[..|p| - 1] + q[..|q| - 1];
    SentAllConcat(p[..|p| - 1], q[..|q| - 1]);
  }

  /** The first line of a text that has a newline. */
  lemma FeedFirstLine(line: string, more: string)
    requires NEWLINE !in line
    ensures Lines(line + [NEWLINE] + more) == Sent(line) + Lines(more)
    ensures Rest(line + [NEWLINE] + more) == Rest(more)
  {
    PiecesUnique([line, []], NEWLINE);
    assert JoinPieces([line, []][..1], NEWLINE) == line;
    assert JoinPieces([line, []], NEWLINE) == line + [NEWLINE];
    FeedAppend(line + [NEWLINE], more);
    assert [line, []][..1] == [line] && [line][..0] == [];
    assert SentAll([line]) == Sent(line);
    assert [] + more == more;
  }

  lemma FeedUnfinished(text: string)
    requires NEWLINE !in text
    ensures Lines(text) == [] && Rest(text) == text
  {
    PiecesUnique([text], NEWLINE);
    assert [text][..0] == [];
  }

  // ---------------------------------------------------------------------------
  // The streams of a container
  // ---------------------------------------------------------------------------

  /** Where a line on the log channel comes from; `Failure` is the report of a broken stream. */
  datatype Source = StdOut | StdErr | Console | Failure

  datatype Message = Message(source: Source, line: string)

  /** What the container runtime delivers. */
  datatype Item =
    | Chunk(source: Source, text: string)
    | StdIn
    | StreamError(report: string)

  function Tagged(source: Source, lines: seq<string>): (r: seq<Message>)
    ensures |r| == |lines| && forall k | 0 <= k < |r| :: r[k] == Message(source, lines[k])
  {
    seq(|lines|, k requires 0 <= k < |lines| => Message(source, lines[k]))
  }

  /** The lines of one source, in the order they were sent. */
  function From(sent: seq<Message>, source: Source): seq<string> {
    if sent == [] then []
    else
      var last := sent[|sent| - 1];
      From(sent[..|sent| - 1], source) + if last.source == source then [last.line] else []
  }

  /** All text of one source. */
  function TextOf(items: seq<Item>, source: Source): string {
    if items == [] then []
    else
      var last := items[|items| - 1];
      TextOf(items[..|items| - 1], source) + if last.Chunk? && last.source == source then last.text else []
  }

  lemma {:induction false} FromConcat(a: seq<Message>, b: seq<Message>, source: Source)
    ensures From(a + b, source) == From(a, source) + From(b, source)
  {
    if b == [] {
      assert a + b == a;
    } else {
      var n := |b| - 1;
      FromConcat(a, b[..n], source);
      assert (a + b)[..|a + b| - 1] == a + b[..n];
    }
  }

  lemma {:induction false} FromTagged(lines: seq<string>, source: Source, other: Source)
    ensures From(Tagged(source, lines), other) == if source == other then lines else []
  {
    if lines != [] {
      var n := |lines| - 1;
      assert Tagged(source, lines)[..n] == Tagged(source, lines[..n]);
      FromTagged(lines[..n], source, other);
    }
  }

  lemma FromMore(sent: seq<Message>, source: Source, lines: seq<string>, other: Source)
    ensures From(sent + Tagged(source, lines), other) == From(sent, other) + if source == other then lines else []
  {
    FromConcat(sent, Tagged(source, lines), other);
    FromTagged(lines, source, other);
  }

  /** The position of the first stream error, or the number of items if there is none. */
  function FirstError(items: seq<Item>): (n: nat)
    ensures n <= |items| && (n < |items| ==> items[n].StreamError?)
    ensures forall k | 0 <= k < n :: !items[k].StreamError?
  {
    if items == [] || items[0].StreamError? then 0 else 1 + FirstError(items[1..])
  }

  /** What was sent and is carried over for a source is what its text so far asks for. */
  predicate InStep(items: seq<Item>, sent: seq<Message>, partials: map<Source, string>, source: Source) {
    && source in partials
    && From(sent, source) == Lines(TextOf(items, source))
    && partials[source] == Rest(TextOf(items, source))
  }

  predicate AllInStep(items: seq<Item>, sent: seq<Message>, partials: map<Source, string>) {
    && InStep(items, sent, partials, StdOut)
    && InStep(items, sent, partials, StdErr)
    && InStep(items, sent, partials, Console)
    && From(sent, Failure) == []
  }

  lemma InStepAtStart(partials: map<Source, string>)
    requires StdOut in partials && StdErr in partials && Console in partials
    requires partials[StdOut] == partials[StdErr] == partials[Console] == ""
    ensures AllInStep([], [], partials)
  {
    FeedUnfinished("");
  }

  /** One more chunk keeps a source in step, whether the chunk is its own or not. */
  lemma ChunkInStep(items: seq<Item>, sent: seq<Message>, partials: map<Source, string>, chunk: Item, source: Source)
    requires chunk.Chunk? && chunk.source in partials && InStep(items, sent, partials, source)
    ensures InStep(items + [chunk],
                   sent + Tagged(chunk.source, Lines(partials[chunk.source] + chunk.text)),
                   partials[chunk.source := Rest(partials[chunk.source] + chunk.text)],
                   source)
  {
    hide Lines, Rest, From;
    assert (items + [chunk])[..|items|] == items;
    FromMore(sent, chunk.source, Lines(partials[chunk.source] + chunk.text), source);
    if chunk.source == source {
      FeedAppend(TextOf(items, source), chunk.text);
    } else {
      assert TextOf(items, source) + [] == TextOf(items, source);
      assert From(sent, source) + [] == From(sent, source);
    }
  }

  lemma OtherInStep(items: seq<Item>, sent: seq<Message>, partials: map<Source, string>, item: Item)
    requires !item.Chunk? && AllInStep(items, sent, partials)
    ensures AllInStep(items + [item], sent, partials)
  {
    hide Lines, Rest, From;
    assert (items + [item])[..|items|] == items;
    forall source: Source ensures TextOf(items + [item], source) == TextOf(items, source) {
      assert TextOf(items, source) + [] == TextOf(items, source);
    }
  }

  lemma AllChunkInStep(items: seq<Item>, sent: seq<Message>, partials: map<Source, string>, chunk: Item)
    requires chunk.Chunk? && chunk.source != Failure && AllInStep(items, sent, partials)
    ensures chunk.source in partials
    ensures AllInStep(items + [chunk],
                      sent + Tagged(chunk.source, Lines(partials[chunk.source] + chunk.text)),
                      partials[chunk.source := Rest(partials[chunk.source] + chunk.text)])
  {
    ChunkInStep(items, sent, partials, chunk, StdOut);
    ChunkInStep(items, sent, partials, chunk, StdErr);
    ChunkInStep(items, sent, partials, chunk, Console);
    FromMore(sent, chunk.source, Lines(partials[chunk.source] + chunk.text), Failure);
  }

  /** A broken stream adds its report and nothing else. */
  lemma Broken(items: seq<Item>, sent: seq<Message>, partials: map<Source, string>, report: string)
    requires AllInStep(items, sent, partials)
    ensures var all := sent + [Message(Failure, report)];
      && From(all, StdOut) == Lines(TextOf(items, StdOut))
      && From(all, StdErr) == Lines(TextOf(items, StdErr))
      && From(all, Console) == Lines(TextOf(items, Console))
      && From(all, Failure) == [report]
  {
    var all := sent + [Message(Failure, report)];
    assert all[..|sent|] == sent;
  }

  /** Flushing the three sources one after the other adds what is left of each. */
  lemma Ended(items: seq<Item>, sent: seq<Message>, partials: map<Source, string>)
    requires AllInStep(items, sent, partials)
    ensures var all := sent + Tagged(StdOut, Flushed(partials[StdOut])) + Tagged(StdErr, Flushed(partials[StdErr]))
                       + Tagged(Console, Flushed(partials[Console]));
      && From(all, StdOut) == Lines(TextOf(items, StdOut)) + Flushed(Rest(TextOf(items, StdOut)))
      && From(all, StdErr) == Lines(TextOf(items, StdErr)) + Flushed(Rest(TextOf(items, StdErr)))
      && From(all, Console) == Lines(TextOf(items, Console)) + Flushed(Rest(TextOf(items, Console)))
      && From(all, Failure) == []
  {
    hide From, Lines, Rest, Flushed, Tagged;
    var one := sent + Tagged(StdOut, Flushed(partials[StdOut]));
    var two := one + Tagged(StdErr, Flushed(partials[StdErr]));
    forall source: Source | source == Failure || source in partials
      ensures From(two + Tagged(Console, Flushed(partials[Console])), source)
           == From(sent, source) + if source == Failure then [] else Flushed(partials[source])
    {
      FromMore(sent, StdOut, Flushed(partials[StdOut]), source);
      FromMore(one, StdErr, Flushed(partials[StdErr]), source);
      FromMore(two, Console, Flushed(partials[Console]), source);
    }
  }

  lemma SentIs(line: string, trimmed: string)
    requires trimmed == TrimEndReturns(line)
    ensures Sent(line) == if trimmed == [] then [] else [trimmed]
  {
  }

  class LogStream {
    var partials: map<Source, string>
    var sent: seq<Message>

    predicate Valid()
      reads this
    {
      StdOut in partials && StdErr in partials && Console in partials
    }

    constructor ()
      ensures Valid() && sent == []
      ensures partials[StdOut] == partials[StdErr] == partials[Console] == ""
    {
      partials := map[StdOut := "", StdErr := "", Console := ""];
      sent := [];
    }

    /** Sends the finished lines of the carried text and the chunk, and carries over the rest. */
    method AppendLogChunk(source: Source, chunk: string)
      requires Valid() && source in partials
      modifies this
      ensures Valid() && sent == old(sent) + Tagged(source, Lines(old(partials)[source] + chunk))
      ensures partials == old(partials)[source := Rest(old(partials)[source] + chunk)]
      ensures NEWLINE !in partials[source]
    {
      hide Lines, Rest, Sent, Tagged, TrimEndReturns, FindChar;
      var partial := partials[source] + chunk;
      ghost var text, done := partial, [];
      while NEWLINE in partial
        invariant partials == old(partials)
        invariant sent == old(sent) + Tagged(source, done)
        invariant Lines(text) == done + Lines(partial) && Rest(text) == Rest(partial)
        decreases |partial|
      {
        var pos := FindChar(partial, NEWLINE).value;
        var line := TrimEndReturns(partial[..pos]);
        ghost var first, was := partial[..pos], partial;
        if line != [] {
          sent := sent + [Message(source, line)];
        }
        SentIs(first, line);
        partial := partial[pos + 1..];
        assert was == first + [NEWLINE] + partial;
        FeedFirstLine(first, partial);
        done := done + Sent(first);
      }
      FeedUnfinished(partial);
      partials := partials[source := partial];
      assert Lines(text) == done;
    }

    /** Sends what is left of a source, trimmed. */
    method FlushPartial(source: Source)
      requires Valid() && source in partials
      modifies this
      ensures Valid() && sent == old(sent) + Tagged(source, Flushed(old(partials)[source]))
      ensures partials == old(partials)[source := ""]
    {
      var line := Trim(partials[source]);
      if line != [] {
        sent := sent + [Message(source, line)];
      }
      partials := partials[source := ""];
    }

    /** Every source is reassembled by itself, however its text is cut into chunks and mixed with
        the other sources: a stream that ends well sends the lines of the whole text and the
        trimmed rest; one that breaks sends the lines so far and a report, and drops the rest. */
    method StreamContainerLogs(items: seq<Item>)
      requires Valid() && sent == [] && partials[StdOut] == partials[StdErr] == partials[Console] == ""
      requires forall k | 0 <= k < |items| && items[k].Chunk? :: items[k].source != Failure
      modifies this
      ensures forall source | source in {StdOut, StdErr, Console} ::
        From(sent, source) ==
          var n := FirstError(items);
          var text := TextOf(items[..n], source);
          if n == |items| then Lines(text) + Flushed(Rest(text)) else Lines(text)
      ensures From(sent, Failure)
        == if FirstError(items) == |items| then [] else [items[FirstError(items)].report]
    {
      hide Lines, Rest, Flushed, From, InStep, TextOf, Tagged;
      InStepAtStart(partials);
      assert items[..0] == [];
      for n := 0 to |items|
        invariant Valid() && n <= FirstError(items)
        invariant AllInStep(items[..n], sent, partials)
      {
        assert items[..n + 1] == items[..n] + [items[n]];
        match items[n]
        case Chunk(source, text) =>
          AllChunkInStep(items[..n], sent, partials, items[n]);
          AppendLogChunk(source, text);
        case StdIn =>
          OtherInStep(items[..n], sent, partials, items[n]);
        case StreamError(report) =>
          Broken(items[..n], sent, partials, report);
          sent := sent + [Message(Failure, report)];
          return;
      }
      assert items[..|items|] == items;
      Ended(items, sent, partials);
      FlushPartial(StdOut);
      FlushPartial(StdErr);
      FlushPartial(Console);
    }
  }
}
