/** What log lines say: for every line and every event, whether the line is read as that event, told
    from the text alone.  The parser finds out exactly this. */
module LineReading {
  import opened Wrappers
  import opened Text
  import opened LogParser

  // ---------------------------------------------------------------------------
  // The five kinds of lines
  // ---------------------------------------------------------------------------

  /** The part before the first space, and the part after it if there is one. */
  predicate FirstAndRest(s: string, first: string, rest: Option<string>) {
    && ' ' !in first
    && s == match rest case None => first case Some(r) => first + " " + r
  }

  ghost predicate SaysResult(right: string, result: string, rule: Option<string>) {
    match rule
    case None => !Contains(right, " [rule: ") && result == Trim(right)
    case Some(name) =>
      exists front, back ::
        && Clear(front, " [rule: ") && right == front + " [rule: " + back && result == Trim(front)
        && (back == name + "]" || (back == name && (name == "" || name[|name| - 1] != ']')))
  }

  /** `<action> <endpoint> -> <result> [rule: <rule>]` */
  ghost predicate SaysPolicy(body: string, e: Payload)
    requires e.PolicyDecision?
  {
    exists left, right ::
      && Clear(left, " -> ") && body == left + " -> " + right
      && FirstAndRest(Trim(left), e.action, e.endpoint) && SaysResult(right, e.result, e.ruleMatched)
  }

  /** `<method> <host>:<port> <result>` */
  ghost predicate SaysNetwork(words: seq<string>, e: Payload)
    requires e.NetworkRequest?
  {
    && |words| >= 3 && words[0] == e.netMethod && e.policyResult == JoinWords(words[2..])
    && exists port ::
      words[1] == e.host + ":" + port && ':' !in port && ParseUnsigned(port, 0xFFFF) == Some(e.port)
  }

  /** The command, with an exit code behind it or not. */
  ghost predicate SaysCommand(body: string, command: string, exit: Option<int>) {
    || (!Contains(body, "[exit=") && command == body && exit == None)
    || exists before, code, more :: SaysExit(body, command, exit, before, code, more)
  }

  predicate SaysExit(body: string, command: string, exit: Option<int>, before: string, code: string, more: string) {
    && Clear(before, "[exit=") && body == before + "[exit=" + (code + "]" + more) && ']' !in code
    && command == Trim(before) && exit == ParseI32(code)
  }

  /** `<command> [exit=<code>] [<duration>ms]` */
  ghost predicate SaysExec(body: string, e: Payload)
    requires e.CommandExecuted?
  {
    && e.command != ""
    && (exists command :: SaysCommand(body, command, e.exitCode) && e.command == Trim(TrimEndBrackets(command)))
    && match e.durationMs
       case Some(n) => SaysDuration(body, n)
       case None => SaysNoDuration(body)
  }

  /** `<operation> <path> by <process>` */
  ghost predicate SaysFile(body: string, e: Payload)
    requires e.FileChanged?
  {
    exists main ::
      && FirstAndRest(main, e.operation, Some(e.path))
      && match e.process
         case None => !Contains(body, " by ") && body == main
         case Some(process) => Clear(main, " by ") && body == main + " by " + process
  }

  /** `<phase> from <previous phase>` */
  ghost predicate SaysLifecycle(body: string, e: Payload)
    requires e.SandboxStateChange?
  {
    && e.phase != ""
    && match e.previousPhase
       case None => !Contains(body, " from ") && e.phase == body
       case Some(previous) =>
         exists left, right ::
           && Clear(left, " from ") && body == left + " from " + right
           && e.phase == Trim(left) && previous == Trim(right)
  }

  /** What a whole line says. */
  ghost predicate Says(line: string, offset: nat, e: Payload) {
    match e
    case ParseError(at) => '\U{FFFD}' in Trim(line) && at == offset
    case PolicyDecision(_, _, _, _) =>
      '\U{FFFD}' !in Trim(line) && "policy:" <= Trim(line) && SaysPolicy(Trim(Trim(line)[7..]), e)
    case NetworkRequest(_, _, _, _) =>
      && '\U{FFFD}' !in Trim(line) && "network:" <= Trim(line)
      && exists words :: WordsOf(Trim(Trim(line)[8..]), words) && SaysNetwork(words, e)
    case CommandExecuted(_, _, _) =>
      '\U{FFFD}' !in Trim(line) && "exec:" <= Trim(line) && SaysExec(Trim(Trim(line)[5..]), e)
    case FileChanged(_, _, _) =>
      '\U{FFFD}' !in Trim(line) && "file:" <= Trim(line) && SaysFile(Trim(Trim(line)[5..]), e)
    case SandboxStateChange(_, _) =>
      '\U{FFFD}' !in Trim(line) && "lifecycle:" <= Trim(line) && SaysLifecycle(Trim(Trim(line)[10..]), e)
  }

  // ---------------------------------------------------------------------------
  // Words
  // ---------------------------------------------------------------------------

  /** The text starts with this word, after some white space or none. */
  predicate Fronted(s: string, gap: string, word: string, rest: string) {
    && s == gap + (word + rest) && AllWhitespace(gap)
    && word != "" && NoWhitespace(word)
    && (rest == "" || IsWhitespace(rest[0]))
  }

  /** The text is these words, with white space before, between and behind them. */
  ghost predicate WordsOf(s: string, words: seq<string>)
    decreases |words|
  {
    if words == [] then AllWhitespace(s)
    else exists gap, rest :: Fronted(s, gap, words[0], rest) && WordsOf(rest, words[1..])
  }

  /** There is one way to take a word off the front. */
  lemma FrontWord(s: string, gap: string, word: string, rest: string)
    requires Fronted(s, gap, word, rest)
    ensures TrimStart(s) == word + rest && TrimStart(s) != "" && FirstWord(word + rest) == word
    ensures (word + rest)[|word|..] == rest
  {
    TrimGap(gap, word + rest);
    FirstWordIs(word, rest);
  }

  lemma FirstWordIs(word: string, rest: string)
    requires NoWhitespace(word) && (rest == "" || IsWhitespace(rest[0]))
    ensures FirstWord(word + rest) == word
  {
    hide FirstWord, IsWhitespace;
    var t := word + rest;
    var w := FirstWord(t);
    assert forall k | 0 <= k < |w| :: w[k] == t[k];
    assert forall k | 0 <= k < |word| :: t[k] == word[k];
    assert rest != "" ==> t[|word|] == rest[0];
    assert |w| == |word|;
    assert t[..|word|] == word;
  }

  lemma TrimGap(gap: string, t: string)
    requires AllWhitespace(gap) && (t == "" || !IsWhitespace(t[0]))
    ensures TrimStart(gap + t) == t
  {
    hide TrimStart, IsWhitespace;
    var s := gap + t;
    var r := TrimStart(s);
    assert forall k | 0 <= k < |gap| :: s[k] == gap[k];
    assert r != "" ==> r[0] == s[|s| - |r|];
    assert t != "" ==> t[0] == s[|gap|];
    assert |r| == |t|;
    assert s[|gap|..] == t;
  }

  /** What splitting does first. */
  lemma SplitFront(s: string) returns (gap: string, word: string, rest: string)
    requires TrimStart(s) != ""
    ensures Fronted(s, gap, word, rest) && |rest| < |s|
    ensures SplitWhitespace(s) == [word] + SplitWhitespace(rest)
  {
    hide TrimStart, FirstWord, IsWhitespace, AllWhitespace, NoWhitespace;
    var t := TrimStart(s);
    gap := s[..|s| - |t|];
    word := FirstWord(t);
    rest := t[|word|..];
    SplitUnfolds(s);
    hide SplitWhitespace;
    OffTheFront(s);
    FrontParts(s, t, word);
    WordFound(t);
  }

  lemma SplitUnfolds(s: string)
    requires TrimStart(s) != ""
    ensures var t := TrimStart(s);
      SplitWhitespace(s) == [FirstWord(t)] + SplitWhitespace(t[|FirstWord(t)|..])
  {
    hide TrimStart, FirstWord;
  }

  lemma WordFound(t: string)
    requires t != "" && !IsWhitespace(t[0])
    ensures FirstWord(t) != "" && NoWhitespace(FirstWord(t))
    ensures var rest := t[|FirstWord(t)|..]; rest == "" || IsWhitespace(rest[0])
  {
    hide IsWhitespace;
  }

  lemma FrontParts<T>(s: seq<T>, t: seq<T>, w: seq<T>)
    requires |t| <= |s| && t == s[|s| - |t|..] && w <= t
    ensures s == s[..|s| - |t|] + (w + t[|w|..])
  {
    assert t == w + t[|w|..];
  }

  lemma {:induction false} SplitMeans(s: string, words: seq<string>)
    ensures SplitWhitespace(s) == words <==> WordsOf(s, words)
    decreases |s|
  {
    if TrimStart(s) == "" {
      NothingToSplit(s, words);
    } else {
      var gap, word, rest := SplitFront(s);
      if words != [] {
        SplitMeans(rest, words[1..]);
      }
      FrontMeans(s, gap, word, rest, words);
    }
  }

  lemma NothingToSplit(s: string, words: seq<string>)
    requires TrimStart(s) == ""
    ensures SplitWhitespace(s) == words <==> WordsOf(s, words)
  {
    OffTheFront(s);
    assert s[..|s| - 0] == s;
    if words != [] && WordsOf(s, words) {
      var gap, rest :| Fronted(s, gap, words[0], rest) && WordsOf(rest, words[1..]);
      FrontWord(s, gap, words[0], rest);
    }
  }

  lemma FrontMeans(s: string, gap: string, word: string, rest: string, words: seq<string>)
    requires Fronted(s, gap, word, rest) && SplitWhitespace(s) == [word] + SplitWhitespace(rest)
    requires words != [] ==> (SplitWhitespace(rest) == words[1..] <==> WordsOf(rest, words[1..]))
    ensures SplitWhitespace(s) == words <==> WordsOf(s, words)
  {
    hide SplitWhitespace, TrimStart, FirstWord, Fronted;
    if words == [] {
      NotAllWhitespace(s, gap, word, rest);
    } else {
      assert words == [words[0]] + words[1..];
      if SplitWhitespace(s) == words {
        Cancel([word], SplitWhitespace(rest), words[1..]);
      }
      if WordsOf(s, words) {
        var g, r :| Fronted(s, g, words[0], r) && WordsOf(r, words[1..]);
        FrontWord(s, g, words[0], r);
        FrontWord(s, gap, word, rest);
        assert words[0] == word && r == rest;
      }
    }
  }

  lemma NotAllWhitespace(s: string, gap: string, word: string, rest: string)
    requires Fronted(s, gap, word, rest)
    ensures !AllWhitespace(s)
  {
    hide IsWhitespace;
    assert s[|gap|] == word[0];
  }

  // ---------------------------------------------------------------------------
  // The parser reads what the lines say
  // ---------------------------------------------------------------------------

  lemma FirstSpaceMeans(s: string, first: string, rest: Option<string>)
    ensures FirstSpace(s) == (first, rest) <==> FirstAndRest(s, first, rest)
  {
    hide Trim;
    FirstSpaceJoins(s);
    if FirstAndRest(s, first, rest) {
      FirstSpaceOf(first, rest);
      match rest
      case None => assert first + [] == first;
      case Some(r) => assert first + (" " + r + "") == first + " " + r;
    }
    if FirstSpace(s) == (first, rest) {
      match rest
      case None => assert first + [] == first;
      case Some(r) => assert first + (" " + r + "") == first + " " + r;
    }
  }

  lemma ResultMeans(right: string, result: string, rule: Option<string>)
    ensures ResultAndRule(right) == (result, rule) <==> SaysResult(right, result, rule)
  {
    hide Trim, SplitOnce, Contains, Clear;
    SplitOnceNone(right, " [rule: ");
    forall front, back
      ensures SplitOnce(right, " [rule: ") == Some((front, back))
         <==> Clear(front, " [rule: ") && right == front + " [rule: " + back
    {
      SplitOnceMeans(right, " [rule: ", front, back);
    }
    forall back: string, name: string
      ensures (match StripSuffix(back, "]") case Some(n) => n case None => back) == name
         <==> back == name + "]" || (back == name && (name == "" || name[|name| - 1] != ']'))
    {
      ClosedName(back, name);
    }
    hide StripSuffix;
  }

  lemma ClosedName(back: string, name: string)
    ensures (match StripSuffix(back, "]") case Some(n) => n case None => back) == name
       <==> back == name + "]" || (back == name && (name == "" || name[|name| - 1] != ']'))
  {
    if back != "" && back[|back| - 1] == ']' {
      assert back[|back| - 1..] == "]";
      assert back == back[..|back| - 1] + "]";
    } else {
      assert back != "" ==> back[|back| - 1..][0] == back[|back| - 1];
    }
    assert (name + "]")[..|name|] == name;
  }

  lemma PolicyMeans(body: string, e: Payload)
    requires e.PolicyDecision?
    ensures PolicyBody(body) == Some(e) <==> SaysPolicy(body, e)
  {
    hide Trim, SplitOnce, Clear, FirstSpace, ResultAndRule, SaysResult, FirstAndRest;
    forall left, right
      ensures SplitOnce(body, " -> ") == Some((left, right))
         <==> Clear(left, " -> ") && body == left + " -> " + right
    {
      SplitOnceMeans(body, " -> ", left, right);
    }
    forall left ensures FirstSpace(Trim(left)) == (e.action, e.endpoint)
      <==> FirstAndRest(Trim(left), e.action, e.endpoint)
    {
      FirstSpaceMeans(Trim(left), e.action, e.endpoint);
    }
    forall right ensures ResultAndRule(right) == (e.result, e.ruleMatched)
      <==> SaysResult(right, e.result, e.ruleMatched)
    {
      ResultMeans(right, e.result, e.ruleMatched);
    }
  }

  lemma NetworkMeans(words: seq<string>, e: Payload)
    requires e.NetworkRequest?
    ensures NetworkBody(words) == Some(e) <==> SaysNetwork(words, e)
  {
    hide RSplitOnce, ParseUnsigned, JoinWords;
    if |words| >= 3 {
      forall host, port
        ensures RSplitOnce(words[1], ":") == Some((host, port)) <==> words[1] == host + ":" + port && ':' !in port
      {
        RSplitOnceMeans(words[1], ':', host, port);
      }
    }
  }

  lemma CommandMeans(body: string, command: string, exit: Option<int>)
    ensures ExitPart(body) == Some((command, exit)) <==> SaysCommand(body, command, exit)
  {
    hide Trim, SplitOnce, Contains, Clear, ParseI32, FindChar;
    SplitOnceNone(body, "[exit=");
    if ExitPart(body) == Some((command, exit)) && SplitOnce(body, "[exit=").Some? {
      ExitFound(body, command, exit);
    }
    if before, code, more :| SaysExit(body, command, exit, before, code, more) {
      SplitOnceMeans(body, "[exit=", before, code + "]" + more);
      FindClose(code, ']', more);
      assert code + "]" + more == code + ([']'] + more);
    }
  }

  lemma ExitFound(body: string, command: string, exit: Option<int>)
    requires ExitPart(body) == Some((command, exit)) && SplitOnce(body, "[exit=").Some?
    ensures exists before, code, more :: SaysExit(body, command, exit, before, code, more)
  {
    hide Trim, SplitOnce, Contains, Clear, ParseI32, FindChar;
    var (before, after) := SplitOnce(body, "[exit=").value;
    SplitOnceMeans(body, "[exit=", before, after);
    var end := FindChar(after, ']').value;
    assert after == after[..end] + "]" + after[end + 1..];
    assert SaysExit(body, command, exit, before, after[..end], after[end + 1..]);
  }

  lemma ExecMeans(body: string, e: Payload)
    requires e.CommandExecuted?
    ensures ExecBody(body) == Some(e) <==> SaysExec(body, e)
  {
    hide Trim, ExitPart, DurationPart, SaysCommand, SaysDuration, SaysNoDuration, TrimEndBrackets;
    DurationExact(body);
    forall command ensures ExitPart(body) == Some((command, e.exitCode)) <==> SaysCommand(body, command, e.exitCode) {
      CommandMeans(body, command, e.exitCode);
    }
  }

  lemma FileMeans(body: string, e: Payload)
    requires e.FileChanged?
    ensures FileBody(body) == Some(e) <==> SaysFile(body, e)
  {
    hide SplitOnce, Contains, Clear, FirstSpace, FirstAndRest;
    SplitOnceNone(body, " by ");
    forall main, process
      ensures SplitOnce(body, " by ") == Some((main, process))
         <==> Clear(main, " by ") && body == main + " by " + process
    {
      SplitOnceMeans(body, " by ", main, process);
    }
    forall main ensures FirstSpace(main) == (e.operation, Some(e.path))
      <==> FirstAndRest(main, e.operation, Some(e.path))
    {
      FirstSpaceMeans(main, e.operation, Some(e.path));
    }
  }

  lemma LifecycleMeans(body: string, e: Payload)
    requires e.SandboxStateChange?
    ensures LifecycleBody(body) == Some(e) <==> SaysLifecycle(body, e)
  {
    hide Trim, SplitOnce, Contains, Clear;
    SplitOnceNone(body, " from ");
    forall left, right
      ensures SplitOnce(body, " from ") == Some((left, right))
         <==> Clear(left, " from ") && body == left + " from " + right
    {
      SplitOnceMeans(body, " from ", left, right);
    }
  }

  lemma KindsOfBodies(body: string, words: seq<string>)
    ensures PolicyBody(body).Some? ==> PolicyBody(body).value.PolicyDecision?
    ensures NetworkBody(words).Some? ==> NetworkBody(words).value.NetworkRequest?
    ensures ExecBody(body).Some? ==> ExecBody(body).value.CommandExecuted?
    ensures FileBody(body).Some? ==> FileBody(body).value.FileChanged?
    ensures LifecycleBody(body).Some? ==> LifecycleBody(body).value.SandboxStateChange?
  {
    hide Trim, SplitOnce, ExitPart, DurationPart, TrimEndBrackets, RSplitOnce, ParseUnsigned, JoinWords;
    hide FirstSpace, ResultAndRule;
  }

  /** For every line, offset and event: the line is read as the event exactly if it says so. */
  lemma ReadExactly(line: string, offset: nat, e: Payload)
    ensures ParseLogLine(line, offset) == Some(e) <==> Says(line, offset, e)
  {
    hide Trim, PolicyBody, NetworkBody, ExecBody, FileBody, LifecycleBody, SplitWhitespace;
    hide SaysPolicy, SaysNetwork, SaysExec, SaysFile, SaysLifecycle, WordsOf;
    var t := Trim(line);
    if t != [] {
      OtherKinds(t);
    }
    BodiesAre(t);
    match e {
      case ParseError(_) =>
      case PolicyDecision(_, _, _, _) => if "policy:" <= t { PolicyMeans(Trim(t[7..]), e); }
      case NetworkRequest(_, _, _, _) =>
        if "network:" <= t {
          var body := Trim(t[8..]);
          NetworkMeans(SplitWhitespace(body), e);
          forall words ensures WordsOf(body, words) <==> words == SplitWhitespace(body) {
            SplitMeans(body, words);
          }
        }
      case CommandExecuted(_, _, _) => if "exec:" <= t { ExecMeans(Trim(t[5..]), e); }
      case FileChanged(_, _, _) => if "file:" <= t { FileMeans(Trim(t[5..]), e); }
      case SandboxStateChange(_, _) => if "lifecycle:" <= t { LifecycleMeans(Trim(t[10..]), e); }
    }
  }

  lemma BodiesAre(t: string)
    ensures ParsePolicy(t) == if "policy:" <= t then PolicyBody(Trim(t[7..])) else None
    ensures ParseNetwork(t) == if "network:" <= t then NetworkBody(SplitWhitespace(Trim(t[8..]))) else None
    ensures ParseExec(t) == if "exec:" <= t then ExecBody(Trim(t[5..])) else None
    ensures ParseFile(t) == if "file:" <= t then FileBody(Trim(t[5..])) else None
    ensures ParseLifecycle(t) == if "lifecycle:" <= t then LifecycleBody(Trim(t[10..])) else None
    ensures ParsePolicy(t).Some? ==> ParsePolicy(t).value.PolicyDecision?
    ensures ParseNetwork(t).Some? ==> ParseNetwork(t).value.NetworkRequest?
    ensures ParseExec(t).Some? ==> ParseExec(t).value.CommandExecuted?
    ensures ParseFile(t).Some? ==> ParseFile(t).value.FileChanged?
    ensures ParseLifecycle(t).Some? ==> ParseLifecycle(t).value.SandboxStateChange?
  {
    hide Trim, PolicyBody, NetworkBody, ExecBody, FileBody, LifecycleBody, SplitWhitespace;
    if "policy:" <= t { KindsOfBodies(Trim(t[7..]), []); }
    if "network:" <= t { KindsOfBodies("", SplitWhitespace(Trim(t[8..]))); }
    if "exec:" <= t { KindsOfBodies(Trim(t[5..]), []); }
    if "file:" <= t { KindsOfBodies(Trim(t[5..]), []); }
    if "lifecycle:" <= t { KindsOfBodies(Trim(t[10..]), []); }
  }

  // ---------------------------------------------------------------------------
  // Two consequences
  // ---------------------------------------------------------------------------

  /** An ordinary command without a duration is always read back, with its exit code or without. */
  lemma OrdinaryCommand(command: string, exit: Option<int>, offset: nat)
    requires Trimmed(command) && '\U{FFFD}' !in command && command[|command| - 1] != '['
    requires !Contains(command, "[exit=") && !Contains(command, "ms]")
    requires exit.Some? ==> -0x8000_0000 <= exit.value < 0x8000_0000
    ensures var line := "exec: " + command + (if exit.Some? then " [exit=" + SignedDecimal(exit.value) + "]" else "");
      ParseLogLine(line, offset) == Some(CommandExecuted(command, exit, None))
  {
    hide Print, ParseLogLine, Contains, SignedDecimal, IsWhitespace;
    var e := CommandExecuted(command, exit, None);
    var line := "exec: " + command + (if exit.Some? then " [exit=" + SignedDecimal(exit.value) + "]" else "");
    OrdinaryLine(e, line);
    RoundTrip(e, offset);
  }

  lemma OrdinaryLine(e: Payload, line: string)
    requires e.CommandExecuted? && e.durationMs.None? && '\U{FFFD}' !in e.command
    requires line == "exec: " + e.command
      + (if e.exitCode.Some? then " [exit=" + SignedDecimal(e.exitCode.value) + "]" else "")
    ensures Print(e) == line && '\U{FFFD}' !in line
  {
    hide Decimal, SignedDecimal;
    assert "exec:" + " " == "exec: ";
    if e.exitCode.Some? {
      var code := SignedDecimal(e.exitCode.value);
      NoReplacement(e.exitCode.value);
      assert " " + ("[exit=" + (code + "]")) == " [exit=" + code + "]";
    }
  }

  lemma NoReplacement(n: int)
    ensures '\U{FFFD}' !in SignedDecimal(n)
  {
    DigitsOnly(Decimal(if n < 0 then -n else n));
  }

  /** A line that begins like an event but is malformed is no event, and no error either: errors are
      reported for lines with a replacement character, and for no others. */
  lemma ErrorsExactly(line: string, offset: nat, at: nat)
    ensures ParseLogLine(line, offset) == Some(ParseError(at)) <==> '\U{FFFD}' in line && at == offset
  {
    ReadExactly(line, offset, ParseError(at));
    var before, after := TrimExact(line);
    hide Trim, ParseLogLine;
    assert forall c <- before :: c != '\U{FFFD}';
    assert forall c <- after :: c != '\U{FFFD}';
  }
}
