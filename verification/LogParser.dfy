/** Parsing gateway log lines into events, and the lines that say exactly what was printed. */
module LogParser {
  import opened Wrappers
  import opened Text

  datatype Payload =
    | PolicyDecision(action: string, endpoint: Option<string>, result: string, ruleMatched: Option<string>)
    | NetworkRequest(host: string, port: nat, netMethod: string, policyResult: string)
    | CommandExecuted(command: string, exitCode: Option<int>, durationMs: Option<nat>)
    | FileChanged(operation: string, path: string, process: Option<string>)
    | SandboxStateChange(phase: string, previousPhase: Option<string>)
    | ParseError(offset: nat)

  const U16_MAX: nat := 0xFFFF
  const U64_MAX: nat := 0xFFFF_FFFF_FFFF_FFFF

  /** The part before the first space and, if there is one, the part after it. */
  function FirstSpace(s: string): (string, Option<string>) {
    match SplitOnce(s, " ")
    case None => (s, None)
    case Some((a, b)) => (a, Some(b))
  }

  function TrimEndBrackets(s: string): (r: string)
    ensures r <= s && (r == [] || r[|r| - 1] != '[')
    ensures forall k | |r| <= k < |s| :: s[k] == '['
  {
    if s != [] && s[|s| - 1] == '[' then TrimEndBrackets(s[..|s| - 1]) else s
  }

  // ---------------------------------------------------------------------------
  // The parser
  // ---------------------------------------------------------------------------

  function ParseLogLine(line: string, offset: nat): Option<Payload> {
    var trimmed := Trim(line);
    if trimmed == [] then None
    else if '\U{FFFD}' in trimmed then Some(ParseError(offset))
    else if ParsePolicy(trimmed).Some? then ParsePolicy(trimmed)
    else if ParseNetwork(trimmed).Some? then ParseNetwork(trimmed)
    else if ParseExec(trimmed).Some? then ParseExec(trimmed)
    else if ParseFile(trimmed).Some? then ParseFile(trimmed)
    else ParseLifecycle(trimmed)
  }

  function ParsePolicy(line: string): Option<Payload> {
    match StripPrefix(line, "policy:")
    case None => None
    case Some(rest) => PolicyBody(Trim(rest))
  }

  function PolicyBody(rest: string): Option<Payload> {
    match SplitOnce(rest, " -> ")
    case None => None
    case Some((left, right)) =>
      var (action, endpoint) := FirstSpace(Trim(left));
      var (result, rule) := ResultAndRule(right);
      Some(PolicyDecision(action, endpoint, result, rule))
  }

  function ResultAndRule(right: string): (string, Option<string>) {
    match SplitOnce(right, " [rule: ")
    case None => (Trim(right), None)
    case Some((r, rulePart)) =>
      (Trim(r), Some(match StripSuffix(rulePart, "]") case Some(rule) => rule case None => rulePart))
  }

  function ParseNetwork(line: string): Option<Payload> {
    match StripPrefix(line, "network:")
    case None => None
    case Some(rest) => NetworkBody(SplitWhitespace(Trim(rest)))
  }

  function NetworkBody(parts: seq<string>): Option<Payload> {
    if |parts| < 3 then None
    else
      match RSplitOnce(parts[1], ":")
      case None => None
      case Some((host, port)) =>
        match ParseUnsigned(port, U16_MAX)
        case None => None
        case Some(n) => Some(NetworkRequest(host, n, parts[0], JoinWords(parts[2..])))
  }

  function ParseExec(line: string): Option<Payload> {
    match StripPrefix(line, "exec:")
    case None => None
    case Some(rest) => ExecBody(Trim(rest))
  }

  /** The command and the exit code; nothing if the exit code has no closing bracket. */
  function ExitPart(rest: string): Option<(string, Option<int>)> {
    match SplitOnce(rest, "[exit=")
    case None => Some((rest, None))
    case Some((before, after)) =>
      match FindChar(after, ']')
      case None => None
      case Some(end) => Some((Trim(before), ParseI32(after[..end])))
  }

  /** The duration; nothing if it has no opening bracket. */
  function DurationPart(rest: string): Option<Option<nat>> {
    match RFind(rest, "ms]")
    case None => Some(None)
    case Some(idx) =>
      match RFind(rest[..idx], "[")
      case None => None
      case Some(bracket) => Some(ParseUnsigned(Trim(rest[bracket + 1..idx]), U64_MAX))
  }

  function ExecBody(rest: string): Option<Payload> {
    match ExitPart(rest)
    case None => None
    case Some((commandPart, exit)) =>
      match DurationPart(rest)
      case None => None
      case Some(duration) =>
        var command := Trim(TrimEndBrackets(commandPart));
        if command == [] then None else Some(CommandExecuted(command, exit, duration))
  }

  function ParseFile(line: string): Option<Payload> {
    match StripPrefix(line, "file:")
    case None => None
    case Some(rest) => FileBody(Trim(rest))
  }

  function FileBody(rest: string): Option<Payload> {
    var (main, process) :=
      match SplitOnce(rest, " by ")
      case Some((left, right)) => (left, Some(right))
      case None => (rest, None);
    match FirstSpace(main)
    case (_, None) => None
    case (operation, Some(path)) => Some(FileChanged(operation, path, process))
  }

  function ParseLifecycle(line: string): Option<Payload> {
    match StripPrefix(line, "lifecycle:")
    case None => None
    case Some(rest) => LifecycleBody(Trim(rest))
  }

  function LifecycleBody(rest: string): Option<Payload> {
    var (phase, previous) :=
      match SplitOnce(rest, " from ")
      case Some((left, right)) => (Trim(left), Some(Trim(right)))
      case None => (rest, None);
    if phase == [] then None else Some(SandboxStateChange(phase, previous))
  }

  // ---------------------------------------------------------------------------
  // The documented line formats
  // ---------------------------------------------------------------------------

  function Optional(before: string, o: Option<string>, after: string): string {
    match o
    case None => []
    case Some(s) => before + s + after
  }

  /** A line with its prefix. */
  function Line(prefix: string, body: string): string {
    prefix + " " + body
  }

  /** An event as its documented log line. */
  function Print(e: Payload): string {
    match e
    case PolicyDecision(_, _, _, _) => Line("policy:", PrintPolicy(e))
    case NetworkRequest(_, _, _, _) => Line("network:", PrintNetwork(e))
    case CommandExecuted(_, _, _) => Line("exec:", PrintExec(e))
    case FileChanged(_, _, _) => Line("file:", PrintFile(e))
    case SandboxStateChange(_, _) => Line("lifecycle:", PrintLifecycle(e))
    case ParseError(_) => []
  }

  function PrintPolicy(e: Payload): string
    requires e.PolicyDecision?
  {
    (e.action + Optional(" ", e.endpoint, "")) + " -> " + (e.result + Optional(" [rule: ", e.ruleMatched, "]"))
  }

  function PrintNetwork(e: Payload): string
    requires e.NetworkRequest?
  {
    e.netMethod + " " + ((e.host + ":" + Decimal(e.port)) + " " + e.policyResult)
  }

  function PrintExec(e: Payload): string
    requires e.CommandExecuted?
  {
    e.command
    + (match e.exitCode case None => [] case Some(n) => " " + ("[exit=" + (SignedDecimal(n) + "]")))
    + (match e.durationMs case None => [] case Some(n) => " " + ("[" + (Decimal(n) + "ms]")))
  }

  function PrintFile(e: Payload): string
    requires e.FileChanged?
  {
    (e.operation + " " + e.path) + Optional(" by ", e.process, "")
  }

  function PrintLifecycle(e: Payload): string
    requires e.SandboxStateChange?
  {
    e.phase + Optional(" from ", e.previousPhase, "")
  }

  // ---------------------------------------------------------------------------
  // Policy decisions
  // ---------------------------------------------------------------------------

  predicate TrimmedIfAny(o: Option<string>) {
    o.Some? ==> Trimmed(o.value)
  }

  predicate TrimmedPolicy(e: Payload)
    requires e.PolicyDecision?
  {
    Trimmed(e.action) && TrimmedIfAny(e.endpoint) && Trimmed(e.result)
  }

  /** Each field is clear of the separator that ends it. */
  predicate SeparablePolicy(e: Payload)
    requires e.PolicyDecision?
  {
    && ' ' !in e.action
    && Clear(e.action + Optional(" ", e.endpoint, ""), " -> ")
    && if e.ruleMatched.Some? then Clear(e.result, " [rule: ") else !Contains(e.result, " [rule: ")
  }

  lemma TrimShortens(s: string)
    ensures |Trim(s)| <= |s|
  {
  }

  /** The first space splits a text so that it can be put together again. */
  lemma FirstSpaceJoins(s: string)
    ensures var (a, o) := FirstSpace(s); s == a + Optional(" ", o, "") && ' ' !in a
  {
    match Find(s, " ")
    case None =>
      forall i | 0 <= i < |s| ensures s[i] != ' ' {
        assert !(" " <= s[i..]);
      }
    case Some(i) =>
      assert s[i..][0] == ' ';
      assert s == s[..i] + " " + s[i + 1..];
      forall k | 0 <= k < i ensures s[k] != ' ' {
        assert !(" " <= s[k..]);
      }
  }

  lemma FirstSpaceOf(a: string, o: Option<string>)
    requires ' ' !in a
    ensures FirstSpace(a + Optional(" ", o, "")) == (a, o)
  {
    match o
    case None =>
      assert a + [] == a;
      assert forall i | 0 <= i <= |a| :: i < |a| ==> a[i..][0] != ' ';
      assert !Contains(a, " ");
    case Some(s) =>
      assert a + (" " + s + "") == a + " " + s;
      forall i | 0 <= i < |a| ensures !(" " <= (a + " ")[i..]) {
        assert (a + " ")[i..][0] == a[i];
      }
      SplitOnceExact(a, " ", s);
  }

  lemma TrimmedJoin(a: string, between: string, b: string)
    requires Trimmed(a) && Trimmed(b)
    ensures Trimmed(a + between + b)
  {
  }

  lemma ResultAndRuleOf(result: string, rule: Option<string>)
    requires Trimmed(result)
    requires if rule.Some? then Clear(result, " [rule: ") else !Contains(result, " [rule: ")
    ensures ResultAndRule(result + Optional(" [rule: ", rule, "]")) == (result, rule)
  {
    hide Trim, SplitOnce, Clear, Contains;
    TrimTrimmed(result);
    match rule
    case None =>
      assert result + [] == result;
      SplitOnceNone(result, " [rule: ");
    case Some(r) =>
      hide Trimmed, StripSuffix;
      SplitClosed(result, " [rule: ", r, "]");
  }

  /** A field in front of a separator and a closed field. */
  lemma SplitClosed(left: string, sep: string, right: string, close: string)
    requires sep != [] && Clear(left, sep) && Trimmed(left) && Trimmed(close)
    ensures SplitOnce(left + (sep + right + close), sep) == Some((left, right + close))
    ensures StripSuffix(right + close, close) == Some(right)
    ensures Trimmed(left + (sep + right + close))
  {
    hide SplitOnce, Clear;
    assert left + (sep + right + close) == left + sep + (right + close);
    SplitOnceExact(left, sep, right + close);
    assert (right + close)[..|right|] == right;
  }

  lemma PolicyRoundTrip(e: Payload)
    requires e.PolicyDecision? && TrimmedPolicy(e) && SeparablePolicy(e)
    ensures PolicyBody(PrintPolicy(e)) == Some(e)
  {
    var left, right := e.action + Optional(" ", e.endpoint, ""), e.result + Optional(" [rule: ", e.ruleMatched, "]");
    ResultAndRuleOf(e.result, e.ruleMatched);
    FirstSpaceOf(e.action, e.endpoint);
    ActionTrimmed(e.action, e.endpoint);
    hide Clear, Contains, SplitOnce, Trim, FirstSpace, ResultAndRule, Optional, Trimmed;
    SplitOnceExact(left, " -> ", right);
    TrimTrimmed(left);
  }

  lemma PolicyTrims(e: Payload)
    requires e.PolicyDecision? && TrimmedPolicy(e)
    ensures Trimmed(PrintPolicy(e))
  {
    var left, right := e.action + Optional(" ", e.endpoint, ""), e.result + Optional(" [rule: ", e.ruleMatched, "]");
    ActionTrimmed(e.action, e.endpoint);
    ResultTrimmed(e.result, e.ruleMatched);
    hide Optional, Trimmed;
    TrimmedJoin(left, " -> ", right);
  }

  lemma ResultTrimmed(result: string, rule: Option<string>)
    requires Trimmed(result)
    ensures Trimmed(result + Optional(" [rule: ", rule, "]"))
  {
    if rule.None? {
      assert result + [] == result;
    }
  }

  /** What is read back from a left part that was split too early is not what was printed. */
  lemma SplitTooEarly(left: string, sep: string, right: string)
    requires sep != [] && !Clear(left, sep)
    ensures SplitOnce(left + sep + right, sep).Some?
    ensures var (l, r) := SplitOnce(left + sep + right, sep).value; |l| < |left| && |Trim(l)| < |left|
  {
    SplitEarlier(left, sep, right);
    TrimShortens(SplitOnce(left + sep + right, sep).value.0);
  }

  /** Given trimmed fields, printing and reading back gives the event again exactly if no field
      runs into its separator. */
  lemma PolicyExact(e: Payload)
    requires e.PolicyDecision? && TrimmedPolicy(e)
    ensures PolicyBody(PrintPolicy(e)) == Some(e) <==> SeparablePolicy(e)
  {
    if SeparablePolicy(e) {
      PolicyRoundTrip(e);
    } else {
      PolicyLost(e);
    }
  }

  lemma PolicyLost(e: Payload)
    requires e.PolicyDecision? && TrimmedPolicy(e) && !SeparablePolicy(e)
    ensures PolicyBody(PrintPolicy(e)) != Some(e)
  {
    var left, right := e.action + Optional(" ", e.endpoint, ""), e.result + Optional(" [rule: ", e.ruleMatched, "]");
    ActionTrimmed(e.action, e.endpoint);
    hide Clear, Contains, SplitOnce, Trim, FirstSpace, ResultAndRule, Optional, Trimmed;
    if !Clear(left, " -> ") {
      SplitTooEarly(left, " -> ", right);
      var l := SplitOnce(left + " -> " + right, " -> ").value.0;
      FirstSpaceJoins(Trim(l));
    } else {
      SplitOnceExact(left, " -> ", right);
      TrimTrimmed(left);
      FirstSpaceJoins(left);
      if ' ' !in e.action {
        RuleLost(e.result, e.ruleMatched);
      }
    }
  }

  lemma RuleLost(result: string, rule: Option<string>)
    requires if rule.Some? then !Clear(result, " [rule: ") else Contains(result, " [rule: ")
    ensures ResultAndRule(result + Optional(" [rule: ", rule, "]")) != (result, rule)
  {
    hide Clear, Contains, SplitOnce, Trim, StripSuffix;
    match rule
    case None =>
      assert result + [] == result;
      SplitOnceNone(result, " [rule: ");
    case Some(r) =>
      assert result + (" [rule: " + r + "]") == result + " [rule: " + (r + "]");
      SplitTooEarly(result, " [rule: ", r + "]");
  }

  lemma ActionTrimmed(action: string, endpoint: Option<string>)
    requires Trimmed(action) && TrimmedIfAny(endpoint)
    ensures Trimmed(action + Optional(" ", endpoint, ""))
  {
    if endpoint.None? {
      assert action + [] == action;
    }
  }

  // ---------------------------------------------------------------------------
  // Files and life cycle
  // ---------------------------------------------------------------------------

  predicate TrimmedFile(e: Payload)
    requires e.FileChanged?
  {
    Trimmed(e.operation) && Trimmed(e.path) && TrimmedIfAny(e.process)
  }

  predicate SeparableFile(e: Payload)
    requires e.FileChanged?
  {
    && ' ' !in e.operation
    && var main := e.operation + " " + e.path;
    if e.process.Some? then Clear(main, " by ") else !Contains(main, " by ")
  }

  lemma FileRoundTrip(e: Payload)
    requires e.FileChanged? && SeparableFile(e)
    ensures FileBody(PrintFile(e)) == Some(e)
  {
    hide Clear, Contains, SplitOnce, FirstSpace;
    var main := e.operation + " " + e.path;
    FirstSpaceOf(e.operation, Some(e.path));
    assert e.operation + Optional(" ", Some(e.path), "") == main;
    match e.process
    case None =>
      assert PrintFile(e) == main;
      SplitOnceNone(main, " by ");
    case Some(process) =>
      assert PrintFile(e) == main + " by " + process;
      SplitOnceExact(main, " by ", process);
  }

  lemma FileTrims(e: Payload)
    requires e.FileChanged? && TrimmedFile(e)
    ensures Trimmed(PrintFile(e))
  {
    if e.process.None? {
      assert PrintFile(e) == e.operation + " " + e.path;
    }
  }

  lemma FileExact(e: Payload)
    requires e.FileChanged?
    ensures FileBody(PrintFile(e)) == Some(e) <==> SeparableFile(e)
  {
    if SeparableFile(e) {
      FileRoundTrip(e);
    } else {
      FileLost(e);
    }
  }

  lemma FileLost(e: Payload)
    requires e.FileChanged? && !SeparableFile(e)
    ensures FileBody(PrintFile(e)) != Some(e)
  {
    hide Clear, Contains, SplitOnce, FirstSpace, Trim;
    var main := e.operation + " " + e.path;
    match e.process
    case None =>
      assert PrintFile(e) == main;
      SplitOnceNone(main, " by ");
      FirstSpaceJoins(main);
    case Some(process) =>
      assert PrintFile(e) == main + " by " + process;
      if !Clear(main, " by ") {
        SplitTooEarly(main, " by ", process);
        var l := SplitOnce(main + " by " + process, " by ").value.0;
        FirstSpaceJoins(l);
      } else {
        SplitOnceExact(main, " by ", process);
        FirstSpaceJoins(main);
      }
  }

  predicate TrimmedLifecycle(e: Payload)
    requires e.SandboxStateChange?
  {
    Trimmed(e.phase) && TrimmedIfAny(e.previousPhase)
  }

  predicate SeparableLifecycle(e: Payload)
    requires e.SandboxStateChange?
  {
    if e.previousPhase.Some? then Clear(e.phase, " from ") else !Contains(e.phase, " from ")
  }

  lemma LifecycleRoundTrip(e: Payload)
    requires e.SandboxStateChange? && TrimmedLifecycle(e) && SeparableLifecycle(e)
    ensures LifecycleBody(PrintLifecycle(e)) == Some(e)
  {
    hide Clear, Contains, SplitOnce, Trim;
    TrimTrimmed(e.phase);
    match e.previousPhase
    case None =>
      assert PrintLifecycle(e) == e.phase;
      SplitOnceNone(e.phase, " from ");
    case Some(previous) =>
      TrimTrimmed(previous);
      assert PrintLifecycle(e) == e.phase + " from " + previous;
      SplitOnceExact(e.phase, " from ", previous);
  }

  lemma LifecycleTrims(e: Payload)
    requires e.SandboxStateChange? && TrimmedLifecycle(e)
    ensures Trimmed(PrintLifecycle(e))
  {
    if e.previousPhase.None? {
      assert PrintLifecycle(e) == e.phase;
    }
  }

  lemma LifecycleExact(e: Payload)
    requires e.SandboxStateChange? && TrimmedLifecycle(e)
    ensures LifecycleBody(PrintLifecycle(e)) == Some(e) <==> SeparableLifecycle(e)
  {
    if SeparableLifecycle(e) {
      LifecycleRoundTrip(e);
    } else {
      LifecycleLost(e);
    }
  }

  lemma LifecycleLost(e: Payload)
    requires e.SandboxStateChange? && !SeparableLifecycle(e)
    ensures LifecycleBody(PrintLifecycle(e)) != Some(e)
  {
    hide Clear, Contains, SplitOnce, Trim;
    match e.previousPhase
    case None =>
      assert PrintLifecycle(e) == e.phase;
      SplitOnceNone(e.phase, " from ");
    case Some(previous) =>
      assert PrintLifecycle(e) == e.phase + " from " + previous;
      SplitTooEarly(e.phase, " from ", previous);
  }

  // ---------------------------------------------------------------------------
  // Network requests
  // ---------------------------------------------------------------------------

  predicate NoWhitespace(s: string) {
    forall k | 0 <= k < |s| :: !IsWhitespace(s[k])
  }

  /** All white space is single spaces. */
  predicate SingleSpaced(s: string) {
    forall k | 0 <= k < |s| && IsWhitespace(s[k]) :: s[k] == ' ' && (k > 0 ==> !IsWhitespace(s[k - 1]))
  }

  lemma WordsBegin(s: string)
    requires s != [] && !IsWhitespace(s[0])
    ensures SplitWhitespace(s) != [] && JoinWords(SplitWhitespace(s)) != []
    ensures JoinWords(SplitWhitespace(s))[0] == s[0]
  {
    assert TrimStart(s) == s;
  }

  /** A trimmed text is a word, or a word, a gap and a trimmed text. */
  lemma WordAndGap(s: string) returns (gap: string, t: string)
    requires Trimmed(s) && FirstWord(s) != s
    ensures s == FirstWord(s) + gap + t && gap != [] && AllWhitespace(gap) && Trimmed(t) && |t| < |s|
    ensures t == TrimStart(s[|FirstWord(s)|..])
    ensures FirstWord(s) != [] && NoWhitespace(FirstWord(s))
  {
    hide TrimStart, FirstWord, IsWhitespace;
    var w := FirstWord(s);
    var rest := s[|w|..];
    t := TrimStart(rest);
    gap := rest[..|rest| - |t|];
    FirstWordFound(s);
    assert rest[|rest| - 1] == s[|s| - 1];
    assert t != [] && t[|t| - 1] == rest[|rest| - 1];
    assert rest == gap + t;
    assert s == w + rest;
    assert s == w + gap + t;
  }

  lemma FirstWordFound(s: string)
    requires Trimmed(s) && FirstWord(s) != s
    ensures FirstWord(s) != [] && NoWhitespace(FirstWord(s)) && |FirstWord(s)| < |s|
  {
  }

  lemma WordsStep(s: string, t: string)
    requires Trimmed(s) && FirstWord(s) != s && t == TrimStart(s[|FirstWord(s)|..]) && Trimmed(t)
    ensures SplitWhitespace(t) != []
    ensures JoinWords(SplitWhitespace(s)) == FirstWord(s) + " " + JoinWords(SplitWhitespace(t))
  {
    var w := FirstWord(s);
    SplitFirst(s);
    SplitTrimmedStart(s[|w|..]);
    WordsBegin(t);
    hide SplitWhitespace, FirstWord, TrimStart, Trimmed;
    JoinFirst(w, SplitWhitespace(t));
  }

  lemma SplitFirst(s: string)
    requires Trimmed(s)
    ensures SplitWhitespace(s) == [FirstWord(s)] + SplitWhitespace(s[|FirstWord(s)|..])
  {
    assert TrimStart(s) == s;
  }

  lemma SplitTrimmedStart(s: string)
    ensures SplitWhitespace(s) == SplitWhitespace(TrimStart(s))
  {
    TrimStartTwice(s);
    hide TrimStart, FirstWord;
  }

  lemma JoinFirst(w: string, words: seq<string>)
    requires words != []
    ensures JoinWords([w] + words) == w + " " + JoinWords(words)
  {
    assert ([w] + words)[1..] == words;
  }

  lemma OneWord(s: string)
    requires Trimmed(s) && FirstWord(s) == s
    ensures JoinWords(SplitWhitespace(s)) == s && SingleSpaced(s)
  {
    assert TrimStart(s) == s && s[|s|..] == [];
  }

  lemma TrimStartTwice(s: string)
    ensures TrimStart(TrimStart(s)) == TrimStart(s)
  {
  }

  /** Splitting a trimmed text into words and joining them with spaces changes nothing exactly if it
      is single-spaced. */
  lemma {:induction false} SingleSpacedExact(s: string)
    requires Trimmed(s)
    ensures JoinWords(SplitWhitespace(s)) == s <==> SingleSpaced(s)
    decreases |s|
  {
    var w := FirstWord(s);
    if w == s {
      OneWord(s);
    } else {
      var gap, t := WordAndGap(s);
      WordsStep(s, t);
      WordsBegin(t);
      SingleSpacedExact(t);
      hide *;
      GapSpaced(w, gap, t);
      GapJoined(w, gap, t, JoinWords(SplitWhitespace(t)));
    }
  }

  lemma GapSpaced(w: string, gap: string, t: string)
    requires w != [] && NoWhitespace(w) && gap != [] && AllWhitespace(gap) && Trimmed(t)
    ensures SingleSpaced(w + gap + t) <==> gap == " " && SingleSpaced(t)
  {
    hide IsWhitespace;
    var s, d := w + gap + t, |w| + |gap|;
    assert forall k | 0 <= k < |w| :: s[k] == w[k];
    assert forall k | |w| <= k < d :: s[k] == gap[k - |w|];
    assert forall k | d <= k < |s| :: s[k] == t[k - d];
    assert IsWhitespace(s[|w|]) && (|gap| > 1 ==> IsWhitespace(s[|w| + 1]));
    if SingleSpaced(s) {
      assert gap == " ";
      forall k | 0 <= k < |t| && IsWhitespace(t[k]) ensures t[k] == ' ' && (k > 0 ==> !IsWhitespace(t[k - 1])) {
        assert s[k + d] == t[k] && (k > 0 ==> s[k + d - 1] == t[k - 1]);
      }
    }
  }

  lemma GapJoined(w: string, gap: string, t: string, joined: string)
    requires gap != [] && AllWhitespace(gap) && Trimmed(t) && joined != [] && joined[0] == t[0]
    ensures w + " " + joined == w + gap + t <==> gap == " " && joined == t
  {
    hide IsWhitespace;
    Assoc(w, " ", joined);
    Assoc(w, gap, t);
    assert |gap| > 1 ==> (gap + t)[1] == gap[1] && IsWhitespace(gap[1]);
    assert (" " + joined)[1] == joined[0] && !IsWhitespace(joined[0]);
    if w + (" " + joined) == w + (gap + t) {
      Cancel(w, " " + joined, gap + t);
      assert (" " + joined)[0] == (gap + t)[0] == gap[0];
      assert |gap| == 1;
      Cancel(" ", joined, t);
    }
  }

  predicate TrimmedNetwork(e: Payload)
    requires e.NetworkRequest?
  {
    Trimmed(e.netMethod) && Trimmed(e.policyResult)
  }

  predicate SeparableNetwork(e: Payload)
    requires e.NetworkRequest?
  {
    && NoWhitespace(e.netMethod) && NoWhitespace(e.host) && e.port <= U16_MAX
    && SingleSpaced(e.policyResult)
  }

  lemma {:induction false} FirstWordOf(a: string, b: string)
    requires NoWhitespace(a)
    ensures FirstWord(a + " " + b) == a
  {
    if a == [] {
      assert a + " " + b == " " + b;
    } else {
      FirstWordOf(a[1..], b);
      assert (a + " " + b)[1..] == a[1..] + " " + b;
    }
  }

  /** Splitting takes the words off one by one. */
  lemma SplitFirstWord(a: string, b: string)
    requires a != [] && NoWhitespace(a)
    ensures SplitWhitespace(a + " " + b) == [a] + SplitWhitespace(b)
  {
    FirstWordOf(a, b);
    var s := a + " " + b;
    assert TrimStart(s) == s;
    assert s[|a|..] == " " + b;
    assert (" " + b)[1..] == b;
    assert TrimStart(" " + b) == TrimStart(b);
  }

  lemma RSplitOnceOf(a: string, c: char, b: string)
    requires c !in b
    ensures RSplitOnce(a + [c] + b, [c]) == Some((a, b))
  {
    var s := a + [c] + b;
    assert s[|a|..] == [c] + b;
    forall i | |a| < i <= |s| ensures !([c] <= s[i..]) {
      assert i < |s| ==> s[i] == b[i - |a| - 1];
    }
    assert s[..|a|] == a && s[|a| + 1..] == b;
  }

  lemma NetworkRoundTrip(e: Payload)
    requires e.NetworkRequest? && TrimmedNetwork(e) && SeparableNetwork(e)
    ensures NetworkBody(SplitWhitespace(PrintNetwork(e))) == Some(e)
  {
    var hostPort := e.host + ":" + Decimal(e.port);
    HostAndPort(e.host, e.port);
    SingleSpacedExact(e.policyResult);
    NetworkWords(e.netMethod, hostPort, e.policyResult);
    NetworkBodyOf(e.netMethod, hostPort, e.host, e.port, SplitWhitespace(e.policyResult));
    hide NetworkBody, RSplitOnce, ParseUnsigned, SplitWhitespace, JoinWords, Decimal, Trimmed, NoWhitespace;
  }

  lemma NetworkTrims(e: Payload)
    requires e.NetworkRequest? && TrimmedNetwork(e)
    ensures Trimmed(PrintNetwork(e))
  {
    hide Decimal;
    TrimmedJoin(e.netMethod, " " + (e.host + ":" + Decimal(e.port)) + " ", e.policyResult);
    assert e.netMethod + (" " + (e.host + ":" + Decimal(e.port)) + " ") + e.policyResult == PrintNetwork(e);
  }

  lemma {:induction false} SplitWords(s: string)
    ensures forall k | 0 <= k < |SplitWhitespace(s)| :: NoWhitespace(SplitWhitespace(s)[k])
    decreases |s|
  {
    var t := TrimStart(s);
    if t != [] {
      SplitWords(t[|FirstWord(t)|..]);
    }
  }

  lemma NetworkExact(e: Payload)
    requires e.NetworkRequest? && TrimmedNetwork(e)
    ensures NetworkBody(SplitWhitespace(PrintNetwork(e))) == Some(e) <==> SeparableNetwork(e)
  {
    if SeparableNetwork(e) {
      NetworkRoundTrip(e);
    } else if NetworkBody(SplitWhitespace(PrintNetwork(e))) == Some(e) {
      NetworkReadBack(e);
    }
  }

  lemma NetworkReadBack(e: Payload)
    requires e.NetworkRequest? && TrimmedNetwork(e) && NetworkBody(SplitWhitespace(PrintNetwork(e))) == Some(e)
    ensures SeparableNetwork(e)
  {
    SplitWords(PrintNetwork(e));
    NetworkRead(e, SplitWhitespace(PrintNetwork(e)));
    HostAndPort(e.host, e.port);
    SingleSpacedExact(e.policyResult);
    NetworkWords(e.netMethod, e.host + ":" + Decimal(e.port), e.policyResult);
    TwoInFront(e.netMethod, e.host + ":" + Decimal(e.port), SplitWhitespace(e.policyResult));
    hide NetworkBody, SplitWhitespace, JoinWords, Decimal, SingleSpaced, NoWhitespace;
  }

  lemma NetworkBodyOf(first: string, hostPort: string, host: string, port: nat, words: seq<string>)
    requires words != [] && RSplitOnce(hostPort, ":") == Some((host, Decimal(port)))
    requires ParseUnsigned(Decimal(port), U16_MAX) == Some(port)
    ensures NetworkBody([first, hostPort] + words) == Some(NetworkRequest(host, port, first, JoinWords(words)))
  {
    hide RSplitOnce, ParseUnsigned, JoinWords, Decimal;
    TwoInFront(first, hostPort, words);
  }

  /** What is read from words comes from these words. */
  lemma NetworkRead(e: Payload, parts: seq<string>)
    requires e.NetworkRequest? && NetworkBody(parts) == Some(e)
    requires forall k | 0 <= k < |parts| :: NoWhitespace(parts[k])
    ensures NoWhitespace(e.netMethod) && NoWhitespace(e.host) && e.port <= U16_MAX
    ensures |parts| > 2 && e.policyResult == JoinWords(parts[2..])
  {
    hide JoinWords;
    var i := RFind(parts[1], ":").value;
    assert e.host == parts[1][..i];
  }

  lemma HostAndPort(host: string, port: nat)
    requires NoWhitespace(host) && port <= U16_MAX
    ensures RSplitOnce(host + ":" + Decimal(port), ":") == Some((host, Decimal(port)))
    ensures ParseUnsigned(Decimal(port), U16_MAX) == Some(port)
    ensures NoWhitespace(host + ":" + Decimal(port))
  {
    DigitsOnly(Decimal(port));
    ParseDecimal(port, U16_MAX);
    RSplitOnceOf(host, ':', Decimal(port));
    hide RSplitOnce, ParseUnsigned, Decimal;
  }

  lemma NetworkWords(a: string, b: string, c: string)
    requires a != [] && b != [] && NoWhitespace(a) && NoWhitespace(b) && Trimmed(c)
    ensures SplitWhitespace(a + " " + (b + " " + c)) == [a, b] + SplitWhitespace(c)
    ensures SplitWhitespace(c) != []
    ensures Trimmed(a + " " + (b + " " + c))
  {
    hide *;
    SplitTrimmed(c);
    WordsTrimmed(a, b, c);
    SplitFirstWord(a, b + " " + c);
    SplitFirstWord(b, c);
    TwoInFront(a, b, SplitWhitespace(c));
  }

  lemma TwoInFront<T>(a: T, b: T, s: seq<T>)
    ensures [a] + ([b] + s) == [a, b] + s
    ensures ([a, b] + s)[0] == a && ([a, b] + s)[1] == b && ([a, b] + s)[2..] == s
  {
  }

  lemma SplitTrimmed(s: string)
    requires Trimmed(s)
    ensures SplitWhitespace(s) != []
  {
    assert TrimStart(s) == s;
  }

  lemma WordsTrimmed(a: string, b: string, c: string)
    requires a != [] && NoWhitespace(a) && Trimmed(c)
    ensures Trimmed(a + " " + (b + " " + c))
  {
  }

  lemma DigitsOnly(s: string)
    requires AllDigits(s)
    ensures NoWhitespace(s) && ':' !in s && '[' !in s && ']' !in s && 'm' !in s
    ensures s != [] ==> Trimmed(s)
  {
  }

  // ---------------------------------------------------------------------------
  // Commands
  // ---------------------------------------------------------------------------

  /** The last place at which the text occurs. */
  predicate LastAt(s: string, part: string, i: int) {
    && 0 <= i <= |s| && part <= s[i..]
    && forall j | i < j <= |s| :: !(part <= s[j..])
  }

  /** What is between the last bracket before the last "ms]" and that. */
  predicate Bracketed(s: string, number: string, i: int, k: int) {
    && LastAt(s, "ms]", i) && LastAt(s[..i], "[", k)
    && number == s[k + 1..i]
  }

  ghost predicate SaysDuration(s: string, n: nat) {
    exists i, k, number :: Bracketed(s, number, i, k) && ParseUnsigned(Trim(number), 0xFFFF_FFFF_FFFF_FFFF) == Some(n)
  }

  /** There is no "ms]", or the last one closes a bracket around something that is no number. */
  ghost predicate SaysNoDuration(s: string) {
    || !Contains(s, "ms]")
    || exists i, k, number :: Bracketed(s, number, i, k) && ParseUnsigned(Trim(number), 0xFFFF_FFFF_FFFF_FFFF) == None
  }

  /** There is an "ms]", but no bracket before the last one. */
  ghost predicate OpensNoBracket(s: string) {
    exists i :: LastAt(s, "ms]", i) && !Contains(s[..i], "[")
  }

  lemma RFindMeans(s: string, part: string)
    ensures RFind(s, part).None? <==> !Contains(s, part)
    ensures forall i :: LastAt(s, part, i) <==> i >= 0 && RFind(s, part) == Some(i)
  {
    forall i ensures LastAt(s, part, i) <==> i >= 0 && RFind(s, part) == Some(i) {
      if LastAt(s, part, i) {
        var f := RFind(s, part);
        assert f.Some? && f.value >= i;
      }
    }
  }

  /** What a text says about a duration: exactly one of these three. */
  lemma DurationExact(s: string)
    ensures forall n: nat :: DurationPart(s) == Some(Some(n)) <==> SaysDuration(s, n)
    ensures DurationPart(s) == Some(None) <==> SaysNoDuration(s)
    ensures DurationPart(s) == None <==> OpensNoBracket(s)
  {
    hide RFind, Contains, Trim, ParseUnsigned, LastAt;
    RFindMeans(s, "ms]");
    var at := RFind(s, "ms]");
    if at.Some? {
      RFindMeans(s, "ms]");
      assert LastAt(s, "ms]", at.value);
      LastIsInside(s, "ms]", at.value);
      var head := s[..at.value];
      RFindMeans(head, "[");
      var bracket := RFind(head, "[");
      if bracket.Some? {
        assert LastAt(head, "[", bracket.value);
        LastIsInside(head, "[", bracket.value);
        BracketInside(head, bracket.value);
        assert Bracketed(s, s[bracket.value + 1..at.value], at.value, bracket.value);
      }
    }
  }

  lemma LastIsInside(s: string, part: string, i: int)
    requires LastAt(s, part, i)
    ensures 0 <= i <= |s|
  {
  }

  lemma BracketInside(s: string, i: int)
    requires LastAt(s, "[", i)
    ensures 0 <= i < |s|
  {
  }

  predicate TrimmedExec(e: Payload)
    requires e.CommandExecuted?
  {
    Trimmed(e.command)
  }

  /** The command does not end in an opening bracket and has no exit code of its own; what else is
      read as a duration comes after an exit code, or there is none, and then the command has none of
      its own either.  The numbers are in range. */
  ghost predicate SeparableExec(e: Payload)
    requires e.CommandExecuted? && TrimmedExec(e)
  {
    && e.command[|e.command| - 1] != '['
    && !Contains(e.command, "[exit=")
    && (e.exitCode.Some? ==> -0x8000_0000 <= e.exitCode.value < 0x8000_0000)
    && (e.durationMs.Some? ==> e.exitCode.Some? && e.durationMs.value <= U64_MAX)
    && (e.durationMs.None? ==> SaysNoDuration(e.command))
  }

  lemma SignedDigits(n: int)
    ensures var code := SignedDecimal(n);
      && code != [] && ']' !in code && '[' !in code && 'm' !in code && NoWhitespace(code)
  {
    DigitsOnly(Decimal(if n < 0 then -n else n));
  }

  /** A marker that starts with a bracket cannot begin inside a command that does not contain it. */
  lemma ClearBeforeBracket(command: string)
    requires !Contains(command, "[exit=")
    ensures Clear(command + " ", "[exit=")
  {
    var left := command + " ";
    forall i | 0 <= i < |left| ensures !("[exit=" <= (left + "[exit=")[i..]) {
      ExitAt(left + "[exit=", i);
      ExitAt(command, i);
      assert !("[exit=" <= command[i..]);
    }
  }

  lemma ExitAt(s: string, i: nat)
    requires i <= |s|
    ensures "[exit=" <= s[i..]
       <==> && i + 6 <= |s| && s[i] == '[' && s[i + 1] == 'e' && s[i + 2] == 'x' && s[i + 3] == 'i'
            && s[i + 4] == 't' && s[i + 5] == '='
  {
    if i + 6 <= |s| {
      assert s[i..][0] == s[i] && s[i..][1] == s[i + 1] && s[i..][2] == s[i + 2];
      assert s[i..][3] == s[i + 3] && s[i..][4] == s[i + 4] && s[i..][5] == s[i + 5];
    }
  }

  lemma ExitOf(command: string, n: int, more: string)
    requires Trimmed(command) && !Contains(command, "[exit=")
    ensures ExitPart(command + " " + "[exit=" + (SignedDecimal(n) + ("]" + more)))
         == Some((command, ParseI32(SignedDecimal(n))))
  {
    var code := SignedDecimal(n);
    var after := code + ("]" + more);
    ClearBeforeBracket(command);
    SignedDigits(n);
    TrimTrimmed(command);
    hide Clear, Contains, SplitOnce, Trim, SignedDecimal, ParseI32, FindChar;
    SplitOnceExact(command + " ", "[exit=", after);
    FindClose(code, ']', more);
  }

  lemma FindClose(a: string, c: char, b: string)
    requires c !in a
    ensures FindChar(a + ([c] + b), c) == Some(|a|) && (a + ([c] + b))[..|a|] == a
  {
    var s := a + ([c] + b);
    assert s[|a|] == c;
    var n := FindChar(s, c).value;
    assert s[..|a|] == a;
    assert n <= |a|;
  }

  lemma MsAt(s: string, i: nat)
    requires i <= |s|
    ensures "ms]" <= s[i..] <==> i + 3 <= |s| && s[i] == 'm' && s[i + 1] == 's' && s[i + 2] == ']'
  {
    if i + 3 <= |s| {
      assert s[i..][0] == s[i] && s[i..][1] == s[i + 1] && s[i..][2] == s[i + 2];
    }
  }

  /** A tail without an 'm' adds nothing to what a command says about a duration. */
  lemma SameDuration(command: string, tail: string)
    requires 'm' !in tail && (tail == [] || (tail[0] != 's' && tail[0] != ']'))
    ensures DurationPart(command + tail) == DurationPart(command)
  {
    hide RFind, Trim, ParseUnsigned;
    var s := command + tail;
    SamePlaces(command, tail);
    SameLastPlace(s, command);
    var found := RFind(command, "ms]");
    if found.Some? {
      SameInside(command, tail, found.value);
      var end := found.value;
      assert s[..end] == s[0..end] == command[0..end] == command[..end];
      assert RFind(s[..end], "[") == RFind(command[..end], "[");
    }
  }

  lemma SamePlaces(command: string, tail: string)
    requires 'm' !in tail && (tail == [] || (tail[0] != 's' && tail[0] != ']'))
    ensures forall i | 0 <= i <= |command + tail| ::
      "ms]" <= (command + tail)[i..] <==> i <= |command| && "ms]" <= command[i..]
  {
    var s := command + tail;
    forall i | 0 <= i <= |s| ensures "ms]" <= s[i..] <==> i <= |command| && "ms]" <= command[i..] {
      MsAt(s, i);
      if i <= |command| {
        MsAt(command, i);
      }
    }
  }

  lemma SameLastPlace(s: string, command: string)
    requires |command| <= |s|
    requires forall i | 0 <= i <= |s| :: "ms]" <= s[i..] <==> i <= |command| && "ms]" <= command[i..]
    ensures RFind(s, "ms]") == RFind(command, "ms]")
    ensures RFind(command, "ms]").Some? ==> RFind(command, "ms]").value <= |command|
  {
  }

  lemma SameInside(command: string, tail: string, end: nat)
    requires end <= |command|
    ensures forall k | 0 <= k <= end :: (command + tail)[k..end] == command[k..end]
  {
  }

  lemma DurationOf(before: string, n: nat)
    ensures DurationPart(before + "[" + Decimal(n) + "ms]") == Some(ParseUnsigned(Decimal(n), U64_MAX))
  {
    var number := Decimal(n);
    DigitsOnly(number);
    TrimTrimmed(number);
    LastBracket(before, number);
    LastMs(before + "[" + number);
    hide RFind, Trim, Decimal, ParseUnsigned;
    assert (before + "[" + number + "ms]")[|before| + 1..|before + "[" + number|] == number;
  }

  lemma LastMs(head: string)
    ensures RFind(head + "ms]", "ms]") == Some(|head|) && (head + "ms]")[..|head|] == head
  {
    assert (head + "ms]")[|head|..] == "ms]";
  }

  lemma LastBracket(before: string, number: string)
    requires '[' !in number
    ensures RFind(before + "[" + number, "[") == Some(|before|)
  {
    RSplitOnceOf(before, '[', number);
    var s := before + "[" + number;
    var i := RFind(s, "[").value;
    assert |s[..i]| == |before|;
  }

  lemma CommandOf(command: string)
    requires Trimmed(command) && command[|command| - 1] != '['
    ensures Trim(TrimEndBrackets(command)) == command
  {
    TrimTrimmed(command);
  }

  /** What is read from the printed line, unless the command has an exit code of its own, or there is
      a duration only. */
  lemma ExecParts(e: Payload)
    requires e.CommandExecuted? && TrimmedExec(e) && !Contains(e.command, "[exit=")
    requires e.durationMs.Some? ==> e.exitCode.Some?
    ensures ExitPart(PrintExec(e))
         == Some((e.command, if e.exitCode.Some? then ParseI32(SignedDecimal(e.exitCode.value)) else None))
    ensures DurationPart(PrintExec(e))
         == if e.durationMs.Some? then Some(ParseUnsigned(Decimal(e.durationMs.value), U64_MAX))
            else DurationPart(e.command)
  {
    hide ExitPart, DurationPart;
    match (e.exitCode, e.durationMs)
    case (None, None) => BareCommand(e.command);
    case (Some(code), None) => CommandWithExit(e.command, code);
    case (Some(code), Some(duration)) => CommandWithBoth(e.command, code, duration);
  }

  lemma BareCommand(command: string)
    requires !Contains(command, "[exit=")
    ensures command + [] + [] == command && ExitPart(command) == Some((command, None))
  {
    SplitOnceNone(command, "[exit=");
  }

  lemma CommandWithExit(command: string, code: int)
    requires Trimmed(command) && !Contains(command, "[exit=")
    ensures var rest := command + (" " + ("[exit=" + (SignedDecimal(code) + "]"))) + [];
      && ExitPart(rest) == Some((command, ParseI32(SignedDecimal(code))))
      && DurationPart(rest) == DurationPart(command)
  {
    hide ExitPart, DurationPart, SignedDecimal, ParseI32, Trimmed, Contains;
    var tail := " " + ("[exit=" + (SignedDecimal(code) + "]"));
    assert command + tail + [] == command + tail;
    assert command + tail == command + " " + "[exit=" + (SignedDecimal(code) + ("]" + []));
    ExitOf(command, code, []);
    SignedDigits(code);
    SameDuration(command, tail);
  }

  lemma CommandWithBoth(command: string, code: int, duration: nat)
    requires Trimmed(command) && !Contains(command, "[exit=")
    ensures var rest := command + (" " + ("[exit=" + (SignedDecimal(code) + "]")))
                      + (" " + ("[" + (Decimal(duration) + "ms]")));
      && ExitPart(rest) == Some((command, ParseI32(SignedDecimal(code))))
      && DurationPart(rest) == Some(ParseUnsigned(Decimal(duration), U64_MAX))
  {
    hide ExitPart, DurationPart, SignedDecimal, Decimal, ParseI32, ParseUnsigned, Trimmed, Contains;
    var more := " " + ("[" + (Decimal(duration) + "ms]"));
    var tail := " " + ("[exit=" + (SignedDecimal(code) + "]"));
    assert command + tail + more == command + " " + "[exit=" + (SignedDecimal(code) + ("]" + more));
    ExitOf(command, code, more);
    var before := command + tail + " ";
    assert command + tail + more == before + "[" + Decimal(duration) + "ms]";
    DurationOf(before, duration);
  }

  lemma ExecTrims(e: Payload)
    requires e.CommandExecuted? && TrimmedExec(e)
    ensures Trimmed(PrintExec(e))
  {
    hide SignedDecimal, Decimal;
  }

  /** A duration without an exit code is read, if it is in range, but also stays in the command. */
  lemma DurationAlone(command: string, duration: nat)
    requires Trimmed(command) && !Contains(command, "[exit=")
    ensures var rest := command + [] + (" " + ("[" + (Decimal(duration) + "ms]")));
      && |rest| > |command|
      && ExecBody(rest) == Some(CommandExecuted(rest, None, if duration <= U64_MAX then Some(duration) else None))
  {
    hide ExitPart, DurationPart, Decimal, ParseUnsigned, Trim, TrimEndBrackets, Contains, ExecBody, IsWhitespace;
    var rest := command + [] + (" " + ("[" + (Decimal(duration) + "ms]")));
    DurationLine(command, Decimal(duration));
    NoExit(command, Decimal(duration));
    ParseDecimal(duration, U64_MAX);
    BareExit(rest);
    DurationOf(command + " ", duration);
    CommandOf(rest);
    BodyOf(rest, rest);
  }

  lemma DurationLine(command: string, number: string)
    requires Trimmed(command)
    ensures var rest := command + [] + (" " + ("[" + (number + "ms]")));
      && rest == command + " " + "[" + number + "ms]"
      && Trimmed(rest) && rest[|rest| - 1] == ']' && |rest| > |command|
  {
    assert command + [] == command;
  }

  lemma BareExit(rest: string)
    requires !Contains(rest, "[exit=")
    ensures ExitPart(rest) == Some((rest, None))
  {
    SplitOnceNone(rest, "[exit=");
  }

  lemma NoExit(command: string, number: string)
    requires !Contains(command, "[exit=") && AllDigits(number)
    ensures !Contains(command + " " + "[" + number + "ms]", "[exit=")
  {
    var s := command + " " + "[" + number + "ms]";
    forall i | 0 <= i <= |s| ensures !("[exit=" <= s[i..]) {
      ExitAt(s, i);
      if i <= |command| {
        ExitAt(command, i);
        assert !("[exit=" <= command[i..]);
      }
    }
  }

  /** A command with an exit code of its own is cut at it. */
  lemma CutAtOwnExit(command: string, more: string)
    requires Contains(command, "[exit=")
    ensures ExecBody(command + more).Some? ==> |ExecBody(command + more).value.command| < |command|
  {
    CutExitPart(command, more);
    hide ExitPart, DurationPart, Trim, TrimEndBrackets, Contains;
    var exit := ExitPart(command + more);
    if exit.Some? {
      TrimShortens(TrimEndBrackets(exit.value.0));
    }
  }

  lemma CutExitPart(command: string, more: string)
    requires Contains(command, "[exit=")
    ensures var exit := ExitPart(command + more); exit.Some? ==> |exit.value.0| < |command|
  {
    OwnExitFirst(command, more);
    hide SplitOnce, Trim, FindChar, ParseI32, Contains;
    TrimShortens(SplitOnce(command + more, "[exit=").value.0);
  }

  lemma OwnExitFirst(command: string, more: string)
    requires Contains(command, "[exit=")
    ensures SplitOnce(command + more, "[exit=").Some?
    ensures |SplitOnce(command + more, "[exit=").value.0| < |command|
  {
    var rest := command + more;
    var i :| 0 <= i <= |command| && "[exit=" <= command[i..];
    assert rest[i..] == command[i..] + more;
    assert Find(rest, "[exit=").value <= i;
  }

  lemma PrintExecBegins(e: Payload)
    requires e.CommandExecuted?
    ensures PrintExec(e) == e.command + PrintExec(e)[|e.command|..]
  {
  }

  lemma BracketCut(command: string)
    requires Trimmed(command)
    ensures Trim(TrimEndBrackets(command)) == command <==> command[|command| - 1] != '['
  {
    if command[|command| - 1] != '[' {
      CommandOf(command);
    } else {
      TrimShortens(TrimEndBrackets(command));
    }
  }

  /** For a trimmed command, printing and reading back gives the event again exactly if it is
      separable. */
  lemma ExecExact(e: Payload)
    requires e.CommandExecuted? && TrimmedExec(e)
    ensures ExecBody(PrintExec(e)) == Some(e) <==> SeparableExec(e)
  {
    hide *;
    if Contains(e.command, "[exit=") {
      OwnExitLost(e);
    } else if e.durationMs.Some? && e.exitCode.None? {
      DurationAloneLost(e);
    } else {
      ExecReadExact(e);
    }
  }

  lemma OwnExitLost(e: Payload)
    requires e.CommandExecuted? && TrimmedExec(e) && Contains(e.command, "[exit=")
    ensures ExecBody(PrintExec(e)) != Some(e) && !SeparableExec(e)
  {
    PrintExecBegins(e);
    CutAtOwnExit(e.command, PrintExec(e)[|e.command|..]);
    hide ExecBody, PrintExec, Contains, DurationPart;
  }

  lemma DurationAloneLost(e: Payload)
    requires e.CommandExecuted? && TrimmedExec(e) && !Contains(e.command, "[exit=")
    requires e.durationMs.Some? && e.exitCode.None?
    ensures ExecBody(PrintExec(e)) != Some(e) && !SeparableExec(e)
  {
    DurationAlone(e.command, e.durationMs.value);
    hide ExecBody, Decimal, Contains, DurationPart;
  }

  lemma ExecReadExact(e: Payload)
    requires e.CommandExecuted? && TrimmedExec(e) && !Contains(e.command, "[exit=")
    requires e.durationMs.Some? ==> e.exitCode.Some?
    ensures ExecBody(PrintExec(e)) == Some(e) <==> SeparableExec(e)
  {
    hide ExitPart, DurationPart, PrintExec, Trim, TrimEndBrackets, ParseI32, ParseUnsigned, Decimal, SignedDecimal;
    hide Contains, IsWhitespace, ExecBody;
    ExecParts(e);
    BracketCut(e.command);
    NumbersRead(e);
    DurationExact(e.command);
    BodyOf(PrintExec(e), e.command);
  }

  lemma BodyOf(rest: string, command: string)
    requires ExitPart(rest).Some? && ExitPart(rest).value.0 == command
    ensures Trim(TrimEndBrackets(command)) == command != [] && DurationPart(rest).Some? ==>
      ExecBody(rest) == Some(CommandExecuted(command, ExitPart(rest).value.1, DurationPart(rest).value))
    ensures Trim(TrimEndBrackets(command)) != command || DurationPart(rest).None? ==>
      ExecBody(rest).None? || ExecBody(rest).value.command != command
  {
    hide ExitPart, DurationPart, Trim, TrimEndBrackets;
  }

  lemma NumbersRead(e: Payload)
    requires e.CommandExecuted?
    ensures e.exitCode.Some? ==>
      (ParseI32(SignedDecimal(e.exitCode.value)) == e.exitCode <==>
         -0x8000_0000 <= e.exitCode.value < 0x8000_0000)
    ensures e.durationMs.Some? ==>
      (ParseUnsigned(Decimal(e.durationMs.value), U64_MAX) == e.durationMs <==> e.durationMs.value <= U64_MAX)
  {
    hide ParseI32, ParseUnsigned, Decimal, SignedDecimal;
    if e.exitCode.Some? { ParseSignedDecimal(e.exitCode.value); }
    if e.durationMs.Some? { ParseDecimal(e.durationMs.value, U64_MAX); }
  }

  // ---------------------------------------------------------------------------
  // Lines
  // ---------------------------------------------------------------------------

  /** The events a line can be printed for: those with trimmed fields. */
  predicate Printable(e: Payload) {
    match e
    case PolicyDecision(_, _, _, _) => TrimmedPolicy(e)
    case NetworkRequest(_, _, _, _) => TrimmedNetwork(e)
    case CommandExecuted(_, _, _) => TrimmedExec(e)
    case FileChanged(_, _, _) => TrimmedFile(e)
    case SandboxStateChange(_, _) => TrimmedLifecycle(e)
    case ParseError(_) => false
  }

  /** The events whose fields do not run into their separators. */
  ghost predicate Plain(e: Payload)
    requires Printable(e)
  {
    match e
    case PolicyDecision(_, _, _, _) => SeparablePolicy(e)
    case NetworkRequest(_, _, _, _) => SeparableNetwork(e)
    case CommandExecuted(_, _, _) => SeparableExec(e)
    case FileChanged(_, _, _) => SeparableFile(e)
    case SandboxStateChange(_, _) => SeparableLifecycle(e)
  }

  /** Reading the body of a printed line. */
  function ReadBody(e: Payload): Option<Payload>
    requires Printable(e)
  {
    match e
    case PolicyDecision(_, _, _, _) => PolicyBody(PrintPolicy(e))
    case NetworkRequest(_, _, _, _) => NetworkBody(SplitWhitespace(PrintNetwork(e)))
    case CommandExecuted(_, _, _) => ExecBody(PrintExec(e))
    case FileChanged(_, _, _) => FileBody(PrintFile(e))
    case SandboxStateChange(_, _) => LifecycleBody(PrintLifecycle(e))
  }

  lemma BodyExact(e: Payload)
    requires Printable(e)
    ensures ReadBody(e) == Some(e) <==> Plain(e)
  {
    match e
    case PolicyDecision(_, _, _, _) => PolicyExact(e);
    case NetworkRequest(_, _, _, _) => NetworkExact(e);
    case CommandExecuted(_, _, _) => ExecExact(e);
    case FileChanged(_, _, _) => FileExact(e);
    case SandboxStateChange(_, _) => LifecycleExact(e);
  }

  lemma TrimLine(prefix: string, body: string)
    requires prefix != [] && !IsWhitespace(prefix[0]) && Trimmed(body)
    ensures Line(prefix, body) != [] && Line(prefix, body)[0] == prefix[0]
    ensures Trim(Line(prefix, body)) == Line(prefix, body)
    ensures StripPrefix(Line(prefix, body), prefix) == Some(" " + body)
    ensures Trim(" " + body) == body
  {
    LineTrimmed(prefix, body);
    Assoc(prefix, " ", body);
    StripOf(prefix, " " + body);
    TrimTrimmed(body);
    hide Trim, Trimmed, StripPrefix;
    TrimTrimmed(Line(prefix, body));
  }

  lemma LineTrimmed(prefix: string, body: string)
    requires prefix != [] && !IsWhitespace(prefix[0]) && Trimmed(body)
    ensures Trimmed(Line(prefix, body)) && Line(prefix, body)[0] == prefix[0]
  {
    hide IsWhitespace;
  }

  lemma StripOf(prefix: string, rest: string)
    ensures StripPrefix(prefix + rest, prefix) == Some(rest)
  {
  }

  /** A line of one kind is no line of another. */
  lemma OtherKinds(line: string)
    requires line != []
    ensures line[0] != 'p' ==> ParsePolicy(line).None?
    ensures line[0] != 'n' ==> ParseNetwork(line).None?
    ensures line[0] != 'e' ==> ParseExec(line).None?
    ensures line[0] != 'f' ==> ParseFile(line).None?
    ensures line[0] != 'l' ==> ParseLifecycle(line).None?
  {
    hide PolicyBody, NetworkBody, ExecBody, FileBody, LifecycleBody, Trim, SplitWhitespace;
  }

  lemma PolicyLine(e: Payload)
    requires e.PolicyDecision? && Printable(e)
    ensures ParsePolicy(Print(e)) == ReadBody(e)
    ensures Trim(Print(e)) == Print(e) && Print(e) != [] && Print(e)[0] == 'p'
  {
    hide PolicyBody, PrintPolicy, Trim, Trimmed, StripPrefix, Line;
    PolicyTrims(e);
    TrimLine("policy:", PrintPolicy(e));
  }

  lemma NetworkLine(e: Payload)
    requires e.NetworkRequest? && Printable(e)
    ensures ParseNetwork(Print(e)) == ReadBody(e)
    ensures Trim(Print(e)) == Print(e) && Print(e) != [] && Print(e)[0] == 'n'
  {
    hide NetworkBody, PrintNetwork, Trim, Trimmed, StripPrefix, Line, SplitWhitespace;
    NetworkTrims(e);
    TrimLine("network:", PrintNetwork(e));
  }

  lemma ExecLine(e: Payload)
    requires e.CommandExecuted? && Printable(e)
    ensures ParseExec(Print(e)) == ReadBody(e)
    ensures Trim(Print(e)) == Print(e) && Print(e) != [] && Print(e)[0] == 'e'
  {
    hide ExecBody, PrintExec, Trim, Trimmed, StripPrefix, Line;
    ExecTrims(e);
    TrimLine("exec:", PrintExec(e));
  }

  lemma FileLine(e: Payload)
    requires e.FileChanged? && Printable(e)
    ensures ParseFile(Print(e)) == ReadBody(e)
    ensures Trim(Print(e)) == Print(e) && Print(e) != [] && Print(e)[0] == 'f'
  {
    hide FileBody, PrintFile, Trim, Trimmed, StripPrefix, Line;
    FileTrims(e);
    TrimLine("file:", PrintFile(e));
  }

  lemma LifecycleLine(e: Payload)
    requires e.SandboxStateChange? && Printable(e)
    ensures ParseLifecycle(Print(e)) == ReadBody(e)
    ensures Trim(Print(e)) == Print(e) && Print(e) != [] && Print(e)[0] == 'l'
  {
    hide LifecycleBody, PrintLifecycle, Trim, Trimmed, StripPrefix, Line;
    LifecycleTrims(e);
    TrimLine("lifecycle:", PrintLifecycle(e));
  }

  /** The line of a printable event is read as its body is. */
  lemma LineIsBody(e: Payload, offset: nat)
    requires Printable(e) && '\U{FFFD}' !in Print(e)
    ensures ParseLogLine(Print(e), offset) == ReadBody(e)
  {
    hide Print, Trim, ParsePolicy, ParseNetwork, ParseExec, ParseFile, ParseLifecycle, ReadBody, Printable;
    match e {
      case PolicyDecision(_, _, _, _) => PolicyLine(e);
      case NetworkRequest(_, _, _, _) => NetworkLine(e);
      case CommandExecuted(_, _, _) => ExecLine(e);
      case FileChanged(_, _, _) => FileLine(e);
      case SandboxStateChange(_, _) => LifecycleLine(e);
      case ParseError(_) => NoErrorPrinted(e);
    }
    OtherKinds(Print(e));
  }

  lemma NoErrorPrinted(e: Payload)
    requires Printable(e)
    ensures !e.ParseError?
  {
  }

  /** Reading back what was printed gives the event again exactly if its fields do not run into
      their separators. */
  lemma RoundTrip(e: Payload, offset: nat)
    requires Printable(e) && '\U{FFFD}' !in Print(e)
    ensures ParseLogLine(Print(e), offset) == Some(e) <==> Plain(e)
  {
    hide *;
    BodyExact(e);
    LineIsBody(e, offset);
  }
}
