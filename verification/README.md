# Verification of the DarkShell cores

DarkShell runs agents in sandboxes behind a gateway. This project models the parts of it where
the code is short and the reasoning is not, and proves for all inputs, all runs or all
interleavings what each part keeps. Code that changes state in the program is a class or a
method with a loop here, proved against a function that says what it computes; the theorems are
about that function, or about the reachable states.

- **`Glob`, `PatternMeaning`, `IgnoreRules`** - `.dockerignore` lines. The matcher remembers only the
  last star it passed; the proof shows why the earlier ones can be forgotten. It compares
  characters before it looks for a star, so a `*` in the *text* is taken by a `*` of the pattern
  as an ordinary character: pattern `*` misses the text `*a`. Its "yes" is always right; a text is
  matched correctly by every pattern exactly if it contains no star, and a pattern is applied
  correctly to every text exactly if it contains none. Around it the code departs from what patterns
  are for in four ways, each shown at an input: `foo/` also prunes a directory `foobar`, because
  directories are compared as plain prefixes; `*.d/` misses a directory `x.d`, because that
  comparison takes stars literally; `foo` misses `a/foo/b`, because only the ends of a path are
  compared with a bare name; and `/foo` also applies to `a/foo`, because the leading slash that is
  to anchor it is dropped. One theorem says for exactly which lines none of this happens.
- **`BuildContext`, `ArchivePaths`** - the walk that collects a Docker build context, and the paths
  under which files go into the archive. Backslashes in names become slashes, which can give two
  files one path; the theorems say for exactly which sets of names, and for which single name.
- **`WalkedTrees`** - what the walk keeps of a whole tree, told from the paths on the way to a file.
- **`BareNames`** - why the third of these departures does not show in an archive: a list of bare
  names without negations keeps exactly the files it is meant to keep, because the walk prunes.
- **`BundleSwap`** - storing a certificate bundle with a live, a temporary and a backup directory.
  Every file-system call may fail or crash half way; calls are repeated from whatever is left.
- **`ToolPolicy`, `Bridge`** - concurrent HTTP handlers that share one MCP server process through
  a mutex, under a policy that can be replaced at any moment, as a state machine over all
  interleavings.
- **`Schema`, `Orchestrator`, `Execution`, `World`** - validating a blueprint, planning it, calling
  the gateway step by step, undoing in reverse on failure, and what that leaves on the gateway.
- **`Floats`, `RemotePaths`** - which texts are CPU quantities, and where the remote path of an upload
  leads: the check for system directories compares texts, so `/tmp/../etc/passwd` passes it.
- **`GatewayLogs`, `Readiness`, `NamespaceWait`** - reassembling log lines from chunks, the window
  of recent lines, and the two bounded waiting loops with their failure counters.
- **`EventStream`** - the bounded event channel. Overflow notices are attempted only while the
  channel is full, so in this single-sender model none ever gets in, although the comment on
  `try_send` says one is emitted periodically.
- **`Utf8`** - cutting text to size against section 3 of RFC 3629. `truncate_utf8_safe` cuts at or
  before `max_len - 3`, not at or before `max_len` as its comment says, and exceeds a limit below 3
  when it cuts. `truncate_content` counts characters in its guard but compares byte positions when
  it cuts, so it keeps fewer than `max_chars` characters unless those are all ASCII.
- **`LogParser`, `LineReading`** - parsing log lines into events, as the inverse of printing them and,
  for every line, by what its text says. A command with a duration but without an exit code keeps
  the duration in its text. A line that begins like an event but is malformed is no event at all;
  the comment on `parse_log_line` promises a parse error for it.
- **`Registry`** - registration files and port allocation. Two different pairs of names can share
  one file; a lemma says exactly which pairs are safe.
- **`Text`, `Wrappers`** - string operations of the standard library, and `Option` and `Result`.

## Model

| member | source | states |
|---|---|---|
| Glob.SimpleGlobMatch | crates/openshell-bootstrap/src/build.rs:320-351 | the loop terminates, says yes only for texts that match declaratively, and is exact when the text or the pattern has no star |
| Glob.ScanSound | crates/openshell-bootstrap/src/build.rs:325-345 | a yes from any loop state means the rest matches, or the pattern from the remembered star does |
| Glob.EarlierStarsAreForgettable | crates/openshell-bootstrap/src/build.rs:334-342 | whatever the remembered star could still reach, the next star absorbs |
| Glob.ScanComplete | crates/openshell-bootstrap/src/build.rs:325-350 | from any loop state that can still lead to a match the answer is yes, if no star meets a star |
| Glob.SimpleGlobSound | crates/openshell-bootstrap/src/build.rs:320-351 | soundness for all patterns and texts |
| Glob.SimpleGlobComplete | crates/openshell-bootstrap/src/build.rs:320-351 | equivalence with the declarative meaning when text or pattern is star-free |
| Glob.StarInTextIsMissed | crates/openshell-bootstrap/src/build.rs:330-333 | pattern `*` rejects the text `*a`, which it should match |
| Glob.TextExact | crates/openshell-bootstrap/src/build.rs:320-351 | a text is matched correctly by every pattern if and only if it contains no star |
| Glob.PatternExact | crates/openshell-bootstrap/src/build.rs:320-351 | a pattern is applied correctly to every text if and only if it contains no star |
| Glob.AnyDirsRepeated | crates/openshell-bootstrap/src/build.rs:282-295 | any positive number of leading `**/` means: the rest matches some component-aligned suffix of the path |
| Glob.AnyDirsCollapse | crates/openshell-bootstrap/src/build.rs:282-295 | `**/**/r` and `**/r` always give the same answer |
| PatternMeaning.CoreExact | crates/openshell-bootstrap/src/build.rs:297-317 | what a pattern without a leading `**/` is taken for, against what it is for: what it means without the underreach, and the overreach; exact for a star-free path or pattern |
| PatternMeaning.GlobMatchExact | crates/openshell-bootstrap/src/build.rs:282-317 | the same for every pattern, with any number of leading `**/` |
| PatternMeaning.SiblingIsOverreached | crates/openshell-bootstrap/src/build.rs:316 | `foo/` is taken to apply to a directory `foobar` |
| PatternMeaning.StarredDirectoryIsMissed | crates/openshell-bootstrap/src/build.rs:316 | `*.d/` is not applied to a directory `x.d` |
| PatternMeaning.InnerComponentIsMissed | crates/openshell-bootstrap/src/build.rs:297-313 | `foo` is not applied to `a/foo/b`, though it is to match any component |
| PatternMeaning.PatternRightExactly | crates/openshell-bootstrap/src/build.rs:282-317 | a pattern is right about every clean star-free path if and only if it is a bare name behind `**/`, a bare name that matches no name or any, or a pattern with a slash that has an open end or cannot match |
| IgnoreRules.IsIgnored | crates/openshell-bootstrap/src/build.rs:259-274 | a path is ignored exactly if some line applies and the last one that does is not a negation |
| IgnoreRules.AppliesExact | crates/openshell-bootstrap/src/build.rs:254-274 | a line is applied to what its pattern is taken for; a bare name behind a leading slash to what it means and what a lost anchor adds |
| IgnoreRules.AnchorIsLost | crates/openshell-bootstrap/src/build.rs:256-263 | `/foo` applies to `a/foo`, though a leading slash is to anchor it to the root |
| IgnoreRules.LineRightExactly | crates/openshell-bootstrap/src/build.rs:254-317 | a line, anchored by a leading slash or not, is applied as it is meant to every clean star-free path if and only if its pattern is right as above |
| BuildContext.WalkAndAdd | crates/openshell-bootstrap/src/build.rs:148-215 | the walk succeeds exactly if everything it reaches is readable and the archive accepts every file it keeps, and then has appended these in tree order |
| BuildContext.CreateBuildContext | crates/openshell-bootstrap/src/build.rs:132-144 | the archive of a context is what is kept of its tree, under the same condition |
| BuildContext.KeepExact | crates/openshell-bootstrap/src/build.rs:148-215 | a file is kept if and only if neither it nor any directory above it is ignored, under its normalized path and with its contents |
| BuildContext.NothingBelowIgnored | crates/openshell-bootstrap/src/build.rs:172-178 | no pattern list brings back a file below an ignored directory |
| BuildContext.KeepOnce | crates/openshell-bootstrap/src/build.rs:148-215 | no file is kept twice |
| WalkedTrees.KeptByLines | crates/openshell-bootstrap/src/build.rs:148-274 | a file is kept if and only if neither its path, tested as that of a file, nor the path of any directory on the way, tested as that of a directory, is ignored by the last line that is taken to apply |
| WalkedTrees.DirectoryLineExact | crates/openshell-bootstrap/src/build.rs:148-317 | under the single line `d/` a file is kept if and only if no directory on the way to it has a path that begins with `d` |
| WalkedTrees.ReadableExact | crates/openshell-bootstrap/src/build.rs:154-178 | the walk gets through if and only if everything that cannot be read is ignored, or in a directory that is |
| BareNames.BareNamesExact | crates/openshell-bootstrap/src/build.rs:148-317 | in a tree of plain names, with bare names and no negations, a file is in the archive if and only if no line means its path |
| BareNames.MeansSomePiece | crates/openshell-bootstrap/src/build.rs:297-313 | a bare name means the paths one of whose pieces it matches |
| ArchivePaths.NamesExact | crates/openshell-bootstrap/src/build.rs:163-200 | for any set of odd names beside plain ones: no tree and no patterns make two archive members share a path if and only if no two different names, one below the other, come to the same components |
| ArchivePaths.NameExact | crates/openshell-bootstrap/src/build.rs:163-200 | a single odd name is safe in that sense if and only if it has no backslash or its backslashes cut it into parts not all of which are names |
| ArchivePaths.OddNamesTogether | crates/openshell-bootstrap/src/build.rs:170-200 | two odd names, each safe by itself, that are not safe together |
| ArchivePaths.ArchivePathsDistinct | crates/openshell-bootstrap/src/build.rs:148-215 | with plain names no two archive members share a path |
| ArchivePaths.BackslashCollides | crates/openshell-bootstrap/src/build.rs:170-200 | the smallest collision, a file named with a backslash |
| BundleSwap.ConfigDir.StorePkiBundle | crates/openshell-bootstrap/src/mtls.rs:14-77 | however the call ends, the live directory is the old one or the new bundle in full, or has become the backup; without a failing file-system call it succeeds exactly for a complete bundle; a single failure never takes the live directory away |
| BundleSwap.ConfigDir.ValidateBundleDir | crates/openshell-bootstrap/src/mtls.rs:95-106 | a directory passes only if all three files are there and not empty, and then does unless a file-system call fails |
| BundleSwap.LiveAlwaysComplete | crates/openshell-bootstrap/src/mtls.rs:14-77 | over any history of calls a live directory is always complete |
| BundleSwap.BundleNeverLost | crates/openshell-bootstrap/src/mtls.rs:14-77 | after a success, live or else backup is always complete and not older than the last success |
| BundleSwap.BackupIsLastLive | crates/openshell-bootstrap/src/mtls.rs:41-76 | over any history, while there is no live directory the backup is the last one there was |
| BundleSwap.SuccessIsClean | crates/openshell-bootstrap/src/mtls.rs:14-77 | a success leaves the new bundle and no temporary directory; a backup stays if and only if the calls before had lost the live directory, and it is that one |
| Bridge.InvAlways | crates/darkshell-mcp/src/bridge.rs:397-509 | the invariant of handlers, mutex, pipes and judgements holds in every state of every interleaving |
| Bridge.AnswersInOrder | crates/darkshell-mcp/src/bridge.rs:447-493 | the k-th line read answers the k-th line written since the spawn |
| Bridge.ReadGetsLaggedAnswer | crates/darkshell-mcp/src/bridge.rs:447-493 | a reader gets the answer to the line written as many requests earlier as reads were missed; its own if and only if none was |
| Bridge.AnswersLateByMissedReads | crates/darkshell-mcp/src/bridge.rs:447-551 | after any events, with T reads given up since the last restart a reader gets the answer to the request T before its own, its own if and only if T is zero |
| Bridge.OnlyPermittedLinesReachTheServer | crates/darkshell-mcp/src/bridge.rs:405-447 | every line ever written is no tool call, or a named one that a single policy in force after the handler started allows |
| Bridge.ToolCallsAreGranted | crates/darkshell-mcp/src/bridge.rs:405-447 | every tool call that ever reached the server names a tool which one policy in force after its handler started grants, by its deny and allow patterns |
| Bridge.GateExactly | crates/darkshell-mcp/src/bridge.rs:405-447 | which requests the gate denies, sends back as nameless and lets through |
| Bridge.DeniedForAReason | crates/darkshell-mcp/src/bridge.rs:411-429 | a handler that was denied stood at the gate with a call that the policy in force did not grant |
| Bridge.PoliciesAreReloads | crates/darkshell-mcp/src/policy.rs:219-236 | the policies are the first one and those installed since, the last of them in force |
| Bridge.RepliesExactly | crates/darkshell-mcp/src/bridge.rs:397-493 | what is answered to a body that is no request, to a request without a server and to who gives up waiting, and what is written |
| Bridge.NeverStuck | crates/darkshell-mcp/src/bridge.rs:447-493 | in every reachable state every unfinished handler has a step, or waits for the mutex or for the server to answer |
| ToolPolicy.GrantsExactly | crates/darkshell-mcp/src/policy.rs:97-121 | a tool is allowed if and only if no deny pattern matches it and an allow pattern does, or there are none, or the server has no entry |
| ToolPolicy.RequestsExactly | crates/darkshell-mcp/src/policy.rs:137-146 | which bodies are requests, which requests are tool calls, and what tool they name |
| Bridge.RefusedNeverWrites | crates/darkshell-mcp/src/bridge.rs:405-456 | a handler that was denied, nameless, malformed or without a server never has a line in the pipe |
| Schema.Validate | crates/darkshell-blueprint/src/schema.rs:276-296 | every wrong field of the blueprint is reported and no other; no errors if and only if it is valid |
| Schema.ValidateMetadata | crates/darkshell-blueprint/src/schema.rs:338-408 | reports exactly a missing section, or a missing or malformed name |
| Schema.NamesExactly | crates/darkshell-blueprint/src/schema.rs:360-405 | a name is valid if and only if it is 1 to 63 lower-case letters, digits and hyphens with no hyphen at either end |
| Schema.ValidateSpec | crates/darkshell-blueprint/src/schema.rs:410-485 | adds an error exactly if the spec is not valid |
| Schema.ValidateMcpServers | crates/darkshell-blueprint/src/schema.rs:487-545 | reports exactly the wrong names, transports and fields of the servers; none if and only if every server is valid and no two names are equal |
| Schema.ValidateMcpTransport | crates/darkshell-blueprint/src/schema.rs:547-645 | reports exactly the fields that do not suit the transport |
| Schema.UrlsExactly | crates/darkshell-blueprint/src/schema.rs:600-635 | the two schemes of the web are valid, and file, ftp and javascript are not |
| Schema.ValidateForwards | crates/darkshell-blueprint/src/schema.rs:647-698 | adds an error exactly if some specification does not end in a port from 1 to 65535 |
| Schema.ForwardsExactly | crates/darkshell-blueprint/src/schema.rs:652-695 | a forward is a number from 1 to 65535, alone or after a bind address and a colon |
| Schema.ValidateResources | crates/darkshell-blueprint/src/schema.rs:700-732 | adds an error exactly if a quantity is not valid |
| Schema.CoresExactly | crates/darkshell-blueprint/src/schema.rs:825-838 | a whole number of cores is valid if and only if it is positive and finite in double precision, a whole number of millicores if and only if it is positive and fits into 64 bits |
| Floats.WholeNumbers | crates/darkshell-blueprint/src/schema.rs:833 | a whole number is a positive finite float if and only if it is positive and not rounded to infinity |
| Floats.Fractions | crates/darkshell-blueprint/src/schema.rs:833 | the same for decimal fractions |
| Floats.Exponents | crates/darkshell-blueprint/src/schema.rs:833 | the same for whole numbers with an exponent |
| Schema.IsValidK8sMemory | crates/darkshell-blueprint/src/schema.rs:842-866 | the search for a unit finds a positive integer with some unit or none, whatever the order of the units |
| Schema.MemoryExactly | crates/darkshell-blueprint/src/schema.rs:842-866 | a memory quantity is a positive 64-bit integer followed by one of the twelve units or none |
| Schema.ValidateUploads | crates/darkshell-blueprint/src/schema.rs:734-794 | adds an error exactly if some upload lacks a colon, has `..` in its local path, or a remote path whose text is or goes on from a system directory |
| RemotePaths.UploadsExactly | crates/darkshell-blueprint/src/schema.rs:734-794 | which uploads are accepted, by the local path and the components of the remote one |
| RemotePaths.NamesSystemExactly | crates/darkshell-blueprint/src/schema.rs:779-790 | that check of the text is a check of the first component |
| RemotePaths.CheckRightExactly | crates/darkshell-blueprint/src/schema.rs:739-790 | it finds out whether an absolute remote path leads into a system directory, for all paths of plain components and a given one, if and only if that one is plain too: not empty, `.` or `..` |
| RemotePaths.ClimbingUpload | crates/darkshell-blueprint/src/schema.rs:754-790 | an upload to `/tmp/../etc/passwd` is accepted, though system directories are not to be written to |
| Orchestrator.BuildPlan | crates/darkshell-blueprint/src/orchestrator.rs:237-353 | a plan exists exactly for plannable blueprints, each error for its reason, and the plan says what the blueprint says |
| Orchestrator.PlanSays | crates/darkshell-blueprint/src/orchestrator.rs:237-353 | every list of the plan is the blueprint's, a missing one empty; every server stands in the list of its transport, after those of that transport before it, with its name, command and environment or address |
| Orchestrator.PlannableExactly | crates/darkshell-blueprint/src/orchestrator.rs:237-339 | which blueprints can be planned |
| Orchestrator.PlanServers | crates/darkshell-blueprint/src/orchestrator.rs:278-339 | the loop yields the servers of each transport in order, or fails exactly if one lacks a field |
| Orchestrator.SelectExact | crates/darkshell-blueprint/src/orchestrator.rs:278-339 | each list is the stable subsequence of all servers with its transport |
| Orchestrator.SelectionsPartition | crates/darkshell-blueprint/src/orchestrator.rs:278-339 | the lengths of the three lists add up |
| Orchestrator.ValidIsPlannable | crates/darkshell-blueprint/src/orchestrator.rs:237-353 | a valid blueprint can always be planned |
| Orchestrator.ValidPlanNames | crates/darkshell-blueprint/src/schema.rs:487-545 | in the plan of a valid blueprint every server appears once and all names differ |
| Execution.ExecutePlan | crates/darkshell-blueprint/src/orchestrator.rs:531-677 | the calls made are the whole canonical sequence, or a prefix of it, the failing call, and the undo calls of what succeeded in reverse |
| Execution.CanonicalExact | crates/darkshell-blueprint/src/orchestrator.rs:531-677 | the sequence holds the creation, the policy, and each provider, bridge, in-sandbox server, forward, limit and upload of the plan at its place, and nothing else |
| Execution.SuccessMakesThePlan | crates/darkshell-blueprint/src/orchestrator.rs:531-677 | a successful run makes exactly these calls; the policy is applied exactly if there is one; kinds of calls do not mix |
| Execution.StepsReported | crates/darkshell-blueprint/src/orchestrator.rs:531-677 | the steps reported are those of the calls, and the servers that need no call |
| Execution.ValidateResources | crates/darkshell-blueprint/src/orchestrator.rs:510-528 | the check passes if and only if the image, every provider and the policy exist |
| Execution.RunStep | crates/darkshell-blueprint/src/orchestrator.rs:538-552 | a call that fails rolls everything back; one that succeeds is recorded so that it can be undone |
| Execution.Rollback | crates/darkshell-blueprint/src/orchestrator.rs:683-727 | the undo calls of the recorded steps, last first, whether or not undo calls fail |
| Execution.UndoBackwards | crates/darkshell-blueprint/src/orchestrator.rs:683-727 | the undo calls of later calls come before those of earlier ones |
| Execution.Execute | crates/darkshell-blueprint/src/orchestrator.rs:475-507 | the gateway is called only for a valid blueprint all of whose resources exist, with the calls of that blueprint's plan; otherwise it is refused for its reason |
| World.UndoCallsExact | crates/darkshell-blueprint/src/orchestrator.rs:683-727 | the undo calls are those of the calls made, each of them and no others |
| World.ForwardsLeft | crates/darkshell-blueprint/src/orchestrator.rs:531-727 | a port forward remains exactly if it was there, or was established and every call to remove it failed |
| World.BridgesLeft | crates/darkshell-blueprint/src/orchestrator.rs:531-727 | a bridge remains exactly if it was there, or was started and every call to stop it failed |
| World.SandboxesLeft | crates/darkshell-blueprint/src/orchestrator.rs:531-727 | other sandboxes are untouched; the new one remains exactly if deleting it failed |
| World.RollbackRestores | crates/darkshell-blueprint/src/orchestrator.rs:531-727 | with a fresh name a failed execution leaves the gateway as it was if and only if everything created had an undo call succeed, which holds if none fails |
| GatewayLogs.LogStream.AppendLogChunk | crates/openshell-bootstrap/src/runtime.rs:270-279 | sends the finished lines of the carried text and the chunk, carries the rest, which has no newline |
| GatewayLogs.LogStream.FlushPartial | crates/openshell-bootstrap/src/runtime.rs:281-287 | sends what is left, trimmed, and clears it |
| GatewayLogs.SentExactly | crates/openshell-bootstrap/src/runtime.rs:272-276 | a finished line is sent without the carriage returns at its end, unless nothing is left |
| GatewayLogs.FlushedExactly | crates/openshell-bootstrap/src/runtime.rs:281-287 | an unfinished last line is sent without the white space around it, unless nothing is left |
| GatewayLogs.LogStream.StreamContainerLogs | crates/openshell-bootstrap/src/runtime.rs:228-268 | each source is reassembled independently of the others and of the chunking; a broken stream sends a report and drops the rest |
| GatewayLogs.FeedAppend | crates/openshell-bootstrap/src/runtime.rs:270-279 | feeding a text in two parts sends and carries the same as feeding it at once |
| Text.PiecesJoin | crates/openshell-bootstrap/src/runtime.rs:270-279 | the pieces of a text are free of the separator and joined by it give the text |
| Text.PiecesUnique | crates/openshell-bootstrap/src/runtime.rs:270-279 | they are the only such pieces |
| Readiness.Watcher.DrainLogs | crates/openshell-bootstrap/src/runtime.rs:289-303 | the window is always the last fifteen lines of everything drained |
| Readiness.LastOfLast | crates/openshell-bootstrap/src/runtime.rs:289-303 | a window of a window and what follows is a window of everything |
| Readiness.RunLengthExact | crates/openshell-bootstrap/src/runtime.rs:70-125 | a counter is the longest stretch of polls up to now that all saw the marker |
| Readiness.SeenExactly | crates/openshell-bootstrap/src/runtime.rs:70-130 | a marker is seen if and only if one of the last fifteen lines has one of its texts |
| Readiness.QuietMarkerCounts | crates/openshell-bootstrap/src/runtime.rs:70-85 | one DNS failure line followed by four quiet polls is enough to give up |
| Readiness.WaitForGatewayReady | crates/openshell-bootstrap/src/runtime.rs:56-225 | returns within 180 polls with the verdict of the first poll that decides; for each of the nine verdicts, what the last poll then was |
| NamespaceWait.WaitForNamespace | crates/openshell-bootstrap/src/lib.rs:953-1054 | the end of the loop is never reached, the first deciding attempt gives the outcome, for each of the five outcomes what it was, and the pauses, which add up to at most 113,000 ms |
| NamespaceWait.FailuresSinceExact | crates/openshell-bootstrap/src/lib.rs:975-998 | the counter is positive exactly if a probe failed and none has succeeded since |
| NamespaceWait.ThresholdExact | crates/openshell-bootstrap/src/lib.rs:975-998 | the counter reaches the threshold exactly at a second failure with no success in between |
| NamespaceWait.TotalPauseCapped | crates/openshell-bootstrap/src/lib.rs:961-1051 | the sum of the pauses after any number of attempts from four on |
| EventStream.EventStream.TrySendEvent | crates/darkshell-observe/src/watch.rs:141-178 | one send as a step on queue, counters and history |
| EventStream.SendExactly | crates/darkshell-observe/src/watch.rs:141-178 | an event goes to the end of the queue if there is room, and is counted as dropped if not |
| EventStream.EventStream.ReceiveEvent | crates/darkshell-observe/src/watch.rs:127-134 | the first event of an accepted type is handed out, it and those before it leave the queue; without one the queue is emptied |
| EventStream.RunConserves | crates/darkshell-observe/src/watch.rs:127-178 | over any run: offered = received + queued + dropped, the queue within capacity, delivered = filtered received in order, notices attempted = ceil(dropped / 100) |
| EventStream.AcceptedInOrder | crates/darkshell-observe/src/watch.rs:141-178 | what the channel took in is a subsequence of what was offered, as long as what was not dropped: no notice ever gets in |
| EventStream.DroppedOnlyWhenFull | crates/darkshell-observe/src/watch.rs:141-178 | an event is dropped exactly if it is offered while the channel is full |
| Utf8.EncodeScalar | crates/darkshell-mcp/src/logging.rs:84-105 | a character is one to four bytes, the first and only the first of which is no continuation byte |
| Utf8.EncodeInjective | crates/darkshell-mcp/src/logging.rs:84-105 | different texts have different encodings |
| Utf8.BoundaryExact | crates/darkshell-mcp/src/logging.rs:97-100 | a byte position is a boundary if and only if a character starts there or the text ends |
| Utf8.FitExact | crates/darkshell-mcp/src/logging.rs:95-100 | the kept part is the longest beginning within the budget |
| Utf8.FitIsTight | crates/darkshell-mcp/src/logging.rs:95-100 | it wastes at most three bytes of the budget |
| Utf8.TruncateUtf8Safe | crates/darkshell-mcp/src/logging.rs:84-105 | the result is well-formed and the longest beginning that leaves room for the ellipsis; it is within the limit if and only if nothing is cut or the limit is at least 3 |
| Utf8.CutAtLimitExactly | crates/darkshell-mcp/src/logging.rs:80-105 | the cut is where the comment has it, at the last boundary within max_len, if and only if no character starts in the bytes the ellipsis takes |
| Utf8.CutBeforeLimit | crates/darkshell-mcp/src/logging.rs:80-105 | six ASCII characters and a limit of five: two are kept, not five |
| Utf8.TruncateContentExact | crates/darkshell-observe/src/inference_log.rs:194-208 | a text of at most max_chars characters stays; a cut keeps the longest beginning of at most max_chars bytes, and max_chars characters if and only if these are ASCII |
| LineReading.ReadExactly | crates/darkshell-observe/src/parser.rs:22-219 | for every line and every event: the line is read as that event if and only if its text says so, kind by kind |
| LineReading.SplitMeans | crates/darkshell-observe/src/parser.rs:102 | the words of a text are what white space surrounds |
| LineReading.OrdinaryCommand | crates/darkshell-observe/src/parser.rs:128-165 | a command without brackets of its own and without a duration is always read back, with an exit code or without |
| LineReading.ErrorsExactly | crates/darkshell-observe/src/parser.rs:30-62 | a parse error is reported if and only if the line has a replacement character |
| LogParser.DurationExact | crates/darkshell-observe/src/parser.rs:146-152 | what a text says about a duration: a number, nothing, or a bracket that is not opened |
| LogParser.RoundTrip | crates/darkshell-observe/src/parser.rs:22-219 | for every event with trimmed fields, parsing its printed line gives it back if and only if its fields do not run into their separators |
| LogParser.PolicyExact | crates/darkshell-observe/src/parser.rs:65-93 | the same for the body of a policy line, straddling separators included |
| LogParser.NetworkExact | crates/darkshell-observe/src/parser.rs:98-123 | the same for the body of a network line, with a 16-bit port and single-spaced result |
| LogParser.ExecExact | crates/darkshell-observe/src/parser.rs:128-165 | the same for the body of an exec line: no exit code of the command's own, no bracket at its end, a duration only after an exit code, none of the command's own otherwise, numbers in range |
| LogParser.DurationAlone | crates/darkshell-observe/src/parser.rs:128-165 | a duration without an exit code is read but stays in the command |
| LogParser.SingleSpacedExact | crates/darkshell-observe/src/parser.rs:98-123 | splitting a trimmed text into words and joining them changes nothing if and only if all its white space is single spaces |
| LogParser.FileExact | crates/darkshell-observe/src/parser.rs:170-193 | the same for the body of a file line |
| LogParser.LifecycleExact | crates/darkshell-observe/src/parser.rs:198-219 | the same for the body of a life-cycle line |
| Text.SplitOnceExact | crates/darkshell-observe/src/parser.rs:65-93 | splitting at the first separator takes a left part apart that is clear of it, the straddling case included |
| Text.SplitOnceMeans | crates/darkshell-observe/src/parser.rs:65-219 | splitting gives a left and a right part if and only if they and the separator make up the text and the left part is clear of it |
| Text.TrimExact | crates/darkshell-observe/src/parser.rs:24 | trimming takes white space off both ends, and all of it |
| Text.WhitespaceExactly | crates/darkshell-observe/src/parser.rs:24 | the twenty-five characters that are white space |
| Text.ParseUnsignedExact | crates/darkshell-observe/src/parser.rs:98-165 | a text is read as a number if and only if it is its decimal digits after any zeros and at most one plus, within the range |
| Text.ParseI32Exact | crates/darkshell-observe/src/parser.rs:128-165 | the same for signed 32-bit numbers |
| Registry.Store.AllocatePort | crates/openshell-cli/src/mcp.rs:22-42 | the first port in the range that is neither registered nor unbindable |
| Registry.EnoughPorts | crates/openshell-cli/src/mcp.rs:22-42 | with fewer than 100 registrations and the other ports bindable a port is found |
| Registry.Store.McpAdd | crates/openshell-cli/src/mcp.rs:80-145 | registers the pair at a free, bindable port that no other file has; no other file changes; when each error occurs |
| Registry.Store.StartInSandboxMcp | crates/openshell-cli/src/mcp.rs:161-217 | registers the pair without a port; no other file changes; when each error occurs |
| Registry.Store.McpRemove | crates/openshell-cli/src/mcp.rs:298-361 | removes the file of the pair and no other, or reports that there is none |
| Registry.Store.ListRegistrations | crates/darkshell-mcp/src/registry.rs:236-293 | lists the contents of every file and nothing else |
| Registry.Store.CleanupSandbox | crates/darkshell-mcp/src/registry.rs:298-319 | deletes exactly the files that name the sandbox and reports their servers |
| Registry.RunKeepsInv | crates/openshell-cli/src/mcp.rs:80-361 | over any run every file is at the path its contents give, and nonzero ports differ |
| Registry.RegistrationPathExactly | crates/darkshell-mcp/src/registry.rs:24-139 | a pair of names has a file if and only if both are made of lower-case letters, digits and hyphens; and which one |
| Registry.PathsCollide | crates/darkshell-mcp/src/registry.rs:135-139 | two different pairs of names with one file |
| Registry.UnambiguousExactly | crates/darkshell-mcp/src/registry.rs:135-139 | a pair has its file for itself if and only if the sandbox name has no hyphen after its first character and the server name none before its last |

## Left out

- Docker, SSH, certificate generation and HTTP are outcomes or parameters: a step succeeds, fails or crashes.
- Tar encoding: which members the archive accepts is a parameter, and a member has the path it is handed over with, before the tar library encodes it.
- Logging, error wording, colours and the parsing of JSON and YAML text; a JSON value is a datatype here.
- The matching of tool names against policy patterns, which the program leaves to a glob library, is a parameter of the bridge.
- Reading `.dockerignore` into a pattern list, which is a filter over lines.
- File names that are not valid UTF-8: they are converted with loss before they are matched and stored, so two of them can also come to one path.
- Symbolic links, permissions, concurrent processes and an unreadable context directory in the file-system models.
- Wall-clock time: pauses are added up in milliseconds, time-outs may happen at any moment.
- Bridge: a read that times out, fails or finds the pipe closed is one event; partial lines, notifications without replies, failing writes, unparsable responses and cancelled handlers are not modelled. The server answers each line once and in order.
- Bridge: the retry count and the registration status of `restart_with_backoff`; a restart is its successful spawn.
- Schema: warnings are not modelled, and neither is the saturation of decimal exponents beyond half a million in the parsing of floating-point numbers.
- Schema.ValidateMetadata: the length of a name is counted in characters instead of bytes, with the same verdict, since names with other than ASCII characters are refused anyway.
- Execution: which images, providers and policy files exist is a parameter.
- Execution: the completed steps other than creation and acknowledgement are kept as the call they record.
- World: what happens inside a sandbox is a list of calls that disappears with it; a failed call is taken to have no effect.
- EventStream: cloned senders, a closed channel, waiting inside the receiver and the wrap-around of the 64-bit drop counter.
- GatewayLogs: bytes are decoded to characters before they reach the model, so a multi-byte character cut by a chunk is not covered.
- Readiness.WaitForGatewayReady: the text of the verdicts and the extra drain of the log after the loop.
- NamespaceWait.WaitForNamespace: the text of the errors.
- LogParser: timestamps and sandbox names of events; fields with white space around them.
- Registry: malformed files, I/O errors, the order of a listing, killing processes, and the port chosen by `McpBridge::start`, which does not look at registrations.
- Registry.Store.CleanupSandbox: stated for directories in which every file is at the path its contents give, which all runs keep.
- Metadata builders, failure-message tables, the redaction of inference events and the Python SDK.
