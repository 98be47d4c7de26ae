# retrace: a verified model of its core

retrace interposes libc calls (and, on one lane, system calls of a traced process), matches each call against
configured scripts, runs the script's actions, logs the call, streams it to a supervisor and to a telemetry
exporter, and accepts signed policies while it runs. A set of tools reads the logs, correlates them, enforces
policies and writes audit reports. This project models the parts of that system where state, concurrency or
encoding make correctness hard to see, and proves what those parts promise.

- **Filters**: the filter language (`FilterSyntax`, `FilterParser`), what its texts spell (`FilterSpelling`,
  `FilterAcceptance`, `FilterRoundTrip`), and its glob matcher (`GlobTheory`, `FilterGlob`, `GlobSpelling`).
- **Scripts**: the hashed script cache (`ConfigCache`), its concurrent readers (`ConfigReaders`) and the resolver
  with its fast path (`ScriptResolver`).
- **Dispatch**: one intercepted call with everything nested in it (`Engine`, `EngineRuns`, `EngineReturns`).
- **Logging**: the per-thread ring (`LogRing`), the flusher over all rings (`LogFlusher`, `LogProgress`), the log file
  and its scanner (`LogStream`, `LogBlocks`, `LogFile`, `LogFormats`), the JSON parser behind it (`JsonReader`), and
  redaction in place (`Redact`, `RedactTokens`).
- **Telemetry teardown** (`OtlpTeardown`, `OtlpProgress`).
- **Supervisor link**: the event ring (`AgentRing`) and its drain loop (`AgentQueue`), frames on the wire
  (`Frames`), policy deliveries (`PolicyEpochs`, `PolicyGrounds`).
- **Tools**: the audit trail (`AuditTrail`, `AuditRecords`), path correlation (`Correlate`), the seccomp compiler
  (`Seccomp`), the PDF report (`PdfReport`, `PdfReading`).

Code that updates state in place is modelled by classes and methods proved against specification functions.
Protocols between threads are state machines whose steps are single shared-memory operations; the theorems about
them quantify over every finite run. C11 atomics are modelled as sequentially consistent.

What a specification function computes is stated a second time without it: on the text (`AcceptsIffSpelled`,
`MatcherLaysParts`, `ScanCutsBlocks`), on the list of actions (`EveryScriptAnswers`), on the documents delivered
(`TakesForceIff`), on the patterns (`EveryTokenIsDecided`), or as what a run gets done (`PushGetsIn`,
`FullPassWritesEverything`, `EmittersGetThrough`, `DrainSendsEverything`).

Where a promise does not hold on all inputs, the project gives the exact condition: `ExactOnStarFreeTexts`,
`FastPathIsExact`, `OrderDoesNotMatterIff`, `FramesArriveInOrder` with `OnlyFittingStreamsArrive`, `CleanIff`,
`IdempotentIff`, `ReleasedExactlyOnceIff`, `LogReadsBackIff`, `ClosedArrayIsJsonIff`, `ReadsBackIff` with `Append`,
`PreorderIffCoherent`, `ConsistentIffPlaced`, `LiteralsRoundTripIff`, `TwentyBytesIff` and `AllFindingsShownIff`.

Where code and comments disagree, the code is followed. The seccomp program announces an architecture test, but both
its branches lead to the same instruction, so `CompiledDecides` holds for every architecture alike. The path
comparison is described as an order on normalised paths, but normalised paths may be relative, and
`RelativePathsBreakTheOrder` shows a cycle among such paths; it takes a relative path and two drive letters in
different case.

`dafny verify dfyconfig.toml` checks the whole project.

## Model

| member | source | states |
|---|---|---|
| `GlobTheory.LaterIsSomewhere` | src/core/filter_dsl.c:139-229 | a run matches exactly when some later position matches what follows it |
| `GlobTheory.NoEarlierLanding` | src/core/filter_dsl.c:139-229 | once items fit the text one by one, no other way of matching them gets past them earlier |
| `GlobTheory.LastRunSubsumes` | src/core/filter_dsl.c:139-229 | retrying only the most recent star loses no match, in either reading of a star in the text |
| `GlobTheory.AlignedToEndIsFinal` | src/core/filter_dsl.c:139-229 | when the text is used up, moving the remembered star cannot help |
| `GlobTheory.LiteralStarIsSound` | src/core/filter_dsl.c:139-229 | testing for equal characters before wildcards never accepts more than the pattern denotes |
| `GlobTheory.StarFreeAgrees` | src/core/filter_dsl.c:139-229 | on a text without `*` the order of the two tests makes no difference |
| `FilterGlob.ScanRanges` | src/core/filter_dsl.c:164-210 | the loop over a class decides membership in the listed characters and ranges and finds its end |
| `FilterGlob.ScanClass` | src/core/filter_dsl.c:164-210 | a class with negation, a leading bracket and the unterminated fallback takes the character its item takes |
| `FilterGlob.OnlyStarsLeft` | src/core/filter_dsl.c:226-228 | the trailing loop decides whether the rest of the pattern denotes the empty text |
| `FilterGlob.GlobMatch` | src/core/filter_dsl.c:139-229 | the iterative matcher terminates and returns, for every pattern and text, the recursive meaning in which a star met in the text is read literally |
| `FilterGlob.MatcherIsSound` | src/core/filter_dsl.c:139-229 | whatever the matcher accepts, the pattern denotes |
| `FilterGlob.SeparatorSeparates` | src/core/filter_dsl.c:139-229 | for every text with a `*` there is a pattern that denotes it and that the matcher refuses |
| `FilterGlob.ExactOnStarFreeTexts` | src/core/filter_dsl.c:139-229 | the matcher agrees with the ordinary meaning of all patterns on a text if and only if the text has no `*` |
| `GlobSpelling.EveryPatternIsSpelled` | src/core/filter_dsl.c:139-229 | every pattern is a list of stars, question marks, characters, escapes and bracket sets, each where it may stand |
| `GlobSpelling.MatcherLaysParts` | src/core/filter_dsl.c:139-229 | the matcher accepts exactly the texts that can be cut into pieces such that each part takes its piece, sets with their signs, leading brackets, spans and single characters included; a star before a `*` takes just that |
| `FilterParser.Parser.SkipWs` | src/core/filter_dsl.c:308-313 | moves past blanks and nothing else |
| `FilterParser.Parser.AtWord` | src/core/filter_dsl.c:316-324 | a keyword is recognised only as a whole word |
| `FilterParser.Parser.ReadOperand` | src/core/filter_dsl.c:328-439 | reads the operand that the grammar denotes on the remaining input, or fails where it does; numbers wrap round at 64 bits |
| `FilterParser.Parser.ReadOperator` | src/core/filter_dsl.c:468-504 | longest operator first, and the operator the grammar denotes |
| `FilterParser.Parser.ReadComparison` | src/core/filter_dsl.c:460-537 | a comparison with its type rules, or a bare operand refused |
| `FilterParser.Parser.ReadPrimary` | src/core/filter_dsl.c:441-537 | parentheses or a comparison; terminates by remaining input |
| `FilterParser.Parser.ReadNot` | src/core/filter_dsl.c:539-558 | negation binds tighter than conjunction |
| `FilterParser.Parser.ReadAnd` | src/core/filter_dsl.c:560-588 | a left-associative chain of conjuncts |
| `FilterParser.Parser.ReadOr` | src/core/filter_dsl.c:590-618 | a left-associative chain of disjuncts |
| `FilterParser.Compile` | src/core/filter_dsl.c:620-665 | a filter results exactly when the grammar denotes one and all input is used |
| `FilterSpelling.OrIsRead` | src/core/filter_dsl.c:308-618 | a well-spelled filter is read in full, whatever blanks and redundant parentheses it has |
| `FilterAcceptance.AcceptsIffSpelled` | src/core/filter_dsl.c:308-665 | a text is accepted as a filter if and only if it spells that filter: blanks, words, operators, keywords and parentheses laid end to end, with nothing left over |
| `FilterAcceptance.TrailingInputFollowsAFilter` | src/core/filter_dsl.c:658-665 | trailing input is reported where a whole filter has ended and something other than a blank follows |
| `FilterSpelling.WrapIsModular` | src/core/filter_dsl.c:376-396 | a number out of range is off by a multiple of two to the power of 64 |
| `FilterSpelling.IdentCharsAre` | src/core/filter_dsl.c:328-439 | the characters of names, by listing them |
| `FilterRoundTrip.ParseUndoesPrint` | src/core/filter_dsl.c:308-618 | every well-formed filter, printed, parses back to itself with all input consumed |
| `FilterRoundTrip.PrintIsCanonical` | src/core/filter_dsl.c:308-665 | whatever parses is well-formed, and printing it gives a text that parses to the same filter |
| `ConfigCache.CollectEntries` | src/core/config_cache.c:131-151 | the cached entries are the scripts with a name that is neither empty nor the wildcard, in order, at most 256 |
| `ConfigCache.FirstNamedAreCached` | src/core/config_cache.c:131-151 | exactly the first 256 scripts with a name of their own are cached, in order and under their names |
| `ConfigCache.TableSize` | src/core/config_cache.c:152-156 | the least power of two from 8 that keeps the load at a quarter or below |
| `ConfigCache.Insert` | src/core/config_cache.c:160-169 | linear probing ends in a free bucket and keeps every earlier entry reachable, earlier duplicates first |
| `ConfigCache.BuildIndex` | src/core/config_cache.c:152-170 | every entry is indexed on its probe path |
| `ConfigCache.Build` | src/core/config_cache.c:108-179 | a complete snapshot: all entries, and an index or the linear fallback |
| `ConfigCache.ProbeDecides` | src/core/config_cache.c:181-214 | the first equal name on the probe path is the first in the list |
| `ConfigCache.Lookup` | src/core/config_cache.c:181-214 | terminates and equals the first match of a linear scan, duplicates included |
| `ConfigReaders.AnswersComeFromOneSnapshot` | src/core/config_cache.c:64-214 | in every interleaving of publishers and readers each answer is the first match of the one complete snapshot that was published at the step that loaded the pointer |
| `ConfigReaders.LookupsEnd` | src/core/config_cache.c:181-214 | whatever is published meanwhile, a lookup has answered once it has looked at every bucket, or past every entry, of its snapshot |
| `ScriptResolver.EvalCallers` | src/core/script_resolver.c:79-102 | any rule that hits wins, a judged rule without a hit refuses, and rules none of which can be judged leave the script undecided |
| `ScriptResolver.Walk` | src/core/script_resolver.c:135-191 | the first script that settles the call (a wildcard, or one that claims this call site), else the first unconstrained script of that name |
| `ScriptResolver.ChoiceMayServe` | src/core/script_resolver.c:135-191 | a script is found if and only if one may serve, and the one found may: the wildcard, or one of that name with a rule that hits, or with none that could be judged and no other return address |
| `ScriptResolver.CallSiteGoesFirst` | src/core/script_resolver.c:135-191 | without wildcards, a script for exactly this call site goes before one for any, and the first of its kind wins |
| `ScriptResolver.Find` | src/core/script_resolver.c:104-191 | the cached answer when there is one, else the walk |
| `ScriptResolver.CachedIsFirst` | src/core/config_cache.c:132-151 | a cached answer is the first script of that name in the whole configuration |
| `ScriptResolver.FastPathIsExact` | src/core/script_resolver.c:114-191 | the fast path agrees with the walk if and only if no earlier wildcard, and no later wildcard or script claiming this call site, would settle the call first |
| `ScriptResolver.FastPathIsTransparent` | src/core/script_resolver.c:114-133 | without wildcards and with one script per name the fast path changes nothing |
| `ScriptResolver.BothHypothesesMatter` | src/core/script_resolver.c:114-191 | a configuration for each hypothesis dropped in which the fast path changes the answer |
| `Engine.ThreadContext.SetRetVal` | src/backends/as_ops.c:69-89 | -1 becomes the negated errno on a lane and stays -1 on the built-in table |
| `Engine.ThreadContext.Wrapper` | src/core/engine.c:392-544 | tests the guard: if it is active the call only schedules its real implementation (or -1) and every member of the context stays as it was; if not, the call enters, works and leaves the context idle, and says whether the real call stays scheduled |
| `Engine.ThreadContext.Clear` | src/core/cleanup.c:30-40 | the flagged buffers are freed in order and the context is pristine |
| `Engine.ThreadContext.RunActions` | src/core/action_runner.c:34-109 | actions run in order up to the first that aborts, each with the state the ones before it left; what that state is say `ScriptAnswers` and `LastReplacementIsHeld` |
| `Engine.ThreadContext.Arrive` | src/core/engine.c:392-544 | for every finite tree of interposed calls, each with its own script, parameters and nested calls, and from every context that is idle or guarded: the specified trace, and the context idle or unchanged |
| `Engine.ThreadContext.PermanentThread` | src/core/reentrance_guard.c:41-54 | under the permanent guard no call of the thread acts and the context is never cleared |
| `EngineRuns.OnlyTheOutermostCallActs` | src/core/engine.c:436-544 | over a whole call tree the guard is entered, parameters read, real calls withdrawn and actions run by the outermost calls only, each doing exactly its own in turn |
| `EngineRuns.FramesGetTheirOwn` | src/core/engine.c:392-544 | the frame of an outermost call sees exactly its own stages under the lane in force; every frame sheltered in it sees exactly one event, its real call or -1, under the built-in table |
| `EngineReturns.ScriptAnswers` | src/core/engine.c:519-528 | a script ends in one return value, followed only by the frees of clearing: what the last action that ran and stored one stored, 0 if none did, and on a lane minus the errno for -1 |
| `EngineReturns.OneAnswer` | src/core/engine.c:519-528 | the actions determine that value |
| `EngineReturns.EveryScriptAnswers` | src/core/engine.c:519-528 | the same for every outermost call of a whole call tree that reaches its script |
| `EngineReturns.LastReplacementIsHeld` | src/core/cleanup.c:30-40 | when the context is cleared, each parameter holds what the last action to replace it put there, or what was read |
| `EngineReturns.LaneServesOneDispatch` | src/core/cleanup.c:30-40 | over a whole tree a lane serves the first call that has an implementation and every later call works with the built-in table |
| `EngineReturns.OrderIsReach` | src/core/engine.c:392-439 | under the guard exactly the calls come by that some path of lookups and real implementations leads to |
| `EngineReturns.TurnsAreReach` | src/core/engine.c:392-544 | outside it exactly those calls take a turn of their own, a real implementation being reached unless a script withdrew it |
| `EngineRuns.BuffersAreConserved` | src/core/cleanup.c:30-40 | every buffer flagged during a dispatch is freed once or overwritten once, and nothing else is freed |
| `EngineRuns.TreesConserveBuffers` | src/core/cleanup.c:30-40 | the same over a whole call tree |
| `EngineRuns.ReleasedExactlyOnceIff` | src/core/actions/basic.c:425-437 | a dispatch frees exactly what it allocated if and only if every action that replaces a flagged parameter frees it first |
| `EngineRuns.DecoyLosesACopy` | src/core/actions/sandbox.c:499-527 | a decoy put over a copied parameter loses that copy |
| `LogRing.ReserveKeeps` | src/core/log_ring.c:253-302 | the full test keeps the producer off every slot the consumer has not released |
| `LogRing.PublishKeeps` | src/core/log_ring.c:253-302 | publishing the head makes exactly the stored entry visible |
| `LogRing.ReleaseKeeps` | src/core/log_ring.c:305-336 | an emitted entry is freed once, cleared and counted as consumed |
| `LogRing.StepKeeps` | src/core/log_ring.c:253-336 | every step of producer and consumer keeps the ring invariant |
| `LogRing.InvIsQueue` | src/core/log_ring.c:253-336 | the ring is a queue: accepted = consumed ++ buffered, at most capacity - 1 in flight, every published slot still holds its entry, offered = accepted + dropped plus the one in hand, and nothing was freed twice |
| `LogFlusher.EveryRingIsAQueue` | src/core/log_flusher.c:75-110 | in every run of any number of producers and the flusher, each ring is a queue, what was written out lies between consumed and accepted, and nothing is freed twice |
| `LogFlusher.DecliningKeepsTheEntry` | src/core/log_ring.c:305-336 | a callback that declines leaves the entry at the head of the ring for the next drain |
| `LogProgress.ReserveDropsIffFull` | src/core/log_ring.c:275-292 | the test of head and tail drops exactly when all but one slot are in flight |
| `LogProgress.PushIsDroppedIffFull` | src/core/log_ring.c:253-302 | in every run, with the flusher interleaved, a push is dropped and counted if and only if its ring is full when it looks |
| `LogProgress.PushGetsIn` | src/core/log_ring.c:253-302 | otherwise it appends exactly one entry, with the time, severity, module and text pushed, and nothing is dropped |
| `LogProgress.FullPassWritesEverything` | src/core/log_flusher.c:75-110 | a pass that no callback cuts short has written out everything accepted before it began, from every ring registered then |
| `LogFlusher.FreeSlots` | src/core/log_ring.c:101-120 | freeing a ring frees each remaining text exactly once |
| `LogFlusher.FreeRing` | src/core/log_ring.c:101-120 | after the free no text of the ring is live |
| `OtlpTeardown.TeardownIsSafe` | src/core/otlp_live.c:164-526 | in every interleaving no step uses a freed exporter, the busy counter equals the callers inside, at most one tick thread exists, and a free means shut door, nobody inside, thread gone |
| `OtlpTeardown.OnlyADrainedTeardownFrees` | src/core/otlp_live.c:392-474 | the exporter is freed at most once, only by a drained teardown, and a timed-out drain frees nothing |
| `OtlpProgress.EmittersGetThrough` | src/core/otlp_live.c:164-218 | while the exporter is up, seven steps of an emitter hand a record over, whatever runs between them |
| `OtlpProgress.TeardownBegins` | src/core/otlp_live.c:392-412 | a teardown of a running exporter shuts the door and drains; any other changes nothing |
| `OtlpProgress.DrainWaits` | src/core/otlp_live.c:412-423 | the drain waits while the counter is up, 30000 times at most, and then gives up |
| `OtlpProgress.DrainedTeardownFrees` | src/core/otlp_live.c:392-474 | a teardown that reads the counter at zero in time returns only with the door shut, the thread told to stop, the exporter freed and forgotten and the running flag down |
| `OtlpProgress.StoppedThreadExits` | src/core/otlp_live.c:512-526 | once told to stop, the tick thread ticks once more, shuts down, flushes and clears the flag, step by step, skipping none |
| `AgentRing.PushIsEnqueue` | src/supervisor/agent_ring.c:17-62 | a push appends or counts a refusal and leaves every occupied slot's bytes alone |
| `AgentRing.RefusedIff` | src/supervisor/agent_ring.c:17-62 | a push is refused by a full ring of 256, or without memory for an item of 768 bytes or more, and by nothing else |
| `AgentRing.PopIsDequeue` | src/supervisor/agent_ring.c:77-88 | a pop removes the oldest item only |
| `AgentRing.EventRing.constructor` | src/supervisor/agent_ring.c:12-15 | an empty ring with no losses |
| `AgentRing.EventRing.PushItem` | src/supervisor/agent_ring.c:17-50 | the in-place push is the push on values |
| `AgentRing.EventRing.Peek` | src/supervisor/agent_ring.c:64-75 | the oldest item with its length, or none |
| `AgentRing.EventRing.PopItem` | src/supervisor/agent_ring.c:77-88 | the in-place pop is the pop on values |
| `AgentQueue.QueueConserves` | src/supervisor/agent_posix.c:692-742 | in every run accepted = sent ++ queued, offered = accepted + dropped, and accepted loss markers add up to the reported losses |
| `AgentQueue.PeekedBytesStay` | src/supervisor/agent_posix.c:692-714 | in every state of a send the slot holds the bytes peeked, whatever was pushed during it, and those bytes go out |
| `AgentQueue.QuietMeansDelivered` | src/supervisor/agent_posix.c:692-742 | when the drain comes to rest every accepted item has been sent and every loss reported |
| `AgentQueue.AgentIsNeverStuck` | src/supervisor/agent_posix.c:692-742 | in every state of every run the agent thread has a step to take |
| `AgentQueue.OfferWithRoomIsAccepted` | src/supervisor/agent_ring.c:17-62 | an offer that finds room goes to the back of the queue, whatever the agent thread is doing |
| `AgentQueue.DrainSendsEverything` | src/supervisor/agent_posix.c:692-714 | a drain that gets as far as the drop counter has sent everything accepted before it started |
| `AgentQueue.MarkerReportsTheLosses` | src/supervisor/agent_posix.c:716-742 | a marker that finds room reports exactly the losses since the last report |
| `AgentQueue.LossesAreMarked` | src/supervisor/agent_posix.c:723-727 | losses not reported yet lead to a marker |
| `Frames.U16RoundTrip` | src/supervisor/protocol.c:20-43 | two little-endian bytes read back the number, and only those bytes do |
| `Frames.U32RoundTrip` | src/supervisor/protocol.c:20-43 | four little-endian bytes read back the number, and only those bytes do |
| `Frames.DecodeInvertsEncode` | src/supervisor/protocol.c:45-87 | a header decodes to a frame's fields if and only if it is that frame's header |
| `Frames.WireLayout` | src/supervisor/protocol.c:45-69 | the twelve header bytes one by one: RTRD, then version, type and length, lowest byte first |
| `Frames.Encode` | src/supervisor/protocol.c:45-69 | the frame's bytes, the error cases, and nothing written outside the frame |
| `Frames.Receiver.HandleFrames` | src/supervisor/agent_posix.c:837-864 | hands over the complete frames at the front and keeps the rest, or discards everything at a bad header |
| `Frames.ExtractFromStream` | src/supervisor/agent_posix.c:837-864 | any prefix of a stream of frames yields exactly the frames complete in it |
| `Frames.ExtractIsExact` | src/supervisor/agent_posix.c:837-864 | any bytes at all are whole frames and a rest; the frames come out in order, and the rest stays if it may still grow into a frame and is thrown away if its header is bad |
| `Frames.FramesArriveInOrder` | src/supervisor/agent_posix.c:820-864 | however reads are cut, delivered frames are a prefix of those sent, all of them when every frame fits the buffer, and a drop happens only before a frame that does not |
| `Frames.OnlyFittingStreamsArrive` | src/supervisor/agent_posix.c:820-864 | a stream that arrives whole had only frames that fit |
| `PolicyEpochs.CheckSignature` | src/supervisor/policy_sig.c:185-260 | the signed blob and its verdict: the ladder of refusals in order |
| `PolicyEpochs.Agent.PolicyApply` | src/supervisor/agent_posix.c:474-494 | validates, installs configuration, cache and epoch together, or changes nothing |
| `PolicyEpochs.Agent.PolicySet` | src/supervisor/agent_posix.c:600-617 | the acknowledgement says applied exactly when the apply succeeded |
| `PolicyEpochs.DeliveryIsAtomic` | src/supervisor/agent_posix.c:474-494 | a delivery changes the epoch exactly when it installs, never lowers it, and installs configuration and cache of one document |
| `PolicyEpochs.RunIsMonotone` | src/supervisor/agent_posix.c:474-508 | over any deliveries the epoch never falls and the policy in force is wholly one delivery's or the first |
| `PolicyEpochs.FinalIsHighest` | src/supervisor/policy_sig.c:273-362 | among sound deliveries the first of the highest new epoch ends up in force |
| `PolicyEpochs.OrderDoesNotMatterIff` | src/supervisor/policy_sig.c:273-362 | the outcome is the same in every delivery order if and only if deliveries of the highest new epoch agree |
| `PolicyGrounds.RungIsBrings` | src/supervisor/policy_sig.c:185-260 | the signature rung passes a bare policy as it is, and the blob of a whole wrapper whose signature stands; nothing else |
| `PolicyGrounds.TakesForceIff` | src/supervisor/policy_sig.c:185-362 | a delivery puts a policy in force if and only if it brings that policy, signed by a pinned key if it is wrapped and keys are pinned, with a header, scripts, a higher epoch and time left |
| `PolicyGrounds.RunIsGrounded` | src/supervisor/agent_posix.c:474-494 | after every run the policy in force is the first one or was brought so by one of the deliveries |
| `PolicyGrounds.PinnedKeysSignWhatRuns` | src/supervisor/policy_sig.c:228-248 | at every delivery of every run, a wrapped document that changes what is in force while keys are pinned was signed by one of them, and its blob's scripts are what runs |
| `PolicyGrounds.ExpiredNeverRuns` | src/supervisor/policy_sig.c:344-349 | the policy in force had not expired when it was delivered |
| `PolicyGrounds.HalfWrappersAreRefused` | src/supervisor/policy_sig.c:212-215 | a signature without a blob, or a blob without a signature, changes nothing |
| `PolicyGrounds.AppliedIff` | src/supervisor/agent_posix.c:474-494 | a delivery is acknowledged as applied if and only if it takes force or brings the policy already held |
| `PolicyGrounds.ReasonsAreTrue` | src/supervisor/policy_sig.c:185-260 | each reason about the signature names what was wrong |
| `PolicyGrounds.PolicyReasonsAreTrue` | src/supervisor/policy_sig.c:273-362 | each reason about the policy names what was wrong |
| `LogStream.Scan` | tools/common/stream.c:20-87 | one pass delivers the parsed entries in order and counts the rest as skipped |
| `LogStream.SerializeIsNeutral` | src/config/json/parson.c:842-1046 | reading any serialised value, compact or pretty, never ends the surrounding entry and returns to the same scanner state |
| `LogStream.EntryIsCut` | tools/common/stream.c:20-87 | the scanner cuts a serialised object out exactly, whatever follows |
| `LogStream.PrefixYieldsNothing` | tools/common/stream.c:20-87 | a proper prefix of an entry yields no entry |
| `LogBlocks.ScanCutsBlocks` | tools/common/stream.c:20-87 | from any text at all the scanner cuts exactly its blocks, braces around characters, string literals and blocks, up to a brace that opens none |
| `LogFile.Writer.constructor` | src/core/logger.c:498-517 | an array is opened at start, lines need nothing |
| `LogFile.Writer.WriteEntry` | src/core/logger.c:316-325 | the file is the document of the entries so far, with comma framing in an array |
| `LogFile.Writer.Close` | src/core/logger.c:419-442 | the closed document |
| `LogFormats.ClosedArrayIsJsonIff` | src/core/logger.c:316-325 | a closed array log is JSON for the array of its entries if and only if every entry is readable inside an array |
| `LogFormats.LineLogHasOneEntryPerLine` | src/core/logger.c:316-325 | a line log has exactly one entry on each line |
| `LogFile.EndOfEndsEntry` | src/core/logger.c:316-325 | where each entry ends in the document |
| `LogFile.TruncatedLogScans` | tools/common/stream.c:20-87 | a log cut at any byte scans to exactly the entries whose closing brace lies before the cut |
| `LogFile.ScanUndoesWrite` | tools/common/stream.c:20-87 | scanning a written log gives back exactly the entries, in both framings, closed or not |
| `JsonReader.ReadIsReadable` | src/config/json/parson.c:663-788 | whatever the parser accepts nests within its limit and repeats no name in an object |
| `JsonReader.ParseUndoesSerializeIff` | src/config/json/parson.c:663-821 | a printed value, compact or pretty, parses back to itself if and only if it nests within the limit and repeats no name |
| `LogFile.CallbackSeesTheEntriesIff` | tools/common/stream.c:20-87 | whatever the parser, the callback receives the logged objects in order if and only if each printed entry parses back |
| `LogFile.LogReadsBackIff` | tools/common/stream.c:20-87 | a log goes through writer, scanner and parser unchanged if and only if every entry nests within the limit and repeats no name |
| `Redact.GlobWhole` | src/core/redact.c:112-134 | the iterative star match decides the recursive meaning on all inputs and terminates |
| `Redact.PiecesAreMaximal` | src/core/redact.c:44-50 | the text is cut into maximal tokens and single other characters |
| `Redact.MaximalIsUnique` | src/core/redact.c:44-50 | there is only one such cut |
| `Redact.ShiftDown` | src/core/redact.c:179-184 | the overlapping copy moves the tail down unharmed |
| `Redact.MaskToken` | src/core/redact.c:163-189 | a token becomes at most three stars, the tail closes up, nothing past the old terminator is written |
| `Redact.Apply` | src/core/redact.c:136-191 | the buffer ends up holding the map over maximal tokens with the first 64 secret ones masked |
| `Redact.NeverLonger` | src/core/redact.c:163-189 | redaction never lengthens the text |
| `Redact.HitsAfter` | src/core/redact.c:136-191 | the secret tokens left are exactly those beyond the budget |
| `Redact.CleanIff` | src/core/redact.c:136-191 | no secret token is left if and only if at most 64 were there |
| `Redact.IdempotentIff` | src/core/redact.c:136-191 | a second call changes nothing if and only if at most 64 were there |
| `RedactTokens.TokenCharsAre` | src/core/redact.c:44-50 | the characters of tokens, by listing them |
| `RedactTokens.PatternMeans` | src/core/redact.c:112-134 | a pattern denotes the tokens that can be cut into one piece per character: any piece for a star, itself for any other |
| `RedactTokens.EveryTokenIsDecided` | src/core/redact.c:136-191 | however the text is cut into maximal tokens, each is stars if some pattern matches it and fewer than 64 such came before, and keeps its bytes otherwise |
| `RedactTokens.NamedTokensLeftIff` | src/core/redact.c:136-191 | a maximal token that some pattern matches is left if and only if there were more than 64 |
| `AuditTrail.ExtractHash` | tools/enforce/artifact_audit.c:271-286 | the digest stored behind the first marker, bounded by the buffer |
| `AuditTrail.VerifyChain` | tools/enforce/artifact_audit.c:305-360 | the number of records and the head of an intact trail, -2 otherwise, zero for a missing file |
| `AuditTrail.QuoteArg` | tools/enforce/artifact_audit.c:243-269 | the escaped argument, refused exactly when it might not fit |
| `AuditTrail.JoinArgs` | tools/enforce/artifact_audit.c:388-398 | the joined arguments, truncated as the buffer truncates them |
| `AuditRecords.QuotedFits` | tools/enforce/artifact_audit.c:243-269 | an argument that is not refused fits its 512-byte buffer |
| `AuditRecords.RecordIsJson` | tools/enforce/artifact_audit.c:388-411 | the payload of a record with plain fields and arguments that fit is a JSON object with its time, process, digest, algorithm, backends and arguments under their names |
| `AuditTrail.JoinedIsTame` | tools/enforce/artifact_audit.c:243-269 | escaped and truncated arguments hold no newline and cannot start a marker |
| `AuditTrail.ReplayExtends` | tools/enforce/artifact_audit.c:305-360 | replaying an extended trail continues where the intact trail ended |
| `AuditTrail.ReadsBackIff` | tools/enforce/artifact_audit.c:362-449 | the appended line reads back as the appended payload if and only if the raw fields hold no newline and complete no marker |
| `AuditTrail.AppendedVerifies` | tools/enforce/artifact_audit.c:305-360 | a line that reads back makes the trail verify with exactly one more payload |
| `AuditTrail.OnlyReadBacksVerify` | tools/enforce/artifact_audit.c:305-360 | a line that does not read back leaves no trail that verifies with just its payload more |
| `AuditTrail.Append` | tools/enforce/artifact_audit.c:362-449 | a broken trail is refused and unchanged; otherwise the record is added, and the new trail verifies with exactly this payload more if and only if the raw fields are clean |
| `AuditTrail.NewlineBreaksTheTrail` | tools/enforce/artifact_audit.c:362-449 | a newline in a raw field leaves a file that no longer verifies |
| `AuditTrail.ReplayIsChain` | tools/enforce/artifact_audit.c:305-360 | the head of an intact trail is the iterated hash of its payloads |
| `AuditTrail.HeadFixesTrail` | tools/enforce/artifact_audit.c:175-201 | two intact trails of braced payloads with equal heads have the same payloads, or a collision of the hash is exhibited |
| `Correlate.PreorderIffCoherent` | tools/correlate/match.c:96-120 | the comparison is a total preorder on a set of paths if and only if no path off the drives lies between two drive paths that the case of their letters puts the other way |
| `Correlate.RootedIsCoherent` | tools/correlate/match.c:96-120 | paths that start with a slash or a drive are such a set |
| `Correlate.DrivelessIsCoherent` | tools/correlate/match.c:96-120 | so is every set without drive paths, relative paths included |
| `Correlate.TotalPreorder` | tools/correlate/match.c:96-120 | on paths each of which suits all drive paths, a total preorder whose equality ignores the drive's case |
| `Correlate.ComparesKeys` | tools/correlate/match.c:96-120 | there it is byte order on the paths with the drive letter in upper case |
| `Correlate.ConsistentIffPlaced` | tools/correlate/match.c:96-120 | a path keeps equal drive paths on one side if and only if it is placed |
| `Correlate.RelativePathsBreakTheOrder` | tools/correlate/match.c:96-120 | three normalised paths, one relative, that form a cycle |
| `Correlate.SearchDecides` | tools/correlate/match.c:169-185 | the halving search finds an equal path if and only if there is one, relative paths included, wherever the comparison orders the items and the path |
| `Correlate.OtherSpellingIsMissed` | tools/correlate/match.c:169-185 | a sorted, coherent set in which the search misses an equal path looked for in the other spelling |
| `Correlate.PathSet.Add` | tools/correlate/match.c:135-161 | appends unless an equal path is there |
| `Correlate.PathSet.Contains` | tools/correlate/match.c:169-185 | the loop is the halving search, which never answers yes without an equal path and decides whether one is there whenever the comparison orders the items and the path |
| `Correlate.Index.AddRecord` | tools/correlate/match.c:297-321 | the record is added and the set keeps agreeing with the records |
| `Correlate.Index.Finish` | tools/correlate/match.c:396-416 | sorting keeps the records and the agreement, and sorts both whenever the comparison orders the paths |
| `Correlate.Index.IsCovered` | tools/correlate/match.c:433-480 | yes only when some record has an equal path, a covering pid and, with a window, a time within it; exactly then whenever the comparison orders the records and the path |
| `Correlate.CoveredMeans` | tools/correlate/match.c:433-480 | covered means: some record has the same path, up to the case of a drive letter, the same process or either none, and a time within the window if one is set |
| `Correlate.CoverageIgnoresOrder` | tools/correlate/match.c:433-480 | what is covered does not depend on the order of the records |
| `Seccomp.LookUp` | tools/enforce/seccomp_apply.c:173-182 | the first number the table gives the name, or -1 |
| `Seccomp.Compile` | tools/enforce/seccomp_apply.c:186-236 | the program fits the array whatever it held before, with a test for each known listed name |
| `Seccomp.CompiledDecides` | tools/enforce/seccomp_apply.c:196-236 | interpreting the program denies exactly the listed numbers, on every architecture, and never leaves the program |
| `Seccomp.KnownIsListed` | tools/enforce/seccomp_apply.c:218-232 | the numbers compared are those of the listed names the table knows |
| `Seccomp.ListedMeans` | tools/enforce/seccomp_apply.c:173-232 | a number is denied when some listed name has it in the table, by its first entry there |
| `Seccomp.Apply` | tools/enforce/seccomp_apply.c:186-241 | after success every call is decided by the list; after failure nothing is installed |
| `PdfReport.BuildPageContent` | tools/audit-converter/pdf_writer.c:104-119 | one positioned literal per line |
| `PdfReport.LiteralsReadBack` | tools/audit-converter/pdf_writer.c:71-97 | reading an escaped literal stops at its closing parenthesis and gives the line back with its ends of line normalised |
| `PdfReport.LiteralsRoundTripIff` | tools/audit-converter/pdf_writer.c:71-97 | it gives the line back exactly if and only if the line holds no carriage return |
| `PdfReport.Writer.Emit` | tools/audit-converter/pdf_writer.c:154-167 | every object written so far starts at its recorded offset |
| `PdfReport.Writer.EmitPage` | tools/audit-converter/pdf_writer.c:197-208 | a page and its stream take the next two numbers |
| `PdfReport.WriteFindings` | tools/audit-converter/pdf_writer.c:267-336 | the loop ends, stays within its arrays and writes exactly the pages the count announces |
| `PdfReport.AppendTable` | tools/audit-converter/pdf_writer.c:357-368 | table and trailer follow the last object, the trailer names the byte where the table starts, and every object stays at its offset |
| `PdfReport.WriteReport` | tools/audit-converter/pdf_writer.c:121-373 | objects are numbered without gaps, each starts at its cross-reference offset with its body, the page tree lists exactly its count of pages, and the table follows |
| `PdfReport.TwentyBytesIff` | tools/audit-converter/pdf_writer.c:360-364 | a table entry has 20 bytes if and only if the offset has at most ten digits |
| `PdfReport.ReaderFindsObject` | tools/audit-converter/pdf_writer.c:357-368 | below that size, seeking 20 bytes per entry finds ten digits, and the byte whose number they spell is where the object starts |
| `PdfReport.AllFindingsShownIff` | tools/audit-converter/pdf_writer.c:267-336 | every finding is shown once and in order if and only if there are at most 2480 |
| `PdfReading.PageShowsItsLines` | tools/audit-converter/pdf_writer.c:104-119 | the literals of a page's content are its lines, in order |
| `PdfReading.FindingIsShown` | tools/audit-converter/pdf_writer.c:267-336 | each of the first 2480 findings is shown at its place on its page |
| `PdfReading.TreeListsThePages` | tools/audit-converter/pdf_writer.c:338-355 | the page tree lists exactly the page objects, in order |
| `PdfReading.StreamIsMeasured` | tools/audit-converter/pdf_writer.c:203-206 | a stream's length entry counts the bytes between its keywords |

## Left out

- The filter evaluator and its resolvers (src/core/filter_dsl.c:794-1040): a table of comparisons over values read from a live call.
- Growth of the parser's node and string arrays: syntax trees are values here.
- Character ranges in filter globs compare code points; a platform with signed `char` orders bytes above 127 differently.
- Building and freeing of real implementations and prototypes, and calls made before the engine is initialised: dispatch starts with a context.
- What single actions do beyond their nested calls, the return value, one replaced parameter and aborting.
- Restarting the telemetry streamer after teardown, and its statistics query (src/core/otlp_live.c:649-681), which reads the exporter without being counted.
- Bounded spin-waits that replace a join on macOS.
- Weak memory: acquire and release operations are treated as sequentially consistent.
- Adoption of the agent's state by a forked child.
- Truncation of a sent payload to 2048 bytes and of a received policy to 4095 bytes in the agent's send and set handlers.
- Signature and hash algorithms: a signature check is a parameter and the trail's hash is an arbitrary function to digests.
- Signed audit records, and a short write when a record is appended.
- JSON numbers are kept as they are spelled, not converted to floating point; the parser's escapes for characters above 127, its byte-order mark and comments are not read.
- Signed overflow in a filter's number, which C leaves undefined, is modelled as wrapping round at 64 bits.
- AuditRecords.RecordIsJson: the converse is not stated; fields that hold quotes, backslashes or control characters, and arguments cut short by their buffer, are not shown to give other JSON or none.
- Where the filter parser reports a fault other than trailing input: the position and the kind follow the grammar functions.
- Out-of-memory paths, except where the code counts them (ring drops, oversize agent items, the cache's linear fallback).
- Setting redaction patterns from an array or a comma-separated list: patterns are a parameter.
- Correlate.PathSet.Contains: a path that is there may be missed when the comparison does not order the items and the path (`OtherSpellingIsMissed`); which of those searches still succeed depends on the positions probed and is not characterised.
- Correlate.Index.IsCovered: the same restriction, for its two searches.
- The order a library sort leaves when the comparison is no order.
- A missing path passed to the path comparison: no caller passes one.
- Path normalisation, event classification and the walk over JSON values in correlation; library sorts are represented by their results.
- Formatting of finding lines and of the report's date and counts: page lines are inputs.
- The other enforcement backends, command lines, converters, HTML output and language bindings: plumbing and tables.
