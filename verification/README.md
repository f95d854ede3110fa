# MoonMon verification model

A Dafny model of MoonMon, a Windows kernel sensor (C) with a user-space agent called Luna (Go),
and proofs about it. `dafny verify dfyconfig.toml` checks the whole project.

Three parts are modelled, each from the code of both sides:

- **The telemetry pipeline.** Kernel callbacks frame every field of an event and append the frame to
  a byte-bounded log that is purged when full. Reads drain the log into client buffers. The agent
  rotates its buffers among workers, which parse the frames and put events together again.
  Modules `Bytes`, `Frames`, `EventLog`, `LogRuns`, `Agent`, `SplitEvents`, `Rotation`, `Pipeline`,
  `EventIds`, `Overwriting`, `Emission`.
- **The rules.** The agent compiles entries of YAML lists to registry values; the driver enumerates
  the values in any order, decodes them, groups them by id and counts hits to decide whether an event
  is blocked, logged or dropped. Modules `Options`, `Bits`, `Addresses`, `HexFields`, `Text`,
  `Operators`, `Matching`, `Verdict`, `RuleCodec`, `Loader`, `Compiler`, `Configuration`, `RuleMeaning`,
  `RuleActions`, `Deployment`.
- **The process cache.** Module `ProcessCache`.

Code that updates state in place is modelled by classes and methods with loops (`EventLog.Log`,
`ProcessCache.Cache`, `Loader.Driver`, `Compiler.RuleWriter`, `EventIds.Globals`, the encoder, the
parser loop, the checks, the matchers, the inspectors). Each is proved against a function of the old
state or against an independent property, and the theorems over whole runs are about these functions.
Allocation always succeeds, and a critical section of a lock is one step. Where the process cache or
the loader of rules would write or read outside the memory it allocated, the model stops and the
theorems say exactly when that happens.

## Main theorems

- `Emission.EventArrives`: over every interleaving of callbacks, purges, reads and workers, from any
  start of the id counter and while ids have not come round, an event is reported as one record with
  all its fields if and only if the frames found under its id in one processed batch are its end
  behind fields with the same last occurrences as those it logged. That is so when all its frames lie
  in one batch, and only then unless it logs equal frames. `Overwriting.SameRecordIff` is its centre.
- `Pipeline.FramesArrive`: over every interleaving of logging, reads and workers each accepted frame
  is purged, queued or in exactly one batch, batches keep the order of acceptance, and what a worker
  parses is exactly what was logged.
- `Rotation.RotationSafe`, `Rotation.ReadsProcessedOnce`: over every schedule no buffer is refilled
  while a job on it is pending, and every read is processed once, unchanged.
- `Deployment.Judge`: from a configuration through the agent's compiler, a registry key that may hold
  anything, any order of enumeration, the driver's loader and its groups, to the outcome of the
  inspector: it is what the lists for that kind of event say, under a condition on the key that can be
  checked beforehand. `RuleMeaning.MeaningPreserved` is its centre, `Deployment.CarriesIff` says that the
  condition is exact, `Deployment.GroupsFitIff` when the driver's arrays suffice.
- `RuleMeaning.DocumentedEntryIff`, `RuleMeaning.PlainEntryIff`: exactly which entries are decided as
  documented although the driver drops rules on some fields.
- `Addresses.Ipv4IsSubnetMatchIff`, `Addresses.Ipv6IsPrefixMatchIff`, `RuleCodec.SubnetRuleIff`:
  exactly when address rules are the subnet matches of RFC 4632 section 3.1 and RFC 4291 section 2.3,
  for each way an address reaches the check.
- `ProcessCache.Replay`: over every run from load the cache is a partial map with a one-shot mark, and
  its writes stay within the array, if and only if at most 31999 insertions missed.

## Where the code and its documentation differ, and defects

The model follows the code. For each item there is a lemma with the exact condition under which the
code does what it should, or the concrete way in which it does not.

- The process cache's array has 32000 slots (MoonMon/DataTypes.h:579), but its cursor runs up to
  32000 and is set back only after that, so the 32000th insertion of an uncached process since load
  writes past the array, over members of the global context that include the event id counter and
  the client's process id. The cache need not be full for that, and its entries never evict each
  other before it happens: `ProcessCache.Replay`, `ProcessCache.ChurnMisses`.
- A group has places for 256 rules (MoonMon/DataTypes.h:348) and the driver does not check
  (MoonMon/Config.c:363-369); the agent accepts entries with more: `Deployment.GroupsFitIff`.
- The driver terminates a value's name at twice its length (MoonMon/Config.c:913), in a buffer with
  room for 1020 characters: any longer name under the settings key, of whatever type, is a write out
  of bounds: `Loader.LongNameNotLoadable`.
- The driver reads a rule's header and payload without regard to the value's length
  (MoonMon/Config.c:948-1003): values of fewer than 3 bytes, and short string and IPv6 values that
  claim to be longer than they are, are read past the buffer: `RuleCodec.CrashesIff`,
  `RuleCodec.ShortIpv6Crashes`.
- The driver reads at most 32000 values of a key that also holds its settings, and the agent never
  deletes values of an earlier configuration. Values left over take part in decisions, values beyond
  the cap do not: `Deployment.CarriesIff`, `Deployment.StaleRuleDecides`,
  `Deployment.UnseenNeverMatches`.
- The purge is described as removing the oldest entries (MoonMon/Logging.c:39, MoonMon/Logging.c:126)
  but takes them from the tail, so it removes the newest: `LogRuns.PurgeDropsNewest`,
  `LogRuns.OldestFirstIff`, `LogRuns.NewestGoesFirst`.
- The byte counter is a LONG; frames of 2 GB and more turn it negative: `EventLog.AddAccounting`,
  `EventLog.CounterOverflows`.
- An entry longer than the reader's buffer blocks the log for good once it is at the head:
  `LogRuns.OversizedHeadBlocks`.
- An event that spans two reads is said to lose no data (cmd/luna/main.go:277-280); it loses every
  field read before the read that brings its end: `SplitEvents.FieldReportedIff`.
- The parser checks a frame's size but not the rest of its header against the end of the batch
  (cmd/luna/main.go:95-100), so a torn frame there is read past the end: `Agent.ParseFinishes` says
  what keeps it in bounds, `Agent.CutHeaderCrashes` is an input that does not.
- The callback for loaded modules logs its end twice (MoonMon/MoonMon.c:617-619). A module load that is
  logged is reported twice, and one that is excluded once, as a record without fields:
  `Emission.ModuleLoggedTwice`, `Emission.ExcludedModuleLogged`.
- Remote-thread and process-access events log the users of both processes under one id with the same
  field kinds (MoonMon/Process.c:430-440), so that the later overwrite the earlier ones; where both are
  the same, losing the earlier ones does not show: `Overwriting.RepeatedFieldIdle`.
- The in-use mark of a cached process is a flag and not a count (MoonMon/MoonMon.c:318, 350): after one
  callback's release a removal takes the entry out although another callback still uses it:
  `ProcessCache.ReleasedGoes`.
- Thread creations in a new process are meant to be suppressed once; the mark is tested without the
  lock, so callbacks that all test it before the first clears it are all suppressed:
  `ProcessCache.ThreadsPerInsertion`, `ProcessCache.BoundIsReached`.
- NOT_AND, NOT_LESS_THAN and NOT_GREATER_THAN decide the opposite of their description when both
  numbers are equal, and only then: `Operators.DocumentedIff`.
- Address rules compare the low bits of the octet in which the suffix ends, and ignore their operator,
  so "notequals" never means what it says: `RuleCodec.SubnetRuleIff`.
- The resource-assignment layer stores its IPv4 address swapped (MoonMon/MoonMon.c:2207) and leaves the
  flag for swapping set (MoonMon/MoonMon.c:2013), so the check swaps it again and compares the octets
  in reverse: `Addresses.Ipv4EndToEnd`, `Addresses.Ipv4IsSubnetMatchIff`, `RuleCodec.SubnetRuleIff`.
- Substring search works on bytes and can match across UTF-16 units: `Text.ByteSearchAlignedIff`,
  `Text.LettersAreMisread`.
- A rule on the network direction is decoded into one slot and compared through another:
  `RuleCodec.DirectionRuleIff`.
- Rules on REG_DATA, ACCOUNT_NAME, ACCOUNT_DOMAIN, PFLAGS and PHFLAGS are written by the agent and
  dropped by the driver: `RuleCodec.UnknownFields`, `RuleMeaning.DocumentedEntryIff`.
- A 32-bit hexadecimal value loses its leading zeros together with its prefix (pkg/luna/parse.go:426),
  so that a zero has no digit left and does not compile: `HexFields.HexSurvives`.
- An entry without an action inherits the action of an earlier entry of its list:
  `RuleActions.DefaultActionIff`.

## Model

| member | source | states |
|---|---|---|
| `Frames.FrameReadsBack` | MoonMon/Logging.c:92-116 | wherever a frame lies in a buffer, every header field and the payload read back at the parser's offsets as they were logged |
| `Frames.EncodeInjective` | MoonMon/Logging.c:92-116 | frames of the encoder's argument types with the same bytes are the same frame |
| `Frames.BuildEntry` | MoonMon/Logging.c:55-116 | the field-by-field writes through a moving offset fill the allocation with exactly the frame |
| `EventLog.FitIsLongest` | MoonMon/MoonMon.c:2689-2721 | greedy packing takes a prefix that fits, and every longer prefix is too long |
| `EventLog.FitIsUnique` | MoonMon/Logging.c:140-152 | the greedy count is the only length that fits while its extension by one entry does not; both the drain and the purge stop there |
| `EventLog.AddKeeps` | MoonMon/Logging.c:121-152 | the same in terms of the log alone: what survives an insertion, in bytes, for every random number |
| `EventLog.AddAccounting` | MoonMon/Logging.c:121-158 | after an insertion the counter equals the bytes queued if and only if they stay below the range of a LONG; what a purge leaves is below the limit |
| `EventLog.AddBounded` | MoonMon/Logging.c:121-158 | frames up to 1,947,483,648 bytes never break the accounting, and the counter stays below the limit plus the largest frame |
| `EventLog.CounterOverflows` | MoonMon/Logging.c:71-76 | on an empty log an accepted frame turns the counter negative if and only if it is 2 GB or longer |
| `EventLog.PurgeDropsSome` | MoonMon/DataTypes.h:83-86 | for every random number the limit kept is at most 183749999, so a triggered purge removes at least one entry |
| `EventLog.RestAccounting` | MoonMon/MoonMon.c:2689-2721 | batch followed by rest is the old log, the batch fits, and the counter stays exact |
| `EventLog.Log.DeleteLogEntry` | MoonMon/Logging.c:19-28 | on an exact counter the clamp at zero never fires |
| `EventLog.Log.Purge` | MoonMon/Logging.c:136-152 | the loop never pops an empty list and leaves the longest prefix within the limit kept |
| `EventLog.Log.AddLogEntry` | MoonMon/Logging.c:43-167 | payloads of 1 to 4294967258 bytes are accepted, others refused without effect; below 200000000 bytes the whole log stays, otherwise exactly the prefixes of at most 175000000 bytes and the jitter survive, and the new frame follows |
| `EventLog.Log.Drain` | MoonMon/MoonMon.c:2689-2721 | for every buffer length, also below 12 where `len - 12` wraps, exactly the longest prefix that fits moves into the buffer |
| `EventLog.Log.ReadLogEntry` | MoonMon/MoonMon.c:2658-2744 | status, byte count, batch, zeros and remaining log in every case; exactly the prefixes of at most the buffer's length are taken; behind them the letters MOONMON backwards where 8 bytes are free; an entry that does not fit leaves the log as it was |
| `EventLog.TailIs` | MoonMon/MoonMon.c:2722-2726 | what follows a batch, byte by byte |
| `LogRuns.WriteConserves` | MoonMon/Logging.c:118-165 | an insertion with or without purge keeps delivered and queued frames an ordered subsequence of the accepted ones, the missing ones being exactly the purged |
| `LogRuns.ReadConserves` | MoonMon/MoonMon.c:2674-2731 | a read moves frames from the queue to the readers without loss, duplicate or reordering |
| `LogRuns.Execute` | MoonMon/Logging.c:118-165 | both invariants hold after every sequence of writes and reads |
| `LogRuns.CounterBound` | MoonMon/Logging.c:121-158 | in every reachable state the counter is below 200000000 plus the largest frame written |
| `LogRuns.PurgeDropsNewest` | MoonMon/Logging.c:140-152 | every frame a purge removes was accepted after every frame it leaves |
| `LogRuns.OldestFirstIff` | MoonMon/Logging.c:39 | a purge leaves what an oldest-first purge of the same size would leave if and only if the oldest frame alone exceeds what the purge keeps |
| `LogRuns.NewestGoesFirst` | MoonMon/Logging.c:140-152 | reachable: after two frames of 100 MB or more the next write drops the second and keeps the first, for every jitter |
| `LogRuns.OversizedHeadBlocks` | MoonMon/MoonMon.c:2699-2713 | once an entry longer than the readers' buffers is at the head, no later sequence of writes, purges and reads delivers anything |
| `Agent.LooksAtFrame` | cmd/luna/main.go:78-175 | at an encoded frame the parser recovers it whole and moves behind it, whatever follows |
| `Agent.ScanFrames` | cmd/luna/main.go:78-178 | from any offset, a run of frames up to the end of the batch is recovered exactly, so the early exits lose none |
| `Agent.BatchRoundTrip` | cmd/luna/main.go:62-180 | the agent recovers from a batch exactly the frames packed into it, whatever their payloads and the stale bytes behind it |
| `Agent.Resynchronises` | cmd/luna/main.go:83-93 | bytes without a preamble, and torn frames whose size the batch has no room for, are skipped and no frame behind them is lost |
| `Agent.ParseFinishes` | cmd/luna/main.go:78-180 | if every preamble among the valid bytes has its size there too, and a frame that ends there or is too long, no slice is out of bounds, whatever the bytes |
| `Agent.CutHeaderCrashes` | cmd/luna/main.go:83-97 | a preamble and two bytes at the end of a full buffer crash the parser |
| `Agent.InterleavingIrrelevant` | cmd/luna/main.go:137-169 | the records of an id are those of its own frames, whatever frames of other ids lie between |
| `Agent.CompleteEvent` | cmd/luna/main.go:142-159 | an event complete in a batch yields one record with exactly its own fields, later ones winning |
| `Agent.Collect` | cmd/luna/main.go:142-151 | copying every buffered message of the id gives the record defined by the id's own earlier frames |
| `Agent.Handle` | cmd/luna/main.go:137-173 | one recovered frame extends either the records or the buffer as the fold over all frames does |
| `Agent.ProcessData` | cmd/luna/main.go:62-180 | for any bytes, malformed ones included, the records sent are those of the frames recovered, up to a slice panic if there is one |
| `SplitEvents.UnendedFieldIsLost` | cmd/luna/main.go:147-169 | a field whose event does not end later in the buffer changes no record |
| `SplitEvents.MarkedIff` | cmd/luna/main.go:137-169 | a field shows in some record if and only if its event ends behind it |
| `SplitEvents.FieldReportedIff` | cmd/luna/main.go:277-280 | whether a field was logged influences what is reported if and only if the same buffer holds the end of its event behind one of its occurrences |
| `SplitEvents.SplitAfterTheField` | cmd/luna/main.go:277-280 | the smallest loss: a field and its end read apart log a record without the field |
| `Rotation.NextKeeps` | cmd/luna/main.go:254-293 | every step of reader and workers keeps the pool's invariant |
| `Rotation.ScheduleKeeps` | cmd/luna/main.go:236-293 | the invariant holds at every point of every schedule |
| `Rotation.RotationSafe` | cmd/luna/main.go:254-293 | no buffer is filled while a job on it is queued or running, a send never blocks, the wait group counts the missing jobs and is never negative, and releases exactly when nothing is pending |
| `Rotation.ReadsProcessedOnce` | cmd/luna/main.go:45-63 | every read is pending with its buffer unchanged or was processed once as it was read, and nothing else was processed |
| `Rotation.WaitIsReleased` | cmd/luna/main.go:285-290 | while the reader waits some worker can move, and each move lowers a measure that is zero exactly at the release |
| `Pipeline.ActKeeps` | cmd/luna/main.go:254-293 | logging, reading and worker moves, freely interleaved, keep log, pool and batches consistent |
| `Pipeline.FramesArrive` | cmd/luna/main.go:78-178 | in every run each accepted frame is purged, queued or in one batch, in order, and processed buffers parse to exactly their batch |
| `Emission.HistoryKeeps` | MoonMon/MoonMon.c:249-273 | in every run of callbacks, reads and workers each accepted frame belongs to one callback, and each callback's accepted frames are its own in program order |
| `Emission.OwnFrames` | MoonMon/Utils.c:21-28 | before ids come round the accepted frames with an event's id are exactly those its callback logged |
| `Emission.WholeIff` | cmd/luna/main.go:147-151 | a worker finds exactly the event's frames under its id, in order, if and only if they all lie in the batch it processed |
| `Emission.WholeIsSafe` | MoonMon/Logging.c:140-152 | an event whole in one batch lost no frame to a purge and has none in another batch |
| `Emission.EventLogged` | cmd/luna/main.go:137-169 | an event whole in a processed batch is reported as one full record for each of its ends, and in no other buffer |
| `Emission.EventArrives` | MoonMon/MoonMon.c:249-273 | in every run of at most 2^64 - 16 events, from any start of the counter, a finished event with one end is reported as one record with all its fields, however rendered, if and only if the frames found under its id in a processed batch are the end behind fields with the same last occurrences as those logged; having all frames in one batch suffices, nothing less does for fields without repetitions, and then no frame was purged |
| `Emission.ModuleLoggedTwice` | MoonMon/MoonMon.c:604-619 | a logged module load whole in a batch is reported as two equal records |
| `Emission.ExcludedModuleLogged` | MoonMon/MoonMon.c:604-619 | an excluded module load is reported as one record without fields by the worker that processes its end, and by no other |
| `Overwriting.SameRecordIff` | cmd/luna/main.go:142-159 | two series of fields make the same record under every rendering if and only if they have the same last occurrences in the same order |
| `Overwriting.RepeatedFieldIdle` | MoonMon/Process.c:430-440 | losing a field that is logged again under the same id changes no record |
| `EventIds.Globals.NextId` | MoonMon/Utils.c:21-28 | from any seed, the increment and reset of the signed counter hand out the names of a closed form, one after the other |
| `EventIds.NamesRepeatIff` | MoonMon/Utils.c:21-28 | two events share an id if and only if a multiple of 2^64 - 16 ids lies between them |
| `EventIds.NamesDistinct` | MoonMon/MoonMon.c:2885 | from any seed, of 2^64 - 16 events in a row no two share an id |
| `ProcessCache.ContentsAre` | MoonMon/Process.c:202-231 | a handle is in the map exactly when a slot holds it, with that slot's entry |
| `ProcessCache.Rewritten` | MoonMon/Process.c:112-115 | rewriting a slot drops the handle it held, enters the new one and touches no other |
| `ProcessCache.Cache.AddNewProcess` | MoonMon/Process.c:52-123 | a miss enters the process and nothing else changes, or leads past the array, which happens exactly on a miss with the cursor on the last slot |
| `ProcessCache.Replay` | MoonMon/DataTypes.h:579 | over every run from load all writes stay within the array if and only if at most 31999 insertions missed, and then the array is the map of the calls |
| `ProcessCache.ChurnMisses` | MoonMon/Process.c:74-81 | a process that comes and goes n times misses n times and leaves the cache empty, so the 32000th creation since load overruns whatever the cache holds |
| `ProcessCache.Cache.PurgeCachedProcess` | MoonMon/Process.c:129-163 | removes the handle if it is not in use, and changes nothing else |
| `ProcessCache.EntryStays` | MoonMon/Process.c:136-150 | over any calls that remove it only while it is marked in use, an entry stays with the information it was entered with, in use if the last marking said so and new until cleared; a removal while it is not in use takes it out |
| `ProcessCache.ReleasedGoes` | MoonMon/MoonMon.c:350-353 | after a release, with no insertion or marking since, a removal takes the entry out |
| `ProcessCache.OthersStay` | MoonMon/Process.c:136-150 | no call changes the entry of another process |
| `ProcessCache.OnlyAddEnters` | MoonMon/Process.c:100-118 | a process appears in the cache only by its insertion |
| `ProcessCache.Cache.RemoveNewProcessStatus` | MoonMon/Process.c:171-196 | clears the mark of this handle only |
| `ProcessCache.Cache.GetCachedProcess` | MoonMon/Process.c:202-231 | returns exactly the mapped entry |
| `ProcessCache.Cache.IsNewProcess` | MoonMon/Process.c:237-249 | tells whether the handle is mapped and still marked |
| `ProcessCache.Cache.SuppressesThread` | MoonMon/MoonMon.c:367-371 | run without interference, a thread creation is suppressed exactly while the process is marked, and uses the mark up |
| `ProcessCache.ThreadsPerInsertion` | MoonMon/MoonMon.c:367-371 | over every interleaving of the callback's two calls, with at most w callbacks at a time between them each insertion suppresses at most w thread creations; sequentially, one |
| `ProcessCache.BoundIsReached` | MoonMon/Process.c:237-249 | w callbacks that all test the mark before one clears it are all suppressed after one insertion |
| `Bits.AndLowMask` | MoonMon/Utils.c:467 | masking with the k low bits is the remainder by 2 to the k |
| `Bits.BitOfAnd` | MoonMon/Utils.c:467 | the AND of two numbers has exactly the bits both have |
| `Bits.AndIsMask` | MoonMon/Utils.c:196-200 | a number is its own AND with another exactly when the other has all its bits |
| `Addresses.WholeOctetsAgree` | MoonMon/Utils.c:488-513 | for a whole number of octets agreement as computed is agreement of the first p bits |
| `Addresses.FlippedSplits` | MoonMon/Utils.c:503-505 | for any other p there are addresses accepted wrongly and addresses rejected wrongly |
| `Addresses.LowAgreeIsRemainder` | MoonMon/Utils.c:467 | octet-wise agreement equals equality of the little-endian numbers modulo 2 to the p |
| `Addresses.HtonlOfAddress` | MoonMon/Utils.h:41-45 | swapping the host-order address gives the number the agent compiles addresses to |
| `Addresses.Ipv4Survives` | pkg/luna/parse.go:43-76 | subnet and mask come out of the eight stored bytes as compiled |
| `Addresses.CompiledHoldsIff` | MoonMon/Utils.c:463-467 | on a compiled rule and an address that came by any route the mask test is agreement of the octets compared on whole octets and the low bits of the next, and never holds for 0.0.0.0 |
| `Addresses.CheckIpv4` | MoonMon/Utils.c:459-471 | adds 0 or 1, and 1 exactly when the address reported is not 0.0.0.0 and the octets compared agree with those the rule was compiled from, for every rule, address and route behind the numbers |
| `Addresses.Ipv4EndToEnd` | MoonMon/MoonMon.c:2095-2106 | compiled, stored and checked on any route, a rule accepts exactly the non-zero addresses that agree on whole octets and the low bits of the next: as they are from the connection layers, in reverse from the resource-assignment layer |
| `Addresses.Ipv4IsSubnetMatchIff` | MoonMon/MoonMon.c:2205-2207 | for a given rule and route the check on its compiled form is the subnet match on all non-zero addresses if and only if the suffix is a multiple of 8, or, from the resource-assignment layer, the rule names one address that reads the same backwards |
| `Addresses.ShiftKeepsLowBits` | MoonMon/Utils.c:503-504 | comparing octets shifted left compares their low bits |
| `Addresses.CheckIpv6` | MoonMon/Utils.c:480-522 | the octet loop adds one exactly when the addresses agree on whole octets and the low bits of the next, for every prefix byte |
| `Addresses.Ipv6IsPrefixMatchIff` | MoonMon/Utils.c:480-522 | for a given rule the check is the prefix match on all addresses if and only if the prefix is a multiple of 8 |
| `Text.Contains` | MoonMon/Utils.c:641-682 | true exactly when the needle's bytes occur at some byte offset, the empty needle included; every comparison stays in bounds |
| `Text.Equals` | MoonMon/Utils.c:687-699 | length test plus search is equality |
| `Text.StartsWith` | MoonMon/Utils.c:613-635 | true exactly when the value is a prefix of the string |
| `Text.EndsWith` | MoonMon/Utils.c:582-607 | true exactly when the value is a suffix of the string |
| `Text.ByteSearchAlignedIff` | MoonMon/Utils.c:666-678 | on lower-cased texts byte search agrees with the search for whole UTF-16 units if and only if no two bytes around the needle make lower-cased text in which it is read shifted |
| `Text.LettersAreMisread` | MoonMon/Utils.c:666-678 | every needle of lower-case ASCII letters is read shifted in a text of ideographs |
| `Text.AgreeOnNarrowText` | MoonMon/Utils.c:666-678 | on text whose units are below 256 the two searches agree |
| `Operators.CheckNumber` | MoonMon/Utils.c:182-450 | every numeric check adds 0 or 1, the fall-through of NOT_AND included, and 1 exactly when the operator decides true |
| `Operators.DocumentedIff` | docs/Configuration.md:100-117 | a numeric operator decides as described if and only if it is not one of three operators on equal numbers |
| `Operators.OperatorsCompared` | MoonMon/Utils.c:182-250 | by code, which numeric operators hit a number above, below and equal to the value |
| `Operators.BitOperators` | MoonMon/Utils.c:196-210 | by code, the two bit operators: every bit of the value is set, or one is not or the numbers are equal |
| `Operators.StringOperators` | docs/Configuration.md:100-107 | by code, a string operator asks for the value in front of anything, behind it, anywhere or alone; its negation for the opposite; no other code ever hits |
| `Operators.CheckUnicode` | MoonMon/Utils.c:527-576 | a string check adds 1 exactly when the operator's relation, as in `Operators.StringOperators`, holds on whole byte strings |
| `Matching.Evaluate` | MoonMon/FS.c:156-317 | every item adds 0 or 1 to the hits according to its field's check, on the event's member that the lemmas below name; only the deletion item depends on the hits before it |
| `Matching.ProcessItemAsks` | MoonMon/Process.c:516-545 | process lists match six strings of the process, each with its own member of the event, and nothing else |
| `Matching.ActingProcessAsks` | MoonMon/FS.c:60-100 | the other lists match these too, and the target image against the image of the acting process |
| `Matching.FileCreateItemAsks` | MoonMon/FS.c:50-141 | file creation: which fields are matched, with which slot and member |
| `Matching.FileSetItemAsks` | MoonMon/FS.c:156-317 | file changes: the same, with the deletion item's dependence on its place |
| `Matching.RegistryItemAsks` | MoonMon/Registry.c:60-110 | registry operations: the same |
| `Matching.NetworkItemAsks` | MoonMon/WFP.c:643-771 | network events: the same for numbers |
| `Matching.Ipv4ItemAsks` | MoonMon/WFP.c:643-771 | network events: IPv4 addresses the event has, as the callback stored them |
| `Matching.Ipv6ItemAsks` | MoonMon/WFP.c:643-771 | network events: IPv6 addresses |
| `Matching.CountHits` | MoonMon/Process.c:503-577 | counting hits and comparing with the number of items decides that every item hits |
| `Matching.ListMatch` | MoonMon/WFP.c:643-771 | returns id and actions of the first matching group, zeros if there is none |
| `Verdict.HitIsFirst` | MoonMon/FS.c:120-141 | groups behind the first that matches do not count |
| `Verdict.Inspect` | MoonMon/FS.c:329-416 | agrees with the documented policy if and only if no nameless group interferes, and says when an event is dropped in every case |
| `Verdict.InspectProcess` | MoonMon/Process.c:589-635 | the same for processes, whose include list is recognised by its id |
| `Verdict.InspectNetwork` | MoonMon/WFP.c:783-804 | always agrees with the documented policy |
| `Verdict.InspectEvent` | MoonMon/MoonMon.c:242 | the inspector a callback calls agrees with the documented policy wherever no nameless group matches |
| `RuleCodec.HeaderSurvives` | MoonMon/Config.c:976-990 | the 17 header bytes decode to the encoded fields, and payload and spare byte follow |
| `RuleCodec.HeaderLayout` | pkg/luna/config.go:192-199 | where size, list, field, operator, id, actions and payload lie in a value |
| `RuleCodec.AgentWrites` | pkg/luna/parse.go:261-527 | field by field, which rules with strings, flags and IPv6 subnets the agent accepts and what it writes, and which fields it never accepts |
| `RuleCodec.AgentWritesShort` | pkg/luna/parse.go:374-396 | two-byte numbers: from 0 for decimal fields, from 1 for enumerations |
| `RuleCodec.AgentWritesLong` | pkg/luna/parse.go:425-433 | four-byte numbers: hexadecimal fields and enumerations from 1 |
| `RuleCodec.AgentWritesIpv4` | pkg/luna/parse.go:434-442 | IPv4 subnets: suffixes 1 to 32, as mask and masked address |
| `RuleCodec.SlotTable` | MoonMon/Config.c:646-726 | the driver's slots by field number |
| `RuleCodec.WriteBlob` | pkg/luna/config.go:192-199 | the writes at fixed offsets fill the slice with header, payload and one zero byte |
| `RuleCodec.NarrowNumber` | pkg/luna/parse.go:467-478 | a number written in fewer bytes than the driver reads comes back unchanged thanks to the zeros behind it |
| `HexFields.HexSurvives` | pkg/luna/parse.go:425-433 | a 32-bit number comes back from its hexadecimal spelling if and only if it is not zero |
| `HexFields.ParsedIsPositive` | pkg/luna/utils.go:212 | no text at all is read as zero |
| `RuleCodec.CrashesIff` | MoonMon/Config.c:948-1003 | a value is read past the buffer allocated for it if and only if it has fewer than 3 bytes, or is shorter than a header and claims at least its own length for a string field or, with at most 10 bytes, an IPv6 field |
| `RuleCodec.ShortIpv6Crashes` | MoonMon/Config.c:769-780 | the value of 7 bytes that names an IPv6 field, and the empty one, are such |
| `RuleCodec.HaltsIff` | MoonMon/Config.c:996-1002 | a value ends the loading if and only if it has 3 bytes and claims size 0, or is a bare header claiming at least its size |
| `RuleCodec.DropsIff` | MoonMon/Config.c:755-790 | a value is dropped if and only if its field has no slot or it brings too few bytes for an address |
| `RuleCodec.SlotAgreement` | MoonMon/Config.c:646-726 | every matcher reads the slot the driver decodes the field into, except for NET_DIRECTION and NET_INTERFACE |
| `RuleCodec.UnknownFields` | pkg/luna/parse.go:261-527 | of the fields the agent compiles exactly five have no slot in the driver, and no matcher reads them |
| `RuleCodec.RuleSurvives` | MoonMon/Config.c:976-1026 | a compiled rule decodes if and only if its field has a slot, with its id and actions, into an item that hits exactly when the rule holds; otherwise it is dropped, and never stops the driver |
| `RuleCodec.RuleAsks` | MoonMon/Process.c:516-545 | in which lists a rule on a process or registry field can hold, and of which member of the event |
| `RuleCodec.FileRuleAsks` | MoonMon/FS.c:156-317 | the same for file fields |
| `RuleCodec.NetworkRuleAsks` | MoonMon/WFP.c:643-771 | the same for the numbers of network events |
| `RuleCodec.AddressRuleAsks` | MoonMon/WFP.c:643-771 | the same for addresses: present and not zero, as they are or in reverse |
| `RuleCodec.DirectionRuleIff` | MoonMon/WFP.c:663-664 | a direction rule means its value on every event if and only if the value is 0 |
| `RuleCodec.SubnetRuleIff` | docs/Configuration.md:108-109 | a subnet rule is decided as documented on every address that comes by a route if and only if its operator is equals and the route gives the subnet match: suffix a multiple of 8, or, for IPv4 from the resource-assignment layer, one address that reads the same backwards |
| `RuleCodec.SubnetDeviates` | docs/Configuration.md:108-109 | for every other subnet rule and route there is an address on which it is decided wrongly |
| `Loader.ResolveValueName` | MoonMon/Config.c:410-459 | returns the list of the first prefix in the table that the name carries, case aside |
| `Loader.NameResolves` | pkg/luna/constant.go:161-188 | the prefixes are prefix-free: a name built for a list resolves to that list, whatever follows |
| `Loader.ResolvesIff` | MoonMon/Config.c:410-459 | a name belongs to a list if and only if it carries the list's prefix |
| `Compiler.ValuePrefix` | pkg/luna/constant.go:161-188 | the agent's table of prefixes agrees with the driver's |
| `Loader.ResolveIgnoresCase` | MoonMon/Config.c:410-459 | names that differ only in case belong to the same list |
| `Loader.GroupedById` | MoonMon/Config.c:339-402 | loading gives one group per id in order of first appearance, with exactly that id's items in order, the AND of their actions, and sizes that sum to the number of items |
| `Loader.RoomInLists` | MoonMon/Config.c:1053 | under the cap of 32000 values the next item always finds a free list index |
| `Loader.FullIff` | MoonMon/Config.c:363-369 | a group has no place left exactly when 256 items were loaded under its id |
| `Loader.Driver.LoadConfigItem` | MoonMon/Config.c:339-402 | search and update in place add the item to its group or start one, in this list only, unless the group is full |
| `Loader.Driver.LoadValue` | MoonMon/Config.c:913-1046 | one enumerated value of any name, type and length is ignored, loaded, ends the loop or leads outside the buffers, exactly as its name and bytes say |
| `Loader.FateIs` | MoonMon/Config.c:913-1046 | a value's fate by the length of its name, its prefix and its decoding |
| `Loader.SeenIs` | MoonMon/Config.c:1053 | the values processed are all, or those before the first that ends the loop, or 32000 |
| `Loader.Driver.LoadConfig` | MoonMon/Config.c:823-1059 | for every key and order, each list ends up as the grouping of its own decoded values up to the cap or a value that ends the loop, and the driver stays in bounds if and only if no value reached has a name above 1020 characters or bytes read past its buffer, and no group gets more than 256 items |
| `Loader.LongNameNotLoadable` | MoonMon/Config.c:913 | a key is not loadable once a name of more than 1020 characters is reached, whatever its type and list |
| `Compiler.NameDetermines` | pkg/luna/config.go:187 | a value's name determines list, id and running number, so no two values collide |
| `Compiler.RuleWriter.WriteRule` | pkg/luna/config.go:161-204 | writes one value, or writes nothing and stops exactly when the rule does not compile |
| `Compiler.RuleWriter.ProcessList` | pkg/luna/config.go:120-210 | writes exactly the values of the compiled list and takes its ids, or stops exactly when the list does not compile, having written exactly the values before that point |
| `Configuration.StoredAreKept` | pkg/luna/config.go:140-154 | stored are exactly the rules of entries whose id was not seen before, each under its entry's id |
| `Configuration.KeptOnce` | pkg/luna/config.go:142-150 | over all lists and files an id is kept at most once |
| `Configuration.ListCompilesIff` | pkg/luna/config.go:120-186 | a list compiles if and only if it is one of the 26, all ids are from 1 to 0xFFFFFFFE, and the entries kept have a supported action, if any, and valid rules |
| `Configuration.StoppedWrites` | pkg/luna/config.go:138-186 | where the agent stops it has written the rules of the entries kept before and the valid ones in front of the rule it stopped at |
| `Configuration.CompiledSeparate` | pkg/luna/config.go:140-207 | no two values of a configuration share list, id and number, although numbering restarts with every list and lists may repeat |
| `Configuration.WrittenLookup` | pkg/luna/config.go:187-204 | no value is overwritten: each is found under its name |
| `Configuration.WrittenElse` | pkg/luna/config.go:201-204 | whatever the key held under names that differ by more than case stays as it was |
| `Configuration.Configure` | pkg/luna/config.go:362-364 | over any registry key, compiling all lists writes exactly the configuration's values, or stops exactly when one does not compile, having written exactly those before |
| `RuleMeaning.GroupVerdict` | MoonMon/Config.c:363-373 | a group's verdict depends on which items share its id, not on their order |
| `RuleMeaning.MeaningPreserved` | pkg/luna/config.go:140-207 | wherever the values processed carry the list, in whatever order, an id matches an event in the loaded list if and only if it belongs to a kept entry whose rules on known fields exist and all hold |
| `RuleMeaning.ListVerdict` | MoonMon/Process.c:454-578 | on such a list a matcher answers whether some kept entry of it matches |
| `RuleMeaning.LoadedGroupsNamed` | pkg/luna/config.go:142-154 | on such a list no group is empty or has id 0, so the inspectors' exceptions never arise |
| `RuleMeaning.DroppedRuleMissed` | pkg/luna/parse.go:313-316 | for an entry with a dropped rule that is not vacuous, from any event the driver matches there is one it still matches although that rule is false of it |
| `RuleMeaning.DocumentedEntryIff` | docs/Configuration.md:87 | an entry is decided on every event as if no field were dropped if and only if, with rules on known fields, these hold of no event or the dropped ones are vacuous, and, without any, its rules hold of no event |
| `RuleMeaning.PlainEntryIff` | docs/Configuration.md:87 | for an entry that asks for each field once, and for text where the driver knows the field, that condition is read off its operators and values |
| `RuleActions.StoredActions` | pkg/luna/config.go:161-167 | every value of a kept entry carries the action named last by the kept entries up to it |
| `RuleActions.ActionArrives` | MoonMon/Config.c:366 | that action is the action of the loaded group, although the driver combines one copy per rule with AND |
| `RuleActions.DefaultActionIff` | pkg/luna/config.go:161-167 | an entry without action gets the default if and only if no earlier kept entry of its list names one |
| `Deployment.CarriesIff` | MoonMon/Config.c:854-1055 | the values behind a loaded list are exactly those the configuration stored for it if and only if, of the values processed, no other adds to the list and none of its own is missing |
| `Deployment.StaleRuleDecides` | pkg/luna/config.go:201-204 | a value left over alone under its id decides by itself, although no entry has the id |
| `Deployment.UnseenNeverMatches` | MoonMon/Config.c:1053 | an id of which no value is processed matches nothing |
| `Deployment.GroupSize` | MoonMon/Config.c:363-369 | exactly the rules on known fields of a kept entry reach its group |
| `Deployment.GroupsFitIff` | MoonMon/DataTypes.h:347-353 | no group of a configuration overflows, in any order, if and only if every kept entry has at most 256 rules on known fields |
| `Deployment.HitIsEntry` | MoonMon/FS.c:50-141 | the group a matcher stops at stands for a kept matching entry, with its id and action |
| `Deployment.PolicyDecides` | docs/Configuration.md:48-72 | for each of the five kinds of event and its own lists by number, the policy on the loaded lists blocks, logs, drops and names exactly what the configuration's kept entries say |
| `Deployment.ConsultedByPrefix` | MoonMon/FS.c:329-416 | the lists consulted for each kind of event are the groupings of the values under the three prefixes of that kind |
| `Deployment.AgentNames` | pkg/luna/constant.go:161-188 | the names under which the agent writes the rules of these lists |
| `Deployment.Consult` | MoonMon/FS.c:329-416 | on whatever was loaded, the outcome of the inspectors is what the configuration's lists for that kind of event, by number, say wherever the lists consulted hold it |
| `Deployment.Deploy` | MoonMon/Config.c:854-1055 | over any key: what is loaded is the grouping of what was processed, and on a clean key without names or values that lead outside the buffers loading stays in bounds if and only if no kept entry has more than 256 rules on known fields |
| `Deployment.Judge` | MoonMon/Process.c:589-635 | from configuration to inspection over any key and order: there is an outcome if and only if the key is loaded in bounds, and it is what the configuration's lists for that kind of event, by number, say, provided no value left over adds to the lists consulted and none of theirs is missing among the values processed |

## Left out

- Rotation.Next: the rotation is a state machine on values; the polling `select`, the sleep between reads and the cap of five workers are not modelled, and a worker's panic does not end the process here.
- Pipeline.Act: reads always use the agent's buffer size of 100000000 bytes; other clients of the device are not modelled.
- EventLog.Log.AddLogEntry: the random number behind the jitter is a parameter, every value allowed; the event fields are modelled unsigned.
- EventLog.Log.ReadLogEntry: requires an exact counter, which holds in every run of frames up to 1,947,483,648 bytes (`EventLog.AddBounded`).
- LogRuns.Execute: runs are of frames up to that size; beyond it `EventLog.CounterOverflows` shows the accounting fail.
- Emission.EventArrives: what a callback puts into its fields, and whether it logs at all, is a parameter.
- Agent.ProcessData: `MessageToString`, SID lookup, hashing, PE enrichment, timestamps and JSON are one unknown function of a frame; the channel to the log writer is a sequence.
- EventIds.Globals.NextId: increment and reset are two interlocked operations in the driver and one step here; the seed is a parameter; the counter's closed form holds as long as the process cache has not written over it.
- ProcessCache.Cache.AddNewProcess: the slot is filled after the lock is released in the driver and within the same step here; what the write past the array does to the members behind it is not modelled.
- Text.Contains: lower-casing by kernel and agent, and the conversion to UTF-16, are inputs; the case-sensitive fallbacks after a failed conversion are not modelled.
- Operators.CheckNumber: the checks for the five integer widths are one method with the width as a parameter.
- Matching.Evaluate: the type-tag checks on entries and process information always succeed; a missing string or address is modelled as absent.
- Verdict.InspectEvent: thread, image and object events, and process termination, are not modelled; their matchers repeat the same loops with other counts and masks.
- RuleCodec.RuleSurvives: the range tables of `ValidateFieldValue` are one flag of a rule, except that an IPv4 value must parse; path translation happens before a text value reaches the model; strings of 65536 bytes and more are excluded.
- RuleMeaning.DocumentedEntryIff: rules on known fields count as the driver decides them, whose own differences are `Operators.DocumentedIff`, `RuleCodec.SubnetRuleIff` and `RuleCodec.DirectionRuleIff`.
- RuleMeaning.PlainEntryIff: for entries with several rules on one field, or with rules on known numbers or addresses, whether their rules can hold together is left as `RuleMeaning.CanHold`.
- Loader.Driver.LoadValue: bytes the driver reads behind a value, within the buffer it zeroed, are zeros; a value's name is a string without embedded NULs, upper-cased because the registry ignores case; failed registry queries, what the debug output reads, and the loading of global settings are not modelled.
- Deployment.CarriesIff: the condition is exact for which values make up a list; a value left over or cut off may still leave every decision as it was, for example a repeated rule.
- Configuration.Configure: entry names and YAML parsing are not modelled.
- Kernel plumbing: callback registration, IRP completion, allocation failure, exception handling, minifilter and WFP setup.
- Log rotation, installation, services, field documentation and the memo caches of hashes and PE data.
