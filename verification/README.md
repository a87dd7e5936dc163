# auto_sync verification

A Dafny model of the parts of auto_sync whose correctness spans many steps, and proofs about it.
`dafny verify dfyconfig.toml` checks all of it. Nothing here runs the program.

- **Block delta** (`Bytes`, `RollingSum`, `Delta`, `DeltaProofs`): block sums, the rolling checksum,
  the matching scan, the op stream and its decoder, from buffers and readers to the whole exchange.
- **Cycles, targets and the event log** (`StateDb`, `StateInvariant`, `StateRuns`, `StateTargets`,
  `TargetRuns`, `HistoryRuns`, `DueRuns`, `StateOffsets`, `State`, `EventBatch`, `PassPlan`,
  `OpenCycleRace`): the tables as values with one function per `State` method, a class whose methods
  are proved against those functions, the invariants of every run, what ticks, requests and passes do
  in any run, said in terms of its steps, and the single SQL statements of the open-cycle protocol
  interleaved in every order.
- **HTTP bodies** (`Ndjson`, `ChunkedFormat`, `HttpBody`): chunked transfer coding (section 7.1 of
  RFC 9112), Content-Length and unframed bodies, and the line splitter behind them, under any cut
  into reads, with a failure possible at every read.
- **Calendar and standby** (`Calendar`, `Standby`, `StandbyRuns`): the bounded day scans against an
  unbounded question, and the standby manager over every run of ticks.
- **Command lines and names** (`Quoting`, `Names`, `NameManifest`, `Rehydrate`): two printers and
  what undoes them. `Rehydrate` is the deploy script that renames collected files back.
- **Watchers and cancellation** (`Usn`, `Fanotify`, `Cancel`): small protocols, safe over every run
  with a failure possible at each statement.

## Where the code and its promises differ

- *A disabled destination can lose events.* `src/core/state.rs:1160-1161` says that a disabled pair
  resumes where it left off, and the comment above `prune_event_log` speaks of all destinations of
  the source; the caller (`src/core/sync/mod.rs:494-515`) asks only the enabled ones.
  `StateRuns.NoNeededEventIsPruned` holds for a destination that is enabled at each prune,
  `StateRuns.PruneLosesExactly` says when a prune costs any destination events,
  `TargetRuns.BacklogIsCompleteIff` says the same of whole runs, and
  `StateTargets.DisabledDestinationLosesEvents` is a run that does.
- *A parked pool is not parked again without work.* `README.md:249` says that a pool woken by another
  process is stopped again at the next tick; the code stops it again only after a busy tick
  (`StandbyRuns.BusyTickBetweenStops`).
- *Deploying loses nested encoded names.* The script renames the deepest entries first and deletes
  whatever is at an original's place. Where an encoded name lies below another, the outer directory
  wipes out what was brought back inside it. `Rehydrate.CollectThenDeploy` states exactly when every
  file comes back, and `Rehydrate.NestedNamesAreLost` is an instance in which one does not.
- *Pruning the name manifest misses entries*: those below an encoded root whose original is not valid
  UTF-8 stay (`NameManifest.PruneForgets`). They are harmless to lookups.
- *A journal gap met while reading* stores an event without the rescan flag and without a path, which
  `event_incremental_plan` does not act on. Such an event handles nothing, wherever it stands in time:
  every record up to the new end of the journal that had not been handled before is lost
  (`Usn.GapLosesExactly`, with `Usn.GapLosesRecord` as an instance in which nothing at all happens
  meanwhile). The cursor stored there can be trusted exactly when nothing was unhandled
  (`Usn.GapIsSafeIff`); every other path is safe.
- *`ensure_open_cycle` can fail, and an event can enter a closed cycle*, when another connection
  closes the cycle between two statements (`OpenCycleRace.RacesThatHappen`). It fails exactly when,
  since its INSERT, the source's last opening or closing was a closing
  (`OpenCycleRace.EnsureFailsIff`); a cycle that was read is still open exactly when no statement
  closed it (`OpenCycleRace.StaysOpenIff`).
- *One branch is dead*: an incremental plan is never unusable for want of a path
  (`PassPlan.PassPlanIsComplete`).

One limit is respected by the only caller and no difference: `build_delta` casts a literal's length to
32 bits, so by itself it does not round-trip a file of 4 GiB for which there is nothing to copy
(`DeltaProofs.EmptyBasisRoundTripIff`). Deltas are built only for files of 256 KiB to 512 MiB
(`src/core/sync/mod.rs:44-49`, `2132`, `8400-8402`), and not at all when the other side has no block
(`src/core/sync/mod.rs:2643-2653`).

## Model

| member | source | states |
|---|---|---|
| Bytes.LittleEndianRoundTrip | src/core/sync/delta.rs:286-304 | reading a little-endian field back gives the number, if it fits the field |
| Bytes.LaterBytesWeighMore | src/core/sync/delta.rs:286-304 | the byte at place k of a field weighs 256 to the k |
| Bytes.FieldIsEncoded | src/core/sync/delta.rs:286-304 | every field is the encoding of the number it is read as |
| RollingSum.OneByteCounts | src/core/sync/delta.rs:97-107 | a byte counts once in the plain sum, and in the weighted one as often as its distance from the end |
| RollingSum.DigestHalves | src/core/sync/delta.rs:109-111 | the digest is the low 16 bits of both sums |
| RollingSum.SumsOfSlide | src/core/sync/delta.rs:114-121 | over the integers, sliding a window changes both sums by the leaving and the entering byte, whatever the window's length |
| RollingSum.SlideStep | src/core/sync/delta.rs:114-121 | the same slide on 32-bit wrap-around registers stays congruent to the sums of the new window |
| RollingSum.Rolling.constructor | src/core/sync/delta.rs:97-107 | the registers represent the window, for every length and content |
| RollingSum.Rolling.Roll | src/core/sync/delta.rs:114-121 | after a roll the registers are those a fresh start on the next window would give |
| RollingSum.Rolling.DigestOf | src/core/sync/delta.rs:109-111 | the digest depends on the window alone, not on how it was reached |
| Delta.BlockLenFor | src/core/sync/delta.rs:75-83 | the block length lies between 700 and 131072 for every file length |
| Delta.BlockLenNearRoot | src/core/sync/delta.rs:75-83 | between the bounds the block length is the multiple of 8 next below the square root of the file length |
| Delta.SumsOfAt | src/core/sync/delta.rs:124-139 | the k-th sum is the sum of exactly the k-th block of the file |
| Delta.SumsOfCovers | src/core/sync/delta.rs:124-139 | every full block has a sum |
| Delta.ComputeBlockSums | src/core/sync/delta.rs:124-139 | one sum per full block, the short tail left out |
| Delta.Reader.Read | src/core/sync/delta.rs:155-161 | a read hands out some of what is left, in any fragmentation, or fails |
| Delta.FillBlock | src/core/sync/delta.rs:154-164 | the buffer is filled from as many reads as it takes, short only at the end of the data |
| Delta.ComputeBlockSumsFromReader | src/core/sync/delta.rs:144-171 | the sums through a reader equal those of the data in memory, under any fragmentation |
| Delta.FindBlock | src/core/sync/delta.rs:194-203 | the first block with both checksums, or proof that there is none |
| Delta.BuildWeakMap | src/core/sync/delta.rs:184-187 | the table lists, for every weak sum, exactly the blocks that have it, in order |
| Delta.Lookup | src/core/sync/delta.rs:194-203 | the table lookup finds the block a search through all blocks finds first |
| Delta.EncodeScan | src/core/sync/delta.rs:184-229 | the rolling, table-driven loop emits the encoding of the naive scan that recomputes every checksum and searches every block |
| Delta.BuildDelta | src/core/sync/delta.rs:175-230 | the delta is the encoding of the naive scan, in the cases without blocks and of a short file too |
| Delta.EmitLiteral | src/core/sync/delta.rs:232-239 | one literal op is appended, none for an empty run |
| Delta.EmitCopy | src/core/sync/delta.rs:241-245 | one copy op is appended |
| Delta.BasisFile.ReadExact | src/core/sync/delta.rs:267-277 | exactly the asked-for bytes at the position, or a failure when the file is too short or cannot be read |
| Delta.CopyRange | src/core/sync/delta.rs:267-277 | a copy writes exactly the range of the old file, or fails when it leaves it |
| Delta.ApplyDelta | src/core/sync/delta.rs:249-284 | the decoder's loop over the buffer computes the recursive meaning of the stream, with the same error for every malformed one, unless the old file cannot be read |
| DeltaProofs.ApplyEncoded | src/core/sync/delta.rs:232-284 | decoding an encoded list of ops carries out those ops, when their fields fit |
| DeltaProofs.ApplyExactly | src/core/sync/delta.rs:249-304 | decoding any bytes whatsoever: the ops in front are carried out, and it ends, well or with which error, exactly where an end tag, a cut-off or overrunning op, a copy beyond the old file or an unknown tag stands |
| DeltaProofs.MeaningOfCover | src/core/sync/delta.rs:173-284 | ops that cover the new file rebuild it exactly when every copy takes the bytes it stands for |
| DeltaProofs.ScanCovers | src/core/sync/delta.rs:189-227 | at every point of the scan the ops emitted cover the rest of the new file, and no copy is false when no window collides |
| DeltaProofs.HitExactly | src/core/sync/delta.rs:189-203 | a window is matched with the first block of the old file that has the same two sums modulo 65536 and the same strong hash, and with none if there is none |
| DeltaProofs.ScanIsGreedy | src/core/sync/delta.rs:189-227 | between the copies the scan passes over no window that a block agrees with |
| DeltaProofs.DeltaIsGreedy | src/core/sync/delta.rs:175-230 | the whole delta misses no match either |
| DeltaProofs.DeltaRoundTripExact | src/core/sync/delta.rs:173-284 | for every strong hash, collisions included, applying succeeds with the right length, and gives the new file if and only if no copy is a false match |
| DeltaProofs.DeltaRoundTrip | src/core/sync/delta.rs:173-284 | the result is the new file unless a block and a different window agree in both sums and in the strong hash |
| DeltaProofs.DeltaRoundTripByHash | src/core/sync/delta.rs:173-284 | if the strong hash tells the blocks from the windows the result is the new file, whatever the weak sums do |
| DeltaProofs.Transfer | src/core/sync/delta.rs:124-284 | the whole exchange, from a fragmented reader of the old file to the applied delta, yields the new file unless a read fails |
| DeltaProofs.ApplyOutputBound | src/core/sync/delta.rs:249-284 | without an old file a delta writes fewer bytes than it is long |
| DeltaProofs.EmptyBasisRoundTripIff | src/core/sync/delta.rs:232-239 | with nothing to copy from, decoding what the two functions encode gives the file back if and only if it is below 4 GiB |
| DeltaProofs.BytesConserved | src/core/sync/delta.rs:175-245 | literal and copied bytes add up to the new file |
| DeltaProofs.ScanAlternates | src/core/sync/delta.rs:189-227 | there is at most one literal run more than there are copies |
| DeltaProofs.DeltaSize | src/core/sync/delta.rs:175-245 | bytes are conserved, copies are whole blocks, and with blocks of 18 bytes or more the delta exceeds the file by at most 6 bytes |
| DeltaProofs.UnchangedFileLiterals | src/core/sync/delta.rs:175-230 | an unchanged file costs exactly the bytes of its short tail as literals, whatever the strong hash does |
| StateInvariant.OpenIsNewest | src/core/state.rs:495-529 | in a valid state a source has at most one open cycle, and it has the source's highest id |
| StateInvariant.DisplayIsGreatest | src/core/state.rs:928-961 | the displayed cycle is the greatest that is closed, or open with an actionable event |
| StateInvariant.DisplayNeverDrops | src/core/state.rs:950-961 | the displayed cycle cannot drop while everything showable stays showable |
| StateRuns.QuietEvolves | src/core/state.rs:378-730 | every step that neither records, verifies nor prunes leaves the tables valid, reopens no cycle, and moves targets only to cycles it closed |
| StateRuns.RunKeeps | src/core/state.rs:495-1824 | the invariant of tables, log and history holds after every run of every step, and pruning stays below what an always-enabled destination can still verify |
| StateRuns.NoNeededEventIsPruned | src/core/state.rs:799-831 | for a destination enabled at each prune, every event ever recorded after its verified cycle is still logged, and the backlog query returns exactly the recorded ones of its range, in order |
| StateRuns.PruneLosesExactly | src/core/sync/mod.rs:494-515 | a prune costs a destination part of its backlog if and only if an event lies between its verified cycle and the others' |
| StateRuns.PruneKeepIff | src/core/sync/mod.rs:494-515 | a source is pruned exactly to the least cycle its enabled destinations verified, when there are some and all have |
| StateRuns.IncrementalPlanIsComplete | src/core/sync/mod.rs:3640-3669 | for one destination, an incremental plan holds exactly the paths recorded since it verified, none of them asking for a rescan, and is never unusable |
| HistoryRuns.RecordedIsTheRun | src/core/state.rs:1046-1157 | what was recorded is what the recording steps said, in order |
| HistoryRuns.RecordAppends | src/core/state.rs:1046-1093 | each recorded event goes behind the others, with what it said, into the cycle that is open then, which is marked if a rescan is asked for |
| HistoryRuns.BacklogExactly | src/core/state.rs:799-831 | an event is in the backlog of a destination enabled at each prune if and only if it was recorded for the source after the verified cycle and not after the target, the target included; in the order recorded |
| HistoryRuns.PlanExactly | src/core/sync/mod.rs:3632-3669 | its pass is incremental if and only if it verified before and neither the cycle nor an event since asks for a rescan, and then takes exactly the paths of those events; else it compares everything |
| HistoryRuns.QuiescedIff | src/core/state.rs:857-894 | a source has quiesced if and only if nothing was recorded for it in the last ten seconds |
| HistoryRuns.DisplayedInRun | src/core/state.rs:928-961 | the displayed cycle is the greatest that is done or in which a path or a demand for a rescan was recorded |
| HistoryRuns.RescansAreRemembered | src/core/state.rs:1087-1153 | over every run a cycle in which a rescan was ever asked for stays marked |
| HistoryRuns.RescanForcesFullPass | src/core/sync/mod.rs:3632-3640 | and whoever syncs that cycle compares everything |
| HistoryRuns.ManualRequestsStay | src/core/state.rs:1000-1010 | a full pass asked for by hand is not forgotten, whatever happens afterwards |
| HistoryRuns.ClearingSparesManual | src/core/state.rs:1024-1039 | clearing a mark spares exactly the cycles for which a full pass was asked for by hand |
| StateRuns.DisplayedCycleNeverGoesBack | src/core/state.rs:928-961 | over every run and every continuation the displayed cycle never decreases or disappears |
| StateRuns.VerifiedNeverPassesTarget | src/core/state.rs:1204-1236 | no destination stands beyond its target |
| StateTargets.AdvanceSourceTargets | src/core/state.rs:566-632 | one source's share of a tick gives exactly its due destinations one same just-closed cycle, above the target and the verified cycle in their rows, with no logged event beyond it |
| TargetRuns.TickDiscipline | src/core/state.rs:560-635 | a tick in any run: a due destination, never one that is behind, gets the cycle just closed, above every target it was ever given and every cycle it ever verified, with no event ever recorded beyond it; every other keeps its offset |
| TargetRuns.TickSparesOthers | src/core/state.rs:560-635 | sources the config does not name keep their offsets |
| DueRuns.TickTargetsExactly | src/core/state.rs:566-632 | a tick in any run gives a destination another target if and only if its source is enabled, it is configured, enabled, not paused and not behind, and it was never synced, or something was recorded in the open cycle (realtime), a time of its daily or weekly schedule has passed since that began, or a day has (unparseable) |
| DueRuns.TickClosesExactly | src/core/state.rs:566-632 | it closes the cycle of a source if and only if a destination gets a target so, or something was recorded in the cycle and nothing for the source in the last ten seconds |
| DueRuns.EnsuredCycles | src/core/state.rs:488-518 | before, every enabled source has an open cycle, the one it had or a new one that begins now; the others have what they had |
| DueRuns.RequestsTargetExactly | src/core/state.rs:637-709 | a request gives another target if and only if the source is enabled and the destination enabled and, unless it is asked for by name, not paused |
| TargetRuns.EnsureConfigMakes | src/core/state.rs:410-444 | configuring leaves a row for each destination of the config, and makes no other |
| TargetRuns.BacklogIsCompleteIff | src/core/sync/mod.rs:494-515 | after any run, whoever was enabled, a backlog is complete if and only if none of it was recorded below the highest cycle its source was pruned to |
| StateTargets.AdvanceSourceLocal | src/core/state.rs:560-635 | advancing one source leaves the others' open cycles, offsets and events as they were |
| StateTargets.TickTargets | src/core/state.rs:566-632 | the loop over the sources decides each on the tables it began with |
| StateTargets.DisabledDestinationLosesEvents | src/core/sync/mod.rs:494-515 | a run in which a disabled destination's only pending event is pruned |
| State.State.EnsureOpenCycle | src/core/state.rs:495-518 | returns the open cycle, creating it if there is none |
| State.State.CloseCurrentCycleForSource | src/core/state.rs:711-730 | closes the open cycle and opens the next one |
| StateOffsets.ClosingExactly | src/core/state.rs:711-730 | in the table the one row of the open cycle becomes 'closed', and one new cycle begins behind the rest |
| StateOffsets.MarkingHidesNothing | src/core/state.rs:979-990 | marking gives the cycle its status, reopens and loses none, takes no displayed cycle back, and leaves a source without an open cycle exactly when that was the one marked |
| State.State.RecordEvent | src/core/state.rs:1046-1093 | appends one event to the open cycle, keeps the latest observation, and marks the cycle when a rescan is asked for |
| EventBatch.AppendKeeps | src/core/state.rs:1110-1139 | each event of a batch, put in its source's cached cycle, leaves the tables short of single records only by marks and observation times still owed |
| EventBatch.RecordOne | src/core/state.rs:1110-1139 | one event of a batch, in the cached open cycle or in one looked up now |
| EventBatch.Settle | src/core/state.rs:1140-1153 | noting the times and marking the cycles at the end settles what was owed |
| EventBatch.RecordEventsBatch | src/core/state.rs:1100-1157 | a batch ends exactly where recording its events one by one would |
| EventBatch.BatchIsRun | src/core/state.rs:1100-1157 | a batch is a run of single records, so every property of runs covers it |
| State.DeleteChunkKeepsSurvivors | src/core/state.rs:1806-1823 | a chunk of deletions touches no event that is to survive, and a short chunk means none is left |
| State.State.PruneEventLog | src/core/state.rs:1806-1823 | the chunked loop deletes exactly the source's events before the given cycle, and counts them |
| State.State.PruneVerifiedCycleEvents | src/core/sync/mod.rs:494-515 | prunes below the least verified cycle of the enabled destinations, and not at all if one has none |
| StateOffsets.TargetPends | src/core/state.rs:1609-1632 | a destination given a target is behind unless it has verified that cycle, and while it is behind no tick gives it another |
| StateOffsets.TargetsAreForTicks | src/core/state.rs:1609-1656 | changing a target changes no plan, no prune and no displayed cycle |
| StateOffsets.ClearReleases | src/core/state.rs:1637-1656 | a cleared destination is not behind and keeps what it verified; clearing undoes setting, and makes no row |
| StateOffsets.ResetStartsOver | src/core/state.rs:1658-1684 | a reset destination is due at the next look whatever its schedule, its first pass is a full one, and its source is not pruned before it has verified |
| State.State.UpsertDestinationStatus | src/core/state.rs:1204-1236 | records a verified cycle when there is one, otherwise keeps the old |
| StateOffsets.VerifyingSettles | src/core/state.rs:1204-1236 | verifying a cycle leaves a destination behind exactly when its target lies beyond; a report without a cycle changes no offset |
| State.State.AdvanceOneSource | src/core/state.rs:566-632 | one source's share of a tick: close when events or due destinations ask for it, then target those due; the cycle it hands back |
| State.State.AdvanceDueDestinationTargets | src/core/state.rs:560-635 | the tick over all enabled sources, and the list of cycles it hands back |
| StateOffsets.TickTellsAll | src/core/state.rs:560-635 | that list holds exactly the enabled sources' cycles that were open when the tick began and are no longer |
| State.State.ForceTargetAllDestinations | src/core/state.rs:637-657 | closes every enabled source's cycle and targets all its enabled destinations that are not paused; the list it hands back |
| StateOffsets.ForceTellsAll | src/core/state.rs:637-657 | that list holds exactly the enabled sources' cycles that were open and are no longer |
| State.State.ForceTargetSource | src/core/state.rs:659-680 | the same for one source, and the cycle it closed |
| State.State.ForceTargetDestination | src/core/state.rs:682-709 | the same for one enabled destination, paused or not, and the cycle it closed |
| State.State.LatestCycleIdForDisplay | src/core/state.rs:950-961 | the open cycle once it has actionable events, else the latest closed one |
| State.State.EventIncrementalPlan | src/core/sync/mod.rs:3645-3665 | for one destination: full pass, or the set of backlog paths |
| PassPlan.EventIncrementalPlan | src/core/sync/mod.rs:3623-3672 | over the ready destinations the first that stands in the way decides, a path without a normal form included |
| PassPlan.PassPlanIsComplete | src/core/sync/mod.rs:3623-3672 | in every run, a pass applies events if and only if no rescan is asked for, every destination verified before and every path since has a normal form, and then gives each exactly the normal forms of its paths; otherwise the first destination in the way decides between comparing everything and failing |
| OpenCycleRace.OneStatement | src/core/state.rs:495-529 | each single SQL statement of any connection keeps the table's invariant and what every other connection remembers |
| OpenCycleRace.EveryInterleaving | src/core/state.rs:495-529 | the invariant holds in every interleaving of any number of connections, stopped anywhere |
| OpenCycleRace.OpenCycleIsUnique | src/core/state.rs:495-529 | at most one open cycle per source, with the source's highest id, in every interleaving |
| OpenCycleRace.ClosedStaysClosed | src/core/state.rs:711-730 | a cycle that is no longer open never opens again |
| OpenCycleRace.StaysOpenIff | src/core/state.rs:1046-1093 | what a connection read as open is still open at its next statement if and only if no statement between closed it |
| OpenCycleRace.RereadFailsIff | src/core/state.rs:516-517 | the last SELECT comes back empty if and only if the source has no open cycle then |
| OpenCycleRace.HasOpenIff | src/core/state.rs:495-730 | from any moment on, a source has an open cycle if and only if its last opening or closing was an opening |
| OpenCycleRace.EnsureFailsIff | src/core/state.rs:495-518 | from its INSERT on, ensure_open_cycle fails if and only if the source's last opening or closing since was a closing; so not when none was closed |
| OpenCycleRace.RacesThatHappen | src/core/state.rs:495-518 | schedules in which ensure_open_cycle finds nothing and in which an event misses its cycle |
| OpenCycleRace.AloneIsAtomic | src/core/state.rs:495-518 | left alone, the statements of ensure_open_cycle and of recording do what the methods of State do in one step |
| OpenCycleRace.ClosingAloneIsAtomic | src/core/state.rs:711-730 | and so do those of closing a cycle |
| Ndjson.SplitConcat | src/core/machines.rs:917-934 | the lines of a text do not depend on where it was cut |
| Ndjson.LinesRoundTrip | src/core/machines.rs:911-944 | lines written with LF or CRLF are read back, with or without a last unended one |
| Ndjson.NdjsonLineSplitter.Feed | src/core/machines.rs:917-934 | after any feeds, the lines delivered and the carry are those of everything fed |
| Ndjson.NdjsonLineSplitter.Finish | src/core/machines.rs:936-943 | the unended last line is delivered unless it is empty |
| ChunkedFormat.FindCrlf | src/core/machines.rs:1043-1045 | the first CR LF, or proof that there is none |
| ChunkedFormat.SizeLineRoundTrip | src/core/machines.rs:1001-1005 | every size line the format allows, with white space, extension, leading zeros and letters of either case, is read as the size whose numeral it holds |
| ChunkedFormat.NumeralIff | src/core/machines.rs:1004-1005 | digits are read as n if and only if they are n as printed by division by 16, behind zeros and in either case |
| ChunkedFormat.SizeLinesExactly | src/core/machines.rs:1001-1005 | and no other line is read as a size |
| ChunkedFormat.TrailerRoundTrip | src/core/machines.rs:1007-1022 | any trailer section is skipped, and nothing behind it |
| ChunkedFormat.DecodeUndoesEncode | src/core/machines.rs:976-1041 | decoding an encoded body gives its payload and stops exactly at its end |
| ChunkedFormat.DecodeExactly | src/core/machines.rs:976-1041 | the bytes that decode to a payload and a rest are exactly the bodies with that payload, with that rest behind them |
| ChunkedFormat.EncodedLinesFit | src/core/machines.rs:992-1002 | bodies whose size lines are short and valid UTF-8 meet the streaming decoder's limits |
| HttpBody.Stream.Fill | src/core/machines.rs:982-989 | one read is appended, of whatever length; the end of the data is an error |
| HttpBody.ReadLine | src/core/machines.rs:992-1000 | the first line of the unread data, or a failure that the data explains |
| HttpBody.ReadSize | src/core/machines.rs:991-1006 | the size the format gives, however the line arrived |
| HttpBody.DeliverChunk | src/core/machines.rs:1023-1032 | exactly the chunk's bytes reach the sink, in order; on failure a prefix of them |
| HttpBody.ExpectCrlf | src/core/machines.rs:1033-1039 | success exactly when CR LF comes next |
| HttpBody.ReadTrailer | src/core/machines.rs:1007-1022 | success exactly when the trailer ends, leaving the connection behind it |
| HttpBody.StreamChunkedBody | src/core/machines.rs:976-1041 | success only on a whole body, the sink fed its payload and the connection left behind it; failure only by the connection, a malformed body or lines beyond the limits; never more than a prefix delivered |
| HttpBody.EnsurePending | src/core/machines.rs:1358-1363 | enough bytes are pending, or the data ended |
| HttpBody.BufferChunk | src/core/machines.rs:1338-1343 | a chunk and its terminator, taken as a whole |
| HttpBody.ReadChunkedBody | src/core/machines.rs:1323-1345 | without a connection failure, success exactly on well-formed bodies, with their payload |
| HttpBody.StreamSizedBody | src/core/machines.rs:948-971 | exactly the announced number of bytes reaches the sink, or the data ended before |
| HttpBody.StreamToEnd | src/core/machines.rs:895-904 | everything up to the end reaches the sink |
| HttpBody.NdjsonBody | src/core/machines.rs:880-908 | for every framing and fragmentation the lines delivered are those of the payload, and on failure the first of them; when the connection is reusable |
| HttpBody.ReceiveEncoded | src/core/machines.rs:976-1345 | an encoded body is read by both decoders as the same payload, however it arrives |
| Calendar.CadenceTestsAgree | src/core/standby.rs:216-222 | the week test with its shortcut equals the one without |
| Calendar.StartIff | src/core/scheduler.rs:37-57 | the scheduled instants in numbers: the time of day, the weekday, and weeks from the anchor by floor division, at least one a period |
| Calendar.OpenIff | src/core/standby.rs:188-214 | a window is open from each such instant on for its minutes, at least one |
| Calendar.DueIff | src/core/scheduler.rs:9-57 | when a cycle is due, in the same numbers |
| Calendar.ScheduledDaysApart | src/core/standby.rs:163-222 | two scheduled days are at least a period apart |
| Calendar.ScheduledDayIn | src/core/scheduler.rs:37-57 | every stretch of a period's length holds a scheduled day, before the anchor too |
| Calendar.NextStartAfter | src/core/scheduler.rs:37-57 | the forward scan returns the least scheduled instant after the given one, and always finds it |
| Calendar.NextWakeStartAfter | src/core/standby.rs:163-184 | the same for wake schedules; only an unparseable one fails |
| Calendar.IsWithinWakeWindow | src/core/standby.rs:188-214 | the bounded backward scan is true if and only if some start anywhere on the calendar opens a window that covers now |
| Calendar.StandbyUntilIsExact | src/core/standby.rs:104-111 | the window is closed at every instant up to the next start, and open at it |
| Calendar.NextBoundaryAfter | src/core/scheduler.rs:16-57 | the least boundary after the start, for every mode |
| Calendar.CycleIsDue | src/core/scheduler.rs:9-14 | due if and only if a boundary lies after the start and not after now, with the one-day fallback |
| Standby.GateForSync | src/core/standby.rs:86-126 | passes exactly when every gating pool is open and every touched pool mounted; otherwise names one that is not, with the exact end of its sleep |
| Standby.GatesIff | src/core/standby.rs:86-107 | the pools that gate are those the destination lies on, component by component, if it lies on an enabled one, else those of the source |
| Standby.PassesIff | src/core/standby.rs:86-126 | the gate passes if and only if each of them is in its window and each pool that holds the source or the destination is mounted |
| Standby.IsBusy | src/bin/auto_sync.rs:601-640 | busy exactly when a sync runs, or a pair that touches the pool, is enabled, not paused and may run is behind its target or unreadable |
| Standby.StandbyManager.Step | src/core/standby.rs:326-374 | one tick changes each pool's state by its visits and stops exactly the pools due |
| Standby.Drive | src/core/standby.rs:320-374 | over any run of ticks the manager's maps are the history of each pool's visits, and the log of stops is exact |
| Standby.SpinDownExactly | src/core/standby.rs:326-374 | a visit stops the disks if and only if it is the first of its idle stretch at which parking is due |
| StandbyRuns.StoppedInWindowAfterGrace | src/core/standby.rs:299-374 | a tick stops a pool inside its window only 90 seconds or more after the first idle tick since the last busy one, with no busy tick between |
| StandbyRuns.BusyTickBetweenStops | src/core/standby.rs:326-374 | between two ticks that stop a pool lies a tick that saw it busy |
| StandbyRuns.ParkedAfterIdleTick | src/core/standby.rs:326-374 | after an idle tick outside its window a pool is marked parked |
| StandbyRuns.VisitedIff | src/core/standby.rs:326-340 | a tick visits the pools that are enabled, and has them inside or outside their windows as their schedules say |
| StandbyRuns.DriveSafely | src/core/standby.rs:320-374 | the three rules hold of the log and the marks of every run of ticks |
| Standby.NeverParkedWithRunnableWork | src/bin/auto_sync.rs:597-642 | no tick stops a pool while a sync runs or a pair on it could run |
| Quoting.QuoteArg | src/bin/auto_sync.rs:432-456 | the loop with its backslash counter writes the quoted form |
| Quoting.JoinCommandLine | src/bin/auto_sync.rs:424-429 | the quoted arguments, one blank between them |
| Quoting.CommandLineOfBoth | src/bin/auto_sync.rs:424-429 | behind arguments come others with one blank between |
| Quoting.EscapeRules | src/bin/auto_sync.rs:432-456 | backslashes are doubled before a quote, which gets one more, and at the end; nowhere else |
| Quoting.ScanUndoesEscape | src/bin/auto_sync.rs:432-456 | behind an opening quote Windows reads the escaped argument back and stops at its closing quote |
| Quoting.ParsePrefix | src/bin/auto_sync.rs:424-456 | joined arguments are read back whatever follows them |
| Quoting.ParseUndoesJoin | src/bin/auto_sync.rs:378-429 | Windows takes every joined command line apart into exactly the arguments, under each reading of doubled quotes |
| Names.HexRoundTrip | src/core/collector.rs:874-896 | decoding hex undoes encoding it |
| Names.HexEncode | src/core/collector.rs:874-882 | two lower-case digits a byte |
| Names.HexDecode | src/core/collector.rs:884-905 | the bytes, or an error for odd length or a bad digit |
| Names.HexAt | src/core/collector.rs:874-882 | the digits of each byte, the greater half first |
| Names.UnhexIff | src/core/collector.rs:884-905 | text is decoded to some bytes if and only if it is their encoding but for the case of letters |
| Names.SplitUndoesJoin | src/core/collector.rs:826-835 | joining parts with slashes loses nothing |
| Names.JoinUndoesSplit | src/core/collector.rs:745-747 | and splitting loses nothing either |
| Names.SafeIff | src/core/collector.rs:781-824 | the names stored as they are, in letters: not empty, not one dot or two, no blank or dot at the end, no control character and none of eight others, and no device of Windows in either case, with or without an extension |
| Names.UnderIsPrefix | src/core/collector.rs:870-872 | the textual test is the prefix relation on paths |
| Names.StoredIsSafe | src/core/collector.rs:740-779 | every component of a stored path passes safe_windows_component |
| Names.StoredKeepsPrefixes | src/core/collector.rs:740-779 | among names the hash tells apart, one path lies below another if and only if it does as stored |
| Names.StoredIsInjective | src/core/collector.rs:740-779 | among such names, two paths share a stored text if and only if they are equal |
| Names.EncodedDirCollides | src/core/collector.rs:740-779 | for every encoded name, a path through a directory with the encoding's own name collides with it |
| Names.SomeCodec | src/core/collector.rs:759-761 | hashes and names as assumed exist, with one name that has to be encoded |
| NameManifest.Manifest.StoredRelForLinuxPath | src/core/collector.rs:740-779 | refuses exactly the paths with '..', skips empty ones, and leaves the manifest with an entry for each encoded part |
| NameManifest.NormalSkips | src/core/collector.rs:745-748 | empty parts and single dots may stand anywhere without effect |
| NameManifest.NormalKeeps | src/core/collector.rs:745-752 | all other parts stay |
| NameManifest.Manifest.PruneRoots | src/core/collector.rs:853-868 | keeps exactly the entries that match no root, in order |
| NameManifest.Extract | src/core/collector.rs:694-738 | prunes, then stores every path; a refused one leaves the manifest on disk as it was |
| NameManifest.OriginalIsFound | src/core/collector.rs:759-772 | an encoded prefix has an entry, and every entry for it decodes to its raw original |
| NameManifest.RecordingRemembers | src/core/collector.rs:740-779 | storing a path makes the manifest remember it and forget nothing |
| NameManifest.PruneExactly | src/core/collector.rs:853-872 | which entries a root takes away |
| NameManifest.PruneForgets | src/core/collector.rs:853-868 | an entry under a root survives pruning it if and only if the root needed encoding and the original is not UTF-8 |
| NameManifest.LivePathsAreRemembered | src/core/collector.rs:694-738 | after any history of collections, every path not collected over can be traced to its original |
| Rehydrate.Stage.Rehydrate | conf/collector_deploy_nas.ps1:280-298 | the loop carries out the renames of the manifest's entries, read back from their texts |
| Rehydrate.RehydrateRestores | conf/collector_deploy_nas.ps1:286-298 | where no path has two encoded parts, exactly the collected files are back |
| Rehydrate.WipedOut | conf/collector_deploy_nas.ps1:286-298 | a file with two encoded parts is gone |
| Rehydrate.RehydrateRestoresIff | conf/collector_deploy_nas.ps1:286-298 | the stage holds exactly the collected files if and only if no path has two encoded parts |
| Rehydrate.CollectThenDeploy | src/core/collector.rs:694-779 | collecting an archive and deploying it is the identity on files if and only if no path has two encoded parts; no file ends up without the directories above it |
| Rehydrate.RunKeepsParents | conf/collector_deploy_nas.ps1:286-298 | at no point of the renaming does a file lie outside its directories |
| Rehydrate.OneFile | src/core/collector.rs:694-779 | every single file meets what the round trip asks for, and comes back if and only if its path has at most one encoded part |
| Rehydrate.NestedNamesAreLost | conf/collector_deploy_nas.ps1:286-298 | an instance: a file below two encoded names is collected, deployed and gone |
| Usn.Watcher.RecordEvent | src/core/watcher/windows_usn.rs:200-211 | once a rescan event is stored, everything up to the last queried end of the journal is covered |
| Usn.Watcher.ReadBatch | src/core/watcher/windows_usn.rs:732-777 | all records of a stretch, a gap, or a failure |
| Usn.Watcher.InitialNextUsn | src/core/watcher/windows_usn.rs:263-299 | starts at the stored cursor, or jumps behind a stored rescan event |
| Usn.Watcher.JumpToEnd | src/core/watcher/windows_usn.rs:199-211 | a replaced or truncated journal is jumped over only behind a stored rescan event |
| Usn.Watcher.PersistBatch | src/core/watcher/windows_usn.rs:216-226 | the position moves past a batch only once each of its records was offered |
| Usn.Watcher.CatchUp | src/core/watcher/windows_usn.rs:213-255 | reading keeps the cursor safe after every statement, ends only at the end of the journal as queried, at an empty read, at a gap or on shutdown, and without a gap has offered every record it moved past |
| Usn.Watcher.RunSourceWatcherSession | src/core/watcher/windows_usn.rs:178-261 | a session that fails or crashes anywhere leaves the stored cursor behind what was handled; one that does not has read at every poll and stored how far it came |
| Usn.Watcher.RunResilientSourceWatcher | src/core/watcher/windows_usn.rs:132-176 | over any sequence of sessions without a gap, every record below the stored cursor was offered, or a rescan was asked for after it was written; with gaps, if and only if that holds of what they passed over |
| Usn.RescanClears | src/core/watcher/windows_usn.rs:199-211 | a rescan asked for now covers every record written so far |
| Usn.Watcher.PassGap | src/core/watcher/windows_usn.rs:227-246 | a gap passes over exactly the records unhandled when its event was stored, or written from then to the query |
| Usn.GapLosesExactly | src/core/watcher/windows_usn.rs:227-246 | after a gap a record is handled if and only if it was before, whenever it was written |
| Usn.GapIsSafeIff | src/core/watcher/windows_usn.rs:227-246 | the cursor stored at a gap can be trusted if and only if everything written by then had been handled |
| Usn.GapLosesRecord | src/core/watcher/windows_usn.rs:227-246 | an instance without any change meanwhile |
| Fanotify.EventsArePathless | src/core/watcher/fanotify.rs:545-725 | every event made without a path is a rescan marker, and no other is |
| Fanotify.Retain | src/core/watcher/fanotify.rs:594-602 | the first event of each key stays |
| Fanotify.DedupExactly | src/core/watcher/fanotify.rs:594-602 | of every source, kind and path exactly the first event stays |
| Fanotify.DedupLosesNothing | src/core/watcher/fanotify.rs:594-602 | every event has a surviving one of the same key and the same demand for a rescan |
| Fanotify.DedupNeedsTheRule | src/core/watcher/fanotify.rs:594-602 | without that rule at the call sites a marker could be dropped |
| Fanotify.Watcher.InsertMarkers | src/core/watcher/fanotify.rs:603-612 | a marker for every source in front of the batch |
| Fanotify.Watcher.ParseEvents | src/core/watcher/fanotify.rs:513-627 | a failed write raises the flag, and only a stored batch with a marker for every source lowers it |
| Fanotify.Watcher.Run | src/core/watcher/fanotify.rs:291-320 | over any run of reads and failed writes each read is kept with all it observed, and while the flag is down nothing the kernel said is silent: a queue overflow or an unresolved descriptor has left a rescan for every source, a change its path, an unmarked directory a rescan, or a rescan of the source came later; and nothing but that and the markers is logged |
| Fanotify.Watcher.EverythingIsAccountedFor | src/core/watcher/fanotify.rs:513-627 | while the flag is down, each observed event is in the log, or a rescan of its source was logged after it |
| Fanotify.Watcher.EverythingIsReported | src/core/watcher/fanotify.rs:541-725 | the same for one thing the kernel said in one read |
| Fanotify.Watcher.NothingIsInvented | src/core/watcher/fanotify.rs:603-612 | every logged row was observed, or is a marker for a configured source |
| Cancel.Canceller.BeginTargets | src/core/cancel.rs:83-110 | registers a new operation and puts its guard on the thread |
| Cancel.Canceller.EnterToken | src/core/cancel.rs:200-203 | a captured token is installed until its guard drops |
| Cancel.Canceller.DropGuard | src/core/cancel.rs:171-213 | the operation stops running and the token of the guard below is back |
| Cancel.Canceller.Check | src/core/cancel.rs:218-229 | fails if and only if the operation whose token is installed was hit, while running, by a matching request |
| Cancel.HitIff | src/core/cancel.rs:231-251 | an operation is hit if and only if a request came while it was running that was aimed at it |
| Cancel.AimedIff | src/core/cancel.rs:238-247 | a request is aimed at an operation if and only if it names its kind, or none, and one of its destinations, or none |
| Cancel.Canceller.RequestCancel | src/core/cancel.rs:238-251 | signals exactly the running operations of the kind with that target, and counts them |
| Cancel.Canceller.KindTargetActive | src/core/cancel.rs:158-164 | true exactly when such an operation is running |
| Cancel.DropRuns | src/core/cancel.rs:171-179 | dropping a guard ends its own operation and no other |

## Left out

- The strong hash and blake3 are parameters. That no window collides with a block, and that the
  truncated hash tells the names at hand apart, are stated assumptions.
- The whole-file hash that backs the delta up, and the job of retrying a file: not part of this model.
- Delta.BlockLenFor: the floating-point square root is a parameter.
- SQLite, its locks and its write-ahead log: each `State` method is one step, except in
  `OpenCycleRace`, where each statement is.
- A sync pass: a step that may move one destination's verified cycle to a cycle it was once given, not
  behind an earlier pass. Stale concurrent passes beyond that are not modelled.
- State.State.UpsertDestinationStatus: status text, issues, snapshots and timestamps are not modelled.
- Event columns other than source, cycle, path and rescan flag.
- The fingerprint by which `ensure_config` is skipped while the configuration stays the same: the model
  applies it every time, which changes no offset (`TargetRuns.EnsureConfigKeeps`).
- `manual_changed_since_rescan`, by which a pass asked for by hand may pass a closed standby gate.
- Daylight saving, time zones and the range of calendar dates: local time has a fixed offset.
- Parsing of schedule strings: a schedule is parsed or unparseable.
- `hdparm`, mount checks and the reading of device ids: an oracle.
- Full Unicode: UTF-8 validity is a parameter, and `trim` removes ASCII white space.
- Errors raised by the receiver of lines: the sink does not fail.
- HttpBody.StreamChunkedBody: a size line of 16384 bytes or more may pass or fail, depending on how it
  arrives; success is characterised for every body, freedom from failure only within the limit.
- `TcpConnectionPool`, HTTP headers and retries: easy members beside the decoders.
- Quoting.JoinCommandLine: arguments are texts; the lossy conversion of ill-formed UTF-16 is not modelled.
- Windows file names that differ only in case, and name length limits: the encoding ignores them.
- Rehydrate.CollectThenDeploy: the stage holds the stored files and their parents only; directories
  without files, permissions, symbolic links and the final removal of empty directories are left out.
- Usn.Watcher.PersistMatchingRecord: whether a record is of interest, and the directory index, are not
  modelled; a record counts as offered once the call succeeded.
- The directory watcher that stands in when the journal cannot be read.
- Fanotify.Watcher.ParseEvents: resolving handles to paths and marking directories are inputs.
  The code skips an event it cannot parse, and the rest of a buffer with a bad version or length, with
  a warning and no marker; the model begins with what was parsed. The flag does not survive a restart.
- Cancel.Canceller.DropGuard: guards drop last in, first out on the thread that took them, as scopes do.
- Atomicity in `Cancel`: registering and installing, and their undoing, are one step each.
- Network discovery, configuration cleaning, git and ssh orchestration, the web and desktop interfaces:
  dominated by input and output.
