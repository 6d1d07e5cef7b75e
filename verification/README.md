# Verified models of the risk platform's stateful cores

These Dafny modules model the parts of the platform in which an error would be silent:
conversation memory that forgets a turn, a backup that restores to something else, an
event stream that shows an answer twice or not at all, two schedulers at once, a
confirmation that is carried out twice. Each module follows one source file. What the
source does step by step (loops over files and buffers, rows and objects that are updated)
is a method or a class proved against a function of its inputs or of the old state; what
the source promises is proved about those functions and about all runs of the state
machines built from them. `dafny verify dfyconfig.toml` checks the whole project.

## Modules

| module | what it models |
|---|---|
| `Prelude`, `Utf8`, `WhiteSpace` | optional values and results, UTF-8 (section 3 of RFC 3629) with the two decoders in use, stripping of white space |
| `ConversationMemory` | messages, completed turns, one loaded snapshot, the two greedy selections, the decision of one loop pass, the truncation of a summary by binary search over UTF-8 bytes |
| `ConversationBuild` | the stored conversation and `build` itself, with arbitrary activity of others between its database accesses |
| `ConversationProtocol` | any number of builds of one conversation, interleaved at load, summarise and compare-and-set, with messages inserted in between |
| `Artifact`, `ArtifactStreams`, `ArtifactSoundness` | the encrypted container: nonces and associated data; writer and reader as functions; what the reader can return from arbitrary bytes |
| `FileSystem`, `ArtifactDisk`, `ArtifactFiles` | files and directories, and where a name leads; where decryption writes; writer and reader as loops over file handles and a disk |
| `Restore`, `Reconcile` | the one-shot restore, and the discarding of orphans with the pruning of empty directories |
| `EventFrames`, `EventReducer`, `EventResume` | framing of server-sent events (sections 9.2.5 and 9.2.6 of the WHATWG HTML standard), the reducer of the client, and reading with bounded reconnects |
| `Scheduler`, `SchedulerLock` | one scheduler against an injected clock, and many contending for one lock |
| `Confirmation` | the one-use confirmation transaction, alone and interleaved |
| `Calendar` | the ISO week label |

## Main results

- Memory: in every reachable state of any interleaving the stored summary was made from
  exactly the completed turns that end at or before the boundary, in order and each once
  (`EveryRunSummarisesEachTurnOnce`), and every answer is flagged or complete
  (`EveryAnswerIsHonest`). The summariser is shown every turn of a batch, word for word
  (`TranscriptShows`). `Build` ends whatever the surroundings do.
- Container: writing and reading are inverse (`RoundTrip`, `RoundTripOnDisk`); from any
  bytes the reader returns only whole-chunk prefixes of what was sealed under the same name
  (`ReaderReturnsSealedPrefixes`), and the restore checks turn that into equality
  (`AcceptedRestoreIsExact`, `RestoreIsExact`). Decryption leaves files outside its
  directory alone exactly when no component name leads there
  (`UntouchedExactlyWhenInside`).
- Event stream: from any client state, with any cursor and for any cutting of the byte
  stream into connections and reads, the client has reduced one stretch of the durable log,
  each event once and in order, and it begins where the client was unless a reconnect was
  made before anything had been received (`AgentConversation.ConnectStream`). A response
  that delivers the end of a turn is the last request (`SettlingResponseIsLast`).
- Scheduler, confirmation, reconcile, calendar: `NextAttemptIsPrompt`,
  `AtMostOneActive` with `Scheduler.Run`, `OneUseOverAnyRun`,
  `ExecutesOverAnyRunExactlyWhen`, `Storage.ReconcileFiles`, `LabelsNameWeeks`.

## Where the code promises less than it seems to

- A context budget of 1 or 2 gives no policy at all (`FromBudgetNeedsThree`).
- The comment at `apps/api/src/risk_platform/agent/context.py:221` says that an empty batch
  leaves only the protected turns. That is so exactly unless the oldest turn alone exceeds
  the transcript budget (`EmptyBatchMeans`, `LargeFirstTurnGivesEmptyBatch`); the degraded
  flag still tells the truth then. Lines 266-276 of that file follow an endless loop and are never reached.
- The chunk count of a component is not authenticated: a count of zero is accepted for
  every component (`ZeroCountIsAccepted`).
- Carriage returns are normalised buffer by buffer, so a cut inside `\r\n` invents a blank
  line; separate normalisation is right exactly when no cut falls there
  (`SeparateNormalisationAgrees`, `SplittingCrLfChangesTheResult`). The server sends none.
- A reconnect goes on where the client is exactly when the client holds the id of the event
  before its position, or holds no id and nothing has been written since
  (`ReconnectIsLosslessExactlyWhen`). Only a reconnect before the first event of a stream
  can fail this. The client may then hold no id (new conversation or page refresh: the
  events written meanwhile are never shown, `ReconnectBeforeFirstEventLosesIt`,
  `RestoredClientReconnects`), an id of another conversation (`switchToConversation` keeps
  it: the stream is refused, `SwitchedClientIsRefused`), or an older id of this one (after a
  cancelled turn: messages are added again, `StaleIdRepeatsMessage`).
- Components are written where their names lead, and the names are in the header, which is
  not authenticated. An artifact whose authenticated parts are all genuine can thereby
  create or empty a file anywhere before anything has been checked; below the restore root
  (`AddedNameReachesStorage`) or under an alias of the dump (`AliasEmptiesDump`) it is then
  refused although every component is genuine. Files outside the directory are safe from a
  header exactly when no name leads there (`UntouchedExactlyWhenInside`), and the files agree
  with what was read by name exactly when every name leads to a place, and two names to the
  same one only if neither can hold anything (`DiskAgreesExactlyWhenSeparate`). Names that
  are single path segments meet both (`PlainNamesAreRestoredByName`).
- The clean-up takes everything below the plaintext directory. A restore root that is another
  entry of it is wiped although the outcome is ok (`RunRestore`, `RootInPlaintextIsWiped`);
  the plaintext directory itself, or one around it, is always refused
  (`RootAroundPlaintextIsRefused`). A genuine artifact is restored exactly when the root is
  empty and lies apart from the two plaintext files (`GenuineIsRestorableExactlyWhen`).
- At most one scheduler is active whose session the server has not dropped. One whose
  session was dropped runs on until its next ping (`SecondActiveExactlyWhen`,
  `LostLockAllowsTwoActive`).
- `Date` reads the years 0 to 99 as 1900 to 1999. The label is the ISO label exactly
  outside those years and outside the first three days of year 100 (`MislabelledDates`).

## Model

| member | source | states |
|---|---|---|
| ConversationMemory.FromBudget | apps/api/src/risk_platform/agent/context.py:66-95 | a policy that is derived at all passes the constructor's checks |
| ConversationMemory.FromBudgetNeedsThree | apps/api/src/risk_platform/agent/context.py:66-95 | for every positive budget a policy exists if and only if the budget is at least 3 |
| ConversationMemory.FromBudgetThresholds | apps/api/src/risk_platform/agent/context.py:79-95 | the thresholds are 85 and 50 percent of the budget, rounded down; two turns are protected and 32 passes allowed |
| ConversationMemory.ByteEstimatorIsMonotone | apps/api/src/risk_platform/ai_providers/v2_adapter.py:416-426 | the byte-counting estimator gives 0 for the empty text and never decreases with UTF-8 length |
| ConversationMemory.TurnsEndInside | apps/api/src/risk_platform/agent/context.py:427-437 | the answers of the completed turns have strictly increasing sequences inside the log |
| ConversationMemory.TurnsSplit | apps/api/src/risk_platform/agent/context.py:427-437 | where no question is open, the turns of a log are those before followed by those after; none straddles the boundary |
| ConversationMemory.TurnsOfPrefix | apps/api/src/risk_platform/agent/context.py:427-437 | the turns of a prefix are exactly the turns of the whole log that end in it |
| ConversationMemory.TurnEndCloses | apps/api/src/risk_platform/agent/context.py:427-437 | the end of the i-th turn is a boundary no turn straddles, and the log up to it has exactly the first i + 1 turns |
| ConversationMemory.QueryTurns | apps/api/src/risk_platform/agent/context.py:296-313 | leaving tool messages out of the query changes neither the turns nor the open question of the window |
| ConversationMemory.FedAndEligibleAreEverything | apps/api/src/risk_platform/agent/context.py:278-313 | turns already summarised followed by turns loaded are all completed turns before the current message, also when a competing build has moved the boundary past it |
| ConversationMemory.TurnSize | apps/api/src/risk_platform/agent/context.py:140-152 | every turn costs at least its framing overhead of 64 |
| ConversationMemory.ContextSizeIs | apps/api/src/risk_platform/agent/context.py:439-445 | a context costs the summary plus, for each turn, question, answer and 64 |
| ConversationMemory.CurrentSequenceMeans | apps/api/src/risk_platform/agent/context.py:288-295 | the current message is the question with that id, if there is one |
| ConversationMemory.CompressMeans | apps/api/src/risk_platform/agent/context.py:215-237 | a batch is asked for only if the context exceeds the trigger and a pass is left; it is the longest non-empty run of oldest unprotected turns within the transcript budget |
| ConversationMemory.FinishMeans | apps/api/src/risk_platform/agent/context.py:215-236 | otherwise the context is within the trigger, only protected turns are left, the oldest turn alone exceeds the transcript budget, or no pass is left |
| ConversationMemory.FlattenCarries | apps/api/src/risk_platform/agent/context.py:390-403 | a context carries question and answer of each kept turn, in order, and nothing else |
| ConversationMemory.TranscriptShows | apps/api/src/risk_platform/agent/context.py:136-137 | the summariser is shown question and answer of every turn of the batch, in order, separated by an empty line, and nothing else |
| ConversationMemory.ShownTextIsUnique | apps/api/src/risk_platform/agent/context.py:239-239 | only one text shows given turns in that way |
| ConversationMemory.KeptIsLongest | apps/api/src/risk_platform/agent/context.py:373-381 | the greedy walk back keeps the longest suffix that is protected or fits together with the summary: it is admissible, every longer one is not |
| ConversationMemory.FittingIsLongest | apps/api/src/risk_platform/agent/context.py:412-425 | the batch is within the transcript budget and every longer prefix exceeds it |
| ConversationMemory.DegradedExactlyWhen | apps/api/src/risk_platform/agent/context.py:382-389 | a context is flagged if and only if there are more turns than protected ones and summary plus all turns exceed the budget |
| ConversationMemory.NoSilentLoss | apps/api/src/risk_platform/agent/context.py:382-410 | an unflagged context carries question and answer of every eligible turn, and summarised plus carried turns are all completed turns |
| ConversationMemory.UnderTriggerIsNeverDegraded | apps/api/src/risk_platform/agent/context.py:209-218 | leaving the loop under the trigger never flags and so never drops a turn |
| ConversationMemory.EmptyBatchMeans | apps/api/src/risk_platform/agent/context.py:219-227 | the batch is empty if and only if only protected turns are left or the first turn alone exceeds the transcript budget |
| ConversationMemory.LargeFirstTurnGivesEmptyBatch | apps/api/src/risk_platform/agent/context.py:219-227 | a concrete row and budget with an empty batch although a turn that is not protected is left; the context is flagged |
| ConversationMemory.EligibleTurnsOfLog | apps/api/src/risk_platform/agent/context.py:238-238 | the boundary taken from a batch lies after the old one and before the current message, closes a turn, and has exactly the turns fed so far plus the batch behind it |
| ConversationMemory.SwapKeepsInvariant | apps/api/src/risk_platform/agent/context.py:336-362 | folding any non-empty prefix of the eligible turns into the summary keeps the row invariant and moves the boundary strictly forward |
| ConversationMemory.SwapLeavesTheRest | apps/api/src/risk_platform/agent/context.py:257-265 | after a swap the next load finds exactly the eligible turns that were not in the batch |
| ConversationMemory.StaleFreeSwap | apps/api/src/risk_platform/agent/context.py:336-362 | a batch chosen from a snapshot may be swapped into any later row of the same version, whatever was appended, and uses up just that batch |
| ConversationMemory.CurrentIsStable | apps/api/src/risk_platform/agent/context.py:288-295 | no lawful change of the row moves the current message |
| ConversationMemory.CandidatesGrow | apps/api/src/risk_platform/agent/context.py:463-471 | longer byte prefixes decode to longer prefixes of the text with no smaller estimate, which is what the binary search needs |
| ConversationMemory.WholeCharacters | apps/api/src/risk_platform/agent/context.py:463-471 | every character prefix is the decoding of some byte prefix, so searching bytes misses none |
| ConversationMemory.BestBytesAreBestCharacters | apps/api/src/risk_platform/agent/context.py:447-472 | the best byte prefix decodes to the longest character prefix within the budget |
| ConversationMemory.CutIsUnique | apps/api/src/risk_platform/agent/context.py:447-472 | there is only one longest prefix within a budget |
| ConversationMemory.BoundedIsUnique | apps/api/src/risk_platform/agent/context.py:447-472 | the specification of the truncated text admits one result only |
| ConversationMemory.BoundedText | apps/api/src/risk_platform/agent/context.py:447-472 | the result, stated without naming the functions that strip: the input without the white space at its ends, if that fits the budget; otherwise the longest prefix of it that fits, without the white space at its right end |
| WhiteSpace.StripTrims | apps/api/src/risk_platform/agent/context.py:459-459 | what stripping leaves is a slice of the text outside of which there is only white space and which neither begins nor ends with any |
| WhiteSpace.TrimIsUnique | apps/api/src/risk_platform/agent/context.py:459-459 | only one text is left over in that way |
| WhiteSpace.RightTrimIsUnique | apps/api/src/risk_platform/agent/context.py:472-472 | the same at the right end |
| WhiteSpace.StripIsEmptyExactlyWhenBlank | apps/api/src/risk_platform/agent/confirmation.py:113-114 | nothing is left of a text if and only if it is all white space |
| WhiteSpace.SpacesAreTheseTwentyNine | apps/api/src/risk_platform/agent/context.py:459-459 | which characters are white space, one by one |
| Utf8.DecodeOneInverts | apps/api/src/risk_platform/agent/context.py:462-466 | decoding one character inverts encoding it, whatever follows |
| Utf8.DecodeIgnoreOfPrefix | apps/api/src/risk_platform/agent/context.py:466-466 | decoding any byte prefix of a text with errors ignored gives exactly its whole characters |
| Utf8.StrayByteIsDropped | apps/api/src/risk_platform/agent/context.py:466-466 | a byte with which no character begins is dropped, wherever it stands, and nothing else is |
| Utf8.DecodeOneMeans | apps/api/src/risk_platform/agent/context.py:466-466 | a position cannot be decoded if and only if no character's encoding begins there |
| Utf8.CharsWithinIsLongest | apps/api/src/risk_platform/agent/context.py:463-472 | these are the most characters whose encoding fits the byte prefix |
| Utf8.DecodeAvailableOfPrefix | apps/web/src/composables/useAgentConversation.ts:516-522 | a streaming decoder given any byte prefix of a text has produced its whole characters and holds the rest back |
| Utf8.DecodeAvailableIsIncremental | apps/web/src/composables/useAgentConversation.ts:516-522 | decoding block by block with the held-back bytes gives what decoding everything gives |
| ConversationBuild.Conversation.constructor | apps/api/alembic/versions/20260811_0004_agent_weekly_capabilities.py:348-366 | a new conversation satisfies the row invariant |
| ConversationBuild.Conversation.Insert | apps/api/alembic/versions/20260811_0004_agent_weekly_capabilities.py:348-366 | a message is accepted if and only if it carries the next number; a refused one leaves counter and log as they were; either way the row evolves lawfully |
| ConversationBuild.Conversation.Load | apps/api/src/risk_platform/agent/context.py:278-313 | fails exactly for a foreign caller or a current message that is missing or not a question, otherwise returns summary, boundary, version and the eligible turns |
| ConversationBuild.Conversation.CompareAndSetSummary | apps/api/src/risk_platform/agent/context.py:336-362 | stores if and only if version and boundary are as expected and the new boundary is further, then bumps the version; otherwise changes nothing |
| ConversationBuild.AppendEvolves | apps/api/alembic/versions/20260811_0004_agent_weekly_capabilities.py:348-366 | appending the next message keeps the row invariant, the summary and its boundary |
| ConversationBuild.CompletedTurns | apps/api/src/risk_platform/agent/context.py:427-437 | the loop computes the completed turns |
| ConversationBuild.SelectRecent | apps/api/src/risk_platform/agent/context.py:373-381 | the loop returns the suffix `KeptIsLongest` speaks of |
| ConversationBuild.BoundedPrefix | apps/api/src/risk_platform/agent/context.py:412-425 | the loop returns the prefix `FittingIsLongest` speaks of |
| ConversationBuild.Answer | apps/api/src/risk_platform/agent/context.py:364-410 | the context of a snapshot: it carries question and answer of exactly the turns kept, and is flagged exactly when a turn was left out |
| ConversationBuild.ExchangeIsLawful | apps/api/src/risk_platform/agent/context.py:257-265 | whatever row the compare-and-set meets, the row evolves lawfully, and the swap takes effect whenever the version is still the loaded one |
| ConversationBuild.Exchange | apps/api/src/risk_platform/agent/context.py:257-265 | what one compare-and-set makes of the row it meets |
| ConversationBuild.LookAt | apps/api/src/risk_platform/agent/context.py:210-236 | one load and the decision between answering, giving up and asking for another batch |
| ConversationBuild.Compress | apps/api/src/risk_platform/agent/context.py:237-265 | the summariser is asked with exactly the loaded summary and a text that shows every turn of the batch and nothing else; what is stored is the bounded answer; without a usable answer nothing changes |
| ConversationBuild.CooperationSurvivesExchange | apps/api/src/risk_platform/agent/context.py:237-265 | without competing writers the condition that turns fit and passes suffice survives every exchange, with one pass less |
| ConversationBuild.CooperativeAnswerIsComplete | apps/api/src/risk_platform/agent/context.py:215-236 | when all turns fit the transcript budget and the passes suffice, the loop never ends degraded |
| ConversationBuild.Attempt | apps/api/src/risk_platform/agent/context.py:210-265 | going round again always costs one summariser call and needs a pass |
| ConversationBuild.Build | apps/api/src/risk_platform/agent/context.py:176-265 | ends against any surroundings with at most the policy's number of calls; every call was made with a text that shows all turns of its batch; the row only evolves lawfully; the answer is that of a row it went through, given up on only for the reasons `FinishMeans` lists or an unusable reply; never degraded without competing writers, when every reply leaves something to store (be it cut to the target), turns fit and passes suffice |
| ConversationProtocol.StepMovesRowLawfully | apps/api/src/risk_platform/agent/context.py:210-265 | no step of any interleaved build moves the row other than `Build` assumes of its surroundings |
| ConversationProtocol.StepKeepsInv | apps/api/src/risk_platform/agent/context.py:210-265 | every load, reply, swap, insert and start keeps the invariant of the system |
| ConversationProtocol.RunKeepsInv | apps/api/src/risk_platform/agent/context.py:210-265 | so does every run |
| ConversationProtocol.EveryRunSummarisesEachTurnOnce | apps/api/src/risk_platform/agent/context.py:210-362 | in every reachable state the stored text derives, fold by fold, from exchanges whose texts show exactly the completed turns ending at or before the boundary, in order, each once; the boundary closes a turn; no build exceeds its passes |
| ConversationProtocol.SwapSucceedsExactlyWhenCurrent | apps/api/src/risk_platform/agent/context.py:336-362 | a swap takes effect if and only if its snapshot's version is still current, and then version and boundary strictly increase and the history grows by exactly its batch |
| ConversationProtocol.EveryAnswerIsHonest | apps/api/src/risk_platform/agent/context.py:364-410 | every context any interleaved build returns is flagged, or carries question and answer of all turns its summary does not cover |
| Artifact.PackU32 | infra/backup/src/risk_backup/envelope.py:49-49 | four bytes for every number below 2^32 |
| Artifact.UnpackInvertsPack | infra/backup/src/risk_backup/envelope.py:49-49 | unpacking inverts packing |
| Artifact.PackIsBigEndian | infra/backup/src/risk_backup/envelope.py:49-49 | the four bytes are the digits to base 256, the most significant first |
| Artifact.DeriveNonce | infra/backup/src/risk_backup/envelope.py:88-100 | twelve bytes, refused exactly for indices from 2^32 on |
| Artifact.NonceMeans | infra/backup/src/risk_backup/envelope.py:97-100 | the first eight bytes are the base's, and each bit of the last four is the exclusive or of the base's and the index's |
| Artifact.NoncesAreDistinct | infra/backup/src/risk_backup/envelope.py:88-100 | one base never gives two chunks the same nonce (section 8 of NIST SP 800-38D) |
| Artifact.DecimalIsInjective | infra/backup/src/risk_backup/envelope.py:116-120 | no two indices are written with the same digits |
| Artifact.DecimalMeans | infra/backup/src/risk_backup/envelope.py:117-120 | the digits write the index to base ten, without leading zeros |
| Artifact.AadMeans | infra/backup/src/risk_backup/envelope.py:103-120 | the associated data byte for byte, for the manifest and for any other component; refused exactly for a label that is not ASCII |
| Artifact.LastColonSplits | infra/backup/src/risk_backup/envelope.py:116-120 | the last colon separates label and index, even if the label holds colons |
| Artifact.FirstZeroSplits | infra/backup/src/risk_backup/manifest.py:87-95 | the first zero byte separates a manifest without zero bytes from what follows |
| Artifact.AadBinds | infra/backup/src/risk_backup/envelope.py:103-120 | equal associated data force the same component, the same index and the same manifest or key version |
| ArtifactStreams.ChunksRejoin | infra/backup/src/risk_backup/envelope.py:123-128 | the chunks of a content rejoin to it, and their number is the ceiling quotient, at least one |
| ArtifactStreams.PieceSizes | infra/backup/src/risk_backup/envelope.py:127-128 | no chunk exceeds the maximum, and the first one reaches it if the content does |
| ArtifactStreams.PiecesCount | infra/backup/src/risk_backup/envelope.py:228-229 | the ceiling division is exactly the number of non-empty reads |
| ArtifactStreams.SealComponentSucceedsExactlyWhen | infra/backup/src/risk_backup/envelope.py:193-254 | a component can be written if and only if its label is ASCII and count and chunk lengths fit 32 bits |
| ArtifactStreams.WritesExactlyWhen | infra/backup/src/risk_backup/envelope.py:131-190 | the same for a whole artifact |
| ArtifactStreams.CorrectOrIdealOpens | infra/backup/src/risk_backup/envelope.py:34-35 | a cipher that opens all it seals, and the ideal cipher of a log, both open what is in the log |
| ArtifactStreams.SealedComponentOpens | infra/backup/src/risk_backup/envelope.py:207-210 | a cipher that opens what a backup seals opens every chunk of each of its components |
| ArtifactStreams.OpenInvertsSealChunk | infra/backup/src/risk_backup/envelope.py:345-353 | a written chunk reads back, whatever follows it |
| ArtifactStreams.OpenInvertsSealComponent | infra/backup/src/risk_backup/envelope.py:332-379 | a written component reads back with the same binding, empty contents included, and the reader stops right behind it |
| ArtifactStreams.ManifestOpensUnbound | infra/backup/src/risk_backup/envelope.py:308-314 | reading the manifest with no manifest bytes at hand is reading it with them |
| ArtifactStreams.HeaderLandsOnFirstComponent | infra/backup/src/risk_backup/envelope.py:257-304 | the reader's position, computed from the re-serialised header, is the first byte of the manifest component |
| ArtifactStreams.ReadsHeaderExactlyWhen | infra/backup/src/risk_backup/envelope.py:257-278 | a header is read if and only if the bytes begin with RPBK1, a length and a text of that length which parses to it with version 1 |
| ArtifactStreams.OpenInvertsSealComponents | infra/backup/src/risk_backup/envelope.py:315-326 | written components read back under their names, whatever names and bytes follow them |
| ArtifactStreams.RoundTrip | infra/backup/src/risk_backup/envelope.py:131-329 | decrypting a written artifact with its key returns the header as the writer was called (field by field), the manifest and exactly the components, for all contents, distinct names and positive chunk sizes, with a correct cipher as well as with the ideal one |
| ArtifactFiles.Sink.Write | infra/backup/src/risk_backup/envelope.py:205-206 | writing appends |
| ArtifactFiles.Source.Read | infra/backup/src/risk_backup/envelope.py:302-304 | a read takes what is there up to the length asked for |
| ArtifactFiles.Source.ReadExactly | infra/backup/src/risk_backup/envelope.py:382-386 | refuses exactly when too little is left |
| ArtifactFiles.WriteComponent | infra/backup/src/risk_backup/envelope.py:193-212 | the in-memory writer appends the sealed component |
| ArtifactFiles.EmitStream | infra/backup/src/risk_backup/envelope.py:232-244 | the read loop seals the file chunk by chunk and counts the chunks |
| ArtifactFiles.WriteComponentStream | infra/backup/src/risk_backup/envelope.py:215-254 | the streaming writer appends the same bytes as the in-memory one; the count mismatch is unreachable |
| ArtifactFiles.WriteDataComponents | infra/backup/src/risk_backup/envelope.py:177-186 | the loop appends the sealed components in order |
| ArtifactFiles.Write | infra/backup/src/risk_backup/envelope.py:131-190 | the file written is the artifact `RoundTrip` speaks of, or none is left |
| ArtifactFiles.ReadChunk | infra/backup/src/risk_backup/envelope.py:345-353 | reads one chunk or rejects |
| ArtifactFiles.ReadComponent | infra/backup/src/risk_backup/envelope.py:332-354 | reads one component into memory or rejects, leaving the handle right behind it |
| ArtifactFiles.StreamChunks | infra/backup/src/risk_backup/envelope.py:370-379 | the file holds the plaintext of the chunks that opened before the first that did not, all of it if all did |
| ArtifactFiles.ReadComponentStream | infra/backup/src/risk_backup/envelope.py:357-379 | creates or empties the file its name leads to once base nonce and count are read, and streams into it |
| ArtifactFiles.ReadDataComponents | infra/backup/src/risk_backup/envelope.py:315-326 | the loop stops at the first component that is rejected, with what was written so far on the disk |
| ArtifactFiles.Decrypt | infra/backup/src/risk_backup/envelope.py:281-329 | disk and result are those of the function the statements about `ArtifactDisk` speak of, for every header and on every failure |
| FileSystem.PlainPlace | infra/backup/src/risk_backup/envelope.py:317-317 | a single path segment leads to the entry of that name in the directory |
| FileSystem.AliasPlace | infra/backup/src/risk_backup/envelope.py:317-317 | with "./" before it, it leads to the same file under another name |
| FileSystem.ParentPlace | infra/backup/src/risk_backup/envelope.py:317-317 | with "../" before it, it leads beside the directory |
| FileSystem.AbsolutePlace | infra/backup/src/risk_backup/envelope.py:317-317 | an absolute name leads to its own path, whatever the directory |
| FileSystem.SegmentsRejoin | infra/backup/src/risk_backup/envelope.py:317-317 | a name is its segments joined by slashes, and no segment holds one |
| FileSystem.WalkFollowsTrail | infra/backup/src/risk_backup/envelope.py:317-317 | segments lead to a path if and only if there is a chain of steps to it, all through directories |
| FileSystem.MakeDirMeans | infra/backup/src/risk_backup/envelope.py:300-300 | making the directory adds it and those above it, and fails if and only if one of them is a file |
| FileSystem.RemovedMeans | infra/backup/src/risk_backup/restore.py:59-67 | the clean-up removes exactly what lies at or below the directory |
| ArtifactDisk.StoreComponentDelivers | infra/backup/src/risk_backup/envelope.py:357-379 | a component is delivered if and only if it opens and its name leads to a place; then that file holds it; no other file is touched either way |
| ArtifactDisk.AcceptsExactlyWhen | infra/backup/src/risk_backup/envelope.py:296-298 | the reader goes on with a header if and only if it names AES-256-GCM |
| ArtifactDisk.OnlyPlacesAreTouched | infra/backup/src/risk_backup/envelope.py:315-326 | for any bytes, only files the names lead to are touched, and only up to the first name that leads nowhere |
| ArtifactDisk.HollowArtifactEmptiesPlaces | infra/backup/src/risk_backup/envelope.py:343-373 | for every header there are bytes, made without any key, that empty every file its names lead to |
| ArtifactDisk.UntouchedExactlyWhenInside | infra/backup/src/risk_backup/envelope.py:315-326 | for every header: all bytes with it leave every file outside the directory alone, on every disk, if and only if every place its names lead to lies inside |
| ArtifactDisk.StoreComponentsAgrees | infra/backup/src/risk_backup/envelope.py:315-326 | with distinct places for distinct names the files hold what was read under each name, and the same bytes are accepted |
| ArtifactDisk.DiskAgreesWithNames | infra/backup/src/risk_backup/envelope.py:281-329 | the same for whole artifacts; names may share a place when neither can hold anything |
| ArtifactDisk.LitArtifactByName | infra/backup/src/risk_backup/envelope.py:315-326 | for every header and every choice of names that can hold something there is an artifact that holds a byte under these and nothing under the others |
| ArtifactDisk.AgreementShowsPlaces | infra/backup/src/risk_backup/envelope.py:315-326 | where files and names agree, two names under which different things were read have different places |
| ArtifactDisk.DiskAgreesExactlyWhenSeparate | infra/backup/src/risk_backup/envelope.py:281-329 | for every header: all bytes with it, on all disks with these directories, are accepted alike and found alike in files and by name if and only if every name leads to a place, and two to the same one only if neither can hold anything |
| ArtifactDisk.DecryptTouchesOnlyPlaces | infra/backup/src/risk_backup/envelope.py:281-329 | a file that no name of the header leads to is left alone |
| ArtifactDisk.PlainNamesAreSafe | infra/backup/src/risk_backup/envelope.py:281-329 | single path segments have distinct places inside the directory, so both hold |
| ArtifactDisk.RoundTripOnDisk | infra/backup/src/risk_backup/envelope.py:131-329 | a written artifact with such names ends up, component by component, in the files of the directory, and nothing outside is touched |
| ArtifactDisk.GenuineAddsItsFiles | infra/backup/src/risk_backup/envelope.py:315-326 | and these files are all it adds to the disk |
| ArtifactDisk.ExtendedAddsName | infra/backup/src/risk_backup/envelope.py:151-159 | an artifact can be given one more name and an empty component without its key |
| ArtifactDisk.AddedNameEmptiesItsPlace | infra/backup/src/risk_backup/envelope.py:316-325 | whatever the added name is, the artifact is accepted and the file the name leads to has been emptied |
| ArtifactDisk.AddedNameByName | infra/backup/src/risk_backup/envelope.py:316-325 | everything the artifact returns under the backup's own names is genuine |
| ArtifactSoundness.IdealCipherExists | infra/backup/src/risk_backup/envelope.py:34-35 | the hypothesis on the cipher is met for every set of sealed records |
| ArtifactSoundness.OpenedChunkWasSealed | infra/backup/src/risk_backup/envelope.py:345-353 | a chunk that opens at a position of a component is the chunk sealed there, under that very manifest or key version |
| ArtifactSoundness.OpenedComponentIsAcceptable | infra/backup/src/risk_backup/envelope.py:332-379 | from any bytes, a component read is a whole-chunk prefix of the one sealed under its name, and a non-empty one fixes the manifest or key version |
| ArtifactSoundness.ReaderReturnsSealedPrefixes | infra/backup/src/risk_backup/envelope.py:281-379 | the same for all parts the reader returns from any bytes whatsoever; nothing is returned under a name never sealed |
| ArtifactSoundness.ZeroCountIsAccepted | infra/backup/src/risk_backup/envelope.py:343-345 | a count of zero is accepted for any component, without the key |
| ArtifactSoundness.WholeChunkPrefixIsAccepted | infra/backup/src/risk_backup/envelope.py:343-354 | every whole-chunk prefix of every component of a backup is returned for some bytes, also by the ideal cipher the prefix claim is about |
| ArtifactSoundness.HypothesesCanBeMet | infra/backup/src/risk_backup/restore.py:96-118 | every backup of the two data components admits a collision-free hash and a parser as the restore results assume them |
| ArtifactSoundness.AcceptedRestoreIsExact | infra/backup/src/risk_backup/restore.py:91-118 | once the manifest parses and both hashes match what was read by name, manifest, key version and both data components are the originals |
| ArtifactSoundness.GenuineArtifactIsAccepted | infra/backup/src/risk_backup/restore.py:91-118 | a backup as written passes every check |
| Restore.Accept | infra/backup/src/risk_backup/restore.py:82-118 | disk, accepted files and first failing check of steps 1 to 5, exactly, for every header |
| Restore.ChecksAnswer | infra/backup/src/risk_backup/restore.py:82-118 | which cause of steps 1 to 5 gives which error code, in terms of header, key ring, manifest as parsed, files found and their hashes |
| Restore.PassingMeans | infra/backup/src/risk_backup/restore.py:82-118 | what passes has a known key version, manifest format v1, a usable manifest, both components, and hashes equal to those the manifest names |
| Restore.RestoreDatabase | infra/backup/src/risk_backup/restore.py:120-143 | steps 6 to 8 succeed if and only if database, restore root, audit chain and schema head are in order, and which of them gives which error code |
| Restore.RestoreFiles | infra/backup/src/risk_backup/restore.py:145-154 | step 9 succeeds if and only if every referenced file is in the archive and every other can be deleted, and then leaves exactly the referenced files; otherwise the error code for the first that fails |
| Restore.Apply | infra/backup/src/risk_backup/restore.py:120-154 | steps 6 to 9 in order |
| Restore.CleanUp | infra/backup/src/risk_backup/restore.py:59-67 | nothing at or below the plaintext directory is left, and everything else is as it was |
| Restore.RunRestore | infra/backup/src/risk_backup/restore.py:70-154 | the outcome is ok if and only if the checks pass on what decryption left in the files and steps 6 to 9 can succeed; ok means a usable manifest of format v1, both components found and the hash of each the one the manifest names; before the checks have passed nothing reaches the database or is extracted; then exactly the referenced files are left, or nothing at all if the restore root lies inside the plaintext directory; the files left on the disk |
| Restore.RestoreIsExact | infra/backup/src/risk_backup/restore.py:81-118 | whatever bytes are offered and wherever their components went, what passes the checks is the dump and the archive of the backup whose key the artifact unwraps to |
| Restore.GenuineIsRestored | infra/backup/src/risk_backup/restore.py:81-118 | an artifact as written passes the checks when its two files can be created |
| Restore.GenuinePassesIdealCipher | infra/backup/src/risk_backup/restore.py:81-118 | also under the ideal cipher, with which what passes is exactly the backup |
| Restore.GenuineIsRestorableExactlyWhen | infra/backup/src/risk_backup/restore.py:81-154 | and is restored if and only if database, archive and references are in order and the restore root is empty before and apart from the two plaintext files |
| Restore.RootInPlaintextIsWiped | infra/backup/src/risk_backup/restore.py:70-78 | a restore root that is another entry of the plaintext directory passes, so that the clean-up takes all that was restored from an outcome that is ok |
| Restore.RootAroundPlaintextIsRefused | infra/backup/src/risk_backup/restore.py:120-126 | the plaintext directory, or one around it, never passes as restore root, whatever the artifact |
| Restore.SeparateNamesAreRestoredByName | infra/backup/src/risk_backup/restore.py:90-118 | with separate places the checks see exactly what was read by name |
| Restore.PlainNamesAreRestoredByName | infra/backup/src/risk_backup/restore.py:81-118 | with single path segments as names the checks see exactly what was read by name, and no file outside the plaintext directory is touched, before or after the clean-up |
| Restore.AddedNameReachesStorage | infra/backup/src/risk_backup/restore.py:90-118 | with a name that leads below the restore root a file there is emptied before steps 4 and 5, and the root is no longer empty, although by name everything passes |
| Restore.AliasEmptiesDump | infra/backup/src/risk_backup/restore.py:112-116 | with an alias of the dump's name the checks fail on a dump that is not empty, although by name everything passes |
| Reconcile.AncestorsSortFirst | infra/backup/src/risk_backup/reconcile.py:75-76 | a directory sorts before everything below it, so reverse order visits descendants first |
| Reconcile.TextLessMeans | infra/backup/src/risk_backup/reconcile.py:54-54 | texts are in order by their first different character, a prefix before what it begins |
| Reconcile.PathLessMeans | infra/backup/src/risk_backup/reconcile.py:54-76 | paths are in order by their first different segment, a directory before what lies below it |
| Reconcile.RemovableExactlyWhenNotNeeded | infra/backup/src/risk_backup/reconcile.py:76-80 | with everything below settled, a directory can be removed if and only if no surviving file or stuck directory needs it |
| Reconcile.Storage.RemoveOrphans | infra/backup/src/risk_backup/reconcile.py:54-60 | removes all orphans in sorted order, or exactly those before the first that cannot be deleted |
| Reconcile.Storage.PruneEmptyDirs | infra/backup/src/risk_backup/reconcile.py:75-80 | one pass leaves exactly the directories a surviving file or stuck directory needs |
| Reconcile.Storage.ReconcileFiles | infra/backup/src/risk_backup/reconcile.py:35-72 | succeeds if and only if every referenced file is present and every orphan can be deleted; then the files are exactly the referenced ones and the directories exactly those needed; files and directories after each error, exactly |
| Reconcile.ReferencedMeans | infra/backup/src/risk_backup/reconcile.py:48-49 | a file is referenced if and only if it lies in the import directory and a key names it there |
| Reconcile.NoEmptyDirectoryRemains | infra/backup/src/risk_backup/reconcile.py:61-62 | when nothing is stuck, what remains is a tree in which every directory has a child |
| EventFrames.NormalizeAppend | apps/web/src/utils/agent-sse.ts:37-37 | normalising two parts gives the same text, or one character more when the cut splits a line ending |
| EventFrames.NormalizeUnifies | apps/web/src/utils/agent-sse.ts:37-37 | character by character the same text, with `\r\n` and any other `\r` replaced by `\n` |
| EventFrames.SeparateNormalisationAgrees | apps/web/src/utils/agent-sse.ts:37-37 | buffer-wise normalisation is right if and only if the cut does not fall inside `\r\n` |
| EventFrames.SplittingCrLfChangesTheResult | apps/web/src/utils/agent-sse.ts:37-37 | a concrete text for which such a cut changes the result |
| EventFrames.FindBoundaryIsFirst | apps/web/src/utils/agent-sse.ts:39-45 | the boundary found is a blank line and none lies before it; none is found only if there is none |
| EventFrames.LinesRejoin | apps/web/src/utils/agent-sse.ts:55-55 | the lines joined by line feeds are the text, and no line holds one |
| EventFrames.ParseFrame | apps/web/src/utils/agent-sse.ts:50-70 | the loop over lines computes the frame of a raw piece, none for an empty one |
| EventFrames.ParseSseFrames | apps/web/src/utils/agent-sse.ts:32-48 | the loop over boundaries computes frames and carry of the normalised buffer |
| EventFrames.ParseIsChunkInvariant | apps/web/src/utils/agent-sse.ts:32-48 | for every cut of a text, parsing the first part and then its carry with the second gives frames and carry of the whole |
| EventFrames.FeedIsParse | apps/web/src/utils/agent-sse.ts:32-48 | for every split that keeps line endings together, feeding chunk by chunk is parsing the whole |
| EventFrames.CarriageFreeIsNeverSplit | apps/web/src/utils/agent-sse.ts:37-37 | a stream without carriage returns meets that condition for every split |
| EventFrames.CarryHasNoBoundary | apps/web/src/utils/agent-sse.ts:47-47 | the carry never holds a complete frame |
| EventFrames.PiecesRebuildInput | apps/web/src/utils/agent-sse.ts:38-47 | pieces, separators and carry rebuild the input; no piece holds a boundary; the frames are those of the pieces |
| EventFrames.FieldLine | apps/web/src/utils/agent-sse.ts:57-67 | a field line reads back with its value unchanged |
| EventFrames.WireBoundary | apps/api/src/risk_platform/agent/events.py:106-118 | the text of an event has its only boundary at its end |
| EventFrames.WireParsesToFrame | apps/api/src/risk_platform/agent/events.py:106-118 | what the server writes for an event parses to exactly its id, type and data |
| EventFrames.KeepaliveParses | apps/api/src/risk_platform/agent/events.py:236-238 | a keepalive comment parses to a frame without id and data |
| EventReducer.LastSequence | apps/web/src/utils/agent-sse.ts:305-308 | the largest sequence of a message, 0 without one |
| EventReducer.RepetitionIsHarmless | apps/web/src/utils/agent-sse.ts:203-206 | in any frame sequence, delivering an identified frame twice in a row is delivering it once |
| EventReducer.MessagesOnlyGrow | apps/web/src/utils/agent-sse.ts:300-318 | no frame sequence changes or drops a message, and sequences stay strictly increasing |
| EventReducer.ReducerRefinesDeltaHistory | apps/web/src/utils/agent-sse.ts:199-318 | for every frame sequence the messages appended are the texts finalised along its non-duplicate frames |
| EventReducer.TurnContentIsItsDeltas | apps/web/src/utils/agent-sse.ts:229-266 | a stretch without turn end that a completion closes finalises exactly the concatenation of its deltas |
| EventReducer.ReduceAppend | apps/web/src/utils/agent-sse.ts:199-288 | reducing two stretches is reducing one after the other |
| EventReducer.FreshSnoc | apps/web/src/utils/agent-sse.ts:203-206 | a frame is left out as a repetition if and only if it carries the id the client holds at that point |
| EventReducer.StatusAfter | apps/web/src/utils/agent-sse.ts:215-297 | the status after any frame sequence: that of the last new completion, pending interaction or error, whatever follows it; otherwise the turn streams once it goes on, unless it had ended or was being cancelled |
| EventReducer.FieldsAfter | apps/web/src/utils/agent-sse.ts:203-288 | progress, error, pending interaction and cursor after any frame sequence, each read off the last new frame that bears on it |
| EventReducer.CompletionAppends | apps/web/src/utils/agent-sse.ts:299-318 | a completion appends one answer with the open text, its ids read off the payload and the next sequence, and leaves no open text |
| EventReducer.DeltaTextIs | apps/web/src/utils/agent-sse.ts:229-233 | a delta contributes the text of its payload, any other frame nothing |
| EventReducer.RecordsAreObjects | apps/web/src/utils/agent-sse.ts:236-238 | of the candidates exactly the objects are kept, in order |
| EventResume.ConsumeIsReduceOfText | apps/web/src/composables/useAgentConversation.ts:516-528 | however the bytes are cut into reads, even inside a character or a frame, the frames reduced are those of the whole text |
| EventResume.CutStreamParses | apps/web/src/composables/useAgentConversation.ts:516-530 | a stream cut after any character gives the frames of exactly the items that arrived whole |
| EventResume.KeepalivesAreIgnored | apps/web/src/utils/agent-sse.ts:207-213 | keepalives change no state |
| EventResume.BodyReducesEvents | apps/web/src/composables/useAgentConversation.ts:516-530 | one body reduces a prefix of its events, all of them when it arrived whole |
| EventResume.RepeatedEventIsSkipped | apps/web/src/utils/agent-sse.ts:203-206 | a response that starts with the last applied event repeats it without effect |
| EventResume.ReducingSyncs | apps/web/src/utils/agent-sse.ts:215-218 | as soon as an event has been reduced the client holds the id of the last one, whatever it held before |
| EventResume.NothingIsSkipped | apps/web/src/utils/agent-sse.ts:203-206 | every event of a stretch of the log is applied, and none taken for a repetition, if and only if the client did not apply the first of them last |
| EventResume.ConnectionAdvances | apps/web/src/composables/useAgentConversation.ts:485-535 | a connection by sequence cursor, from any state, or by the id of the last event applied moves the client from position p of the log to some q, reducing each event between exactly once |
| EventResume.ConnectionEnters | apps/web/src/composables/useAgentConversation.ts:485-535 | a connection with any other cursor reduces one stretch of the log that begins where the cursor allows |
| EventResume.AgentConversation.MarkDisconnected | apps/web/src/composables/useAgentConversation.ts:550-558 | changes the status only of a turn that has not ended and is not being cancelled |
| EventResume.AgentConversation.ReadBody | apps/web/src/composables/useAgentConversation.ts:515-528 | the read loop is the function `ConsumeIsReduceOfText` speaks of |
| EventResume.AgentConversation.ConnectStreamOnce | apps/web/src/composables/useAgentConversation.ts:485-548 | state and answer for every way a request can end; what status a body leaves is `StatusAfter` |
| EventResume.AgentConversation.Request | apps/web/src/composables/useAgentConversation.ts:465-480 | one round of the reconnect loop extends the stretch reduced so far, or ends the run |
| EventResume.AgentConversation.ConnectStream | apps/web/src/composables/useAgentConversation.ts:459-482 | from any state, with any cursor, for any failures and cuts: at most four requests, each made while streaming, and one stretch of the log reduced once; the final state is what was reduced, except that a refused stream is marked failed with its error and a lost one disconnected, the latter only after the fourth request. The stretch begins at the client's position, and reaches the end of the log if any response delivered it, unless a reconnect was made with nothing received by a client without the id before that position; then it begins where that client's id leads |
| EventResume.SettlingResponseIsLast | apps/web/src/composables/useAgentConversation.ts:465-476 | a response that delivers a completion, a pending interaction or an error new to the client is the last request, and the client ends completed or failed, neither streaming nor disconnected |
| EventResume.ReconnectIsLosslessExactlyWhen | apps/web/src/composables/useAgentConversation.ts:610-612 | for every position and every id a client may hold: the stream goes on at the position if and only if the id is that of the event before it, or there is no id and nothing has been written from there on |
| EventResume.StaleIdStarts | apps/api/src/risk_platform/agent/events.py:159-172 | any other id leads back to just after its event, and is refused if and only if it names none of the conversation |
| EventResume.ServerStartIsAllowed | apps/api/src/risk_platform/agent/events.py:158-182 | wherever the server starts a response is a start `ConnectStream` is proved for, however much is written afterwards |
| EventResume.RestoredClientReconnects | apps/web/src/composables/useAgentConversation.ts:348-351 | a restored client without an id reconnects losslessly until the next event is written, and skips that one afterwards |
| EventResume.SwitchedClientIsRefused | apps/web/src/composables/useAgentConversation.ts:316-352 | a client that switched conversations still holds an id of the other one, with which a reconnect is refused |
| EventResume.StaleIdRepeatsMessage | apps/web/src/composables/useAgentConversation.ts:413-420 | a client whose history went on without its stream adds a message a second time |
| EventResume.ReconnectBeforeFirstEventLosesIt | apps/api/src/risk_platform/agent/events.py:158-182 | a concrete first event that is then never shown, and the answer it completes is missing |
| Scheduler.SuccessesAreSpaced | apps/api/src/risk_platform/scheduler.py:244-268 | no attempt starts sooner than the interval after an earlier success finished |
| Scheduler.FailureIsRetried | apps/api/src/risk_platform/scheduler.py:248-266 | a failed action is attempted again in the next tick |
| Scheduler.NextAttemptIsPrompt | apps/api/src/risk_platform/scheduler.py:244-268 | with tick starts at most d apart, the next attempt after a success starts in the first tick at which the interval has passed, at most d late |
| Scheduler.Liveness.constructor | apps/api/src/risk_platform/scheduler.py:126-130 | no lock, no tick, never healthy |
| Scheduler.Liveness.SetLockHeld | apps/api/src/risk_platform/scheduler.py:132-134 | sets the flag and nothing else; without the lock never healthy |
| Scheduler.Liveness.RecordTick | apps/api/src/risk_platform/scheduler.py:136-144 | sets the time of the last tick and nothing else; with the lock healthy from then on up to the window after it, and no longer |
| Scheduler.Scheduler.constructor | apps/api/src/risk_platform/scheduler.py:192-212 | every action is due at first |
| Scheduler.Scheduler.FireOne | apps/api/src/risk_platform/scheduler.py:259-266 | an action is attempted if and only if it is due; only a success moves its last-run time, to a clock reading taken afterwards |
| Scheduler.Scheduler.FireDue | apps/api/src/risk_platform/scheduler.py:258-266 | a failure affects no other action; every action's due rule refers to the tick's one start time |
| Scheduler.Scheduler.TickOnce | apps/api/src/risk_platform/scheduler.py:244-268 | extends the history by one tick that obeys the due rule; no action starts when the ping does not return; afterwards healthy up to the window after its end and no longer |
| Scheduler.Scheduler.TickUntilStop | apps/api/src/risk_platform/scheduler.py:229-235 | ticks until stop, a lost ping or a cancellation, always as the active process of the lock |
| Scheduler.Scheduler.Run | apps/api/src/risk_platform/scheduler.py:214-242 | on every exit liveness is unhealthy and release was called once if and only if the lock was acquired; code 0 only when every tick up to the stop was done, code 1 only for a refused lock or a ping that raised, after the ticks before it; every tick begins and ends while the state machine of the lock has the process active, whatever others and the server do |
| Scheduler.AppendScheduled | apps/api/src/risk_platform/scheduler.py:258-266 | a tick fired by the due rule keeps the rule true of the whole history |
| Scheduler.AppendTimely | apps/api/src/risk_platform/scheduler.py:258-267 | a non-decreasing clock keeps the history in order of time |
| Scheduler.AcquireLockWithRetry | apps/api/src/risk_platform/scheduler.py:339-365 | the first answer is final, also a refusal; raises if and only if no attempt got one; the delays grow linearly and none follows the last attempt |
| SchedulerLock.RunKeepsInv | apps/api/src/risk_platform/scheduler.py:161-172 | in every run, whoever is active holds the lock or has lost its session |
| SchedulerLock.AtMostOneActive | apps/api/src/risk_platform/scheduler.py:214-242 | for any interleaving of any number of schedulers, lost sessions included, at most one is active whose session was never lost, and the lock is free once all have closed |
| SchedulerLock.StaysActive | apps/api/src/risk_platform/scheduler.py:214-242 | once granted, a process stays active until its own release, whatever others and the server do |
| SchedulerLock.PhasesOnlyAdvance | apps/api/src/risk_platform/scheduler.py:214-242 | in every run a process only goes from starting over active and closing to gone, so it is active at most once |
| SchedulerLock.ReleaseHandsOver | apps/api/src/risk_platform/scheduler.py:174-182 | a release by a holder that asked once leaves the lock free, and whoever asks next is granted it |
| SchedulerLock.SecondActiveExactlyWhen | apps/api/src/risk_platform/scheduler.py:161-172 | an acquire makes a second scheduler active if and only if no third one holds the lock, and then the first one's session was lost |
| SchedulerLock.RetriedAcquireIsFreedByClose | apps/api/src/risk_platform/scheduler.py:442-446 | a lock taken twice by a retried acquire outlives its unlock but not the close |
| SchedulerLock.LostLockAllowsTwoActive | apps/api/src/risk_platform/scheduler.py:253-257 | a concrete run in which that happens |
| Confirmation.ConfirmationService.Transact | apps/api/src/risk_platform/agent/confirmation.py:167-231 | the transaction body: outcome and audit context for every path, and on success the rows, the effect and the audit record |
| Confirmation.ConfirmationService.Confirm | apps/api/src/risk_platform/agent/confirmation.py:161-238 | a failed call leaves tokens and business state unchanged; every call but a crash adds exactly one audit record |
| Confirmation.ValidMeansFits | apps/api/src/risk_platform/agent/confirmation.py:109-147 | which fields a content of each operation must and may have |
| Confirmation.ContentMeans | apps/api/src/risk_platform/agent/confirmation.py:253-267 | the stored text is accepted if and only if it is the canonical form of a fitting content and carries the token's digest and operation |
| Confirmation.ExecutesExactlyWhen | apps/api/src/risk_platform/agent/confirmation.py:170-231 | for any token, used or not: the operation is carried out if and only if every check passes, it succeeds and the transaction commits |
| Confirmation.JudgeRepliesByCause | apps/api/src/risk_platform/agent/confirmation.py:170-238 | which cause gives which reply, each way, and no other code is given |
| Confirmation.AlreadyUsedExactlyWhen | apps/api/src/risk_platform/agent/confirmation.py:176-182 | the code for a used token is given if and only if its result was not recorded |
| Confirmation.JudgeRecordsReply | apps/api/src/risk_platform/agent/confirmation.py:222-237 | a use records the risk and the time cut to milliseconds and nothing else; a success is audited with the content's project, a failure with what was known of the token |
| Confirmation.FinishKeepsTokens | apps/api/src/risk_platform/agent/confirmation.py:214-231 | a finishing transaction leaves recorded results alone and gives a token an effect only with its use |
| Confirmation.FinishKeepsInv | apps/api/src/risk_platform/db.py:47-59 | commit or rollback keeps the invariant |
| Confirmation.BeginMeans | apps/api/src/risk_platform/agent/confirmation.py:240-251 | a confirmation is let in if and only if its token is known and its row not locked; otherwise the code of the cause is replied and audited and nothing else changes |
| Confirmation.BeginKeepsInv | apps/api/src/risk_platform/agent/confirmation.py:240-251 | the row lock lets one confirmation per token in |
| Confirmation.RunKeepsInv | apps/api/src/risk_platform/agent/confirmation.py:161-238 | so does every run |
| Confirmation.OneUseOverAnyRun | apps/api/src/risk_platform/agent/confirmation.py:161-411 | over any interleaving a token's operation is executed at most once, all successes go to its owner with one result, and the audit has one record per reply that is not a crash |
| Confirmation.ExecutesOverAnyRunExactlyWhen | apps/api/src/risk_platform/agent/confirmation.py:186-231 | in any run a finishing confirmation carries the operation out if and only if the caller owns the token, its stored text parses to a fitting content of which it is the canonical form, whose hash and operation are the token's, the token is unused and not expired, conversation, user, scope, permission and project are in order, the operation succeeds and the transaction commits; which cause gives which reply; what each reply leaves on the token and in the audit |
| Confirmation.ReplayOverAnyRun | apps/api/src/risk_platform/agent/confirmation.py:176-185 | in any run, after a success every later confirmation by the same caller that commits gives the very same reply, whatever has expired or been revoked, and executes nothing |
| Calendar.YearOf | apps/web/src/utils/calendar.ts:6-8 | the year whose days contain the day |
| Calendar.DatesAreCounted | apps/web/src/utils/calendar.ts:3-3 | the day after each date of the Gregorian calendar, by month lengths and leap rule, has the next day number |
| Calendar.DateIsValidExactlyWhen | apps/web/src/utils/calendar.ts:3-3 | a date is valid if and only if its day lies within its month |
| Calendar.EpochIsThursday | apps/web/src/utils/calendar.ts:4-4 | 1 January 1970 is a Thursday |
| Calendar.ThursdayCountIsIsoWeek | apps/web/src/utils/calendar.ts:4-7 | counting Thursdays from 1 January gives the week counted from the week of 4 January |
| Calendar.IsoLabelNamesWeeks | apps/web/src/utils/calendar.ts:2-9 | two days share an ISO label if and only if they lie in the same Monday-to-Sunday week (section 2.2.10 of ISO 8601:2004) |
| Calendar.IsoLabelMeans | apps/web/src/utils/calendar.ts:2-9 | a day has the ISO label of year y and week w if and only if its week's Thursday lies in y and its week begins w - 1 weeks after the one with 4 January of y |
| Calendar.MislabelledDates | apps/web/src/utils/calendar.ts:3-6 | the label computed is the ISO label if and only if the date is not in years 0 to 99 nor in the first three days of year 100 |
| Calendar.LabelsNameWeeks | apps/web/src/utils/calendar.ts:2-9 | for all other dates two days share the computed label if and only if they lie in the same week; weeks run from 1 to 53 |
| Calendar.TwoDigitYearsAreTwentiethCentury | apps/web/src/utils/calendar.ts:3-6 | a date of the years 0 to 99 is labelled as the same date of 1900 to 1999 |
| Calendar.YearHundredStartsNegative | apps/web/src/utils/calendar.ts:6-7 | the first three days of year 100 are labelled with year 99 and week -99085, where week 53 is right |
| Calendar.CurrentWeekLabel | apps/web/src/utils/calendar.ts:2-9 | the computation step by step gives the label the lemmas speak of, right exactly for those dates |

## Left out

Cryptography, parsers and services appear as parameters of arrow type with their laws as
explicit hypotheses, never as assumptions of the verifier:

- AES-GCM is `Aead`: reading back needs only that it opens what the backup sealed (`Opens`), which a correct cipher (`Correct`) and the ideal one (`Ideal`) both give; what is accepted needs `Ideal`; sha256 is an injective function, JSON a pair of functions of which a re-serialised header reads back and no strict prefix of a manifest parses; base64, key rings and DEK unwrapping are one function.
- A random base nonce that repeats across components is not excluded; the results do not need it to be.
- The token estimator is any function that is monotone in UTF-8 length and 0 for the empty text; the provider-specific ones are not modelled.

Conversation memory:

- ConversationMemory.FromBudget: takes the ratios 0.85 and 0.5 exactly instead of in binary floating point.
- ConversationBuild.Conversation.Load: takes its three reads as one, because messages below the current one never change; the foreign-conversation check is the look-up in this conversation's messages.
- Active-project look-up, the active project in the returned context, timestamps and log lines.
- Strings are sequences of Unicode scalar values; a lone surrogate, which Python cannot encode either, cannot occur.

Encrypted container and restore:

- Which exception a malformed artifact raises: every failure of the reader is one rejection. The length check of the key.
- FileSystem.AbsolutePlace: like every statement about places, takes directories as having no links; names with a zero byte or too long for the file system are not considered.
- ArtifactFiles.Decrypt: reads the artifact as it was when opened, also when a component name leads to the artifact itself; a place that cannot be opened is a rejection like any other.
- Restore.RunRestore: takes every rejection as part of the outcome, where malformed JSON, text that is not ASCII and file-system errors in the reader escape as exceptions of their own; the clean-up is taken to succeed.
- Restore.Apply: takes what probing the database, `pg_restore` and archive extraction yield as parameters.
- Reconcile.Storage.ReconcileFiles: takes paths as resolved already, without links or `..`; of file-system errors only undeletable files and directories that cannot be removed.

Event stream:

- The replacement of malformed UTF-8 by U+FFFD (the server sends well-formed text), the building of the request address, delays, and everything else of the composable.
- Display labels of error codes are a function parameter.

Scheduler and confirmation:

- Scheduler.Scheduler.Run: is given when stop is requested; runs that are never stopped are covered only up to any tick. Action names are distinct, as in production (two actions of one name would share a last-run time).
- The HTTP probe, reading cadence from the environment, the wiring of `async_main`; `connect_with_retry` has the shape of `AcquireLockWithRetry`.
- Confirmation.ConfirmationService.Confirm: takes the business operation as one atomic effect with four outcomes; a failure to write the failure record itself is not modelled.
- Confirmation.OneUseOverAnyRun: starts from freshly issued tokens and does not model issuing them.

Calendar:

- Daylight saving and time zones: dates are day numbers.

Everything else in the repository (keyword heuristics, routers, configuration, the other
services and migrations) is thin where it is not input and output.
