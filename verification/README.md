# Backuper: a verified model

Backuper is a pull-mode backup engine. A server compares its index with a listing of the client,
downloads new and changed files through a pool of workers (resuming partial files, sending block
deltas for changed ones), moves vanished files to a versioned trash, and repeats until nothing
differs. This project models those parts in Dafny and proves what they keep.

Verify it with `dafny verify dfyconfig.toml`.

## What is modelled

| module | part of the system |
|---|---|
| `Wire`, `Messages` | the binary codec and the frames of the protocol |
| `Layout`, `Inverse` | what they look like byte by byte; what parses is what was written |
| `Delta` | block hashes, the client's keep-or-literal answer, the server's replay of it |
| `Resume` | the partial file, its description and the target, over runs of interrupted attempts |
| `Serving` | the client's `handleGet` and `handleDelta` |
| `GetRules`, `DeltaRules` | when an attempt succeeds, what it writes and what it leaves unread, for all answers and failures |
| `Download` | the server's `downloadOne` and `deltaDownload`, step by step |
| `Attempts`, `Undrained`, `StaleRuns` | attempts in a row: retries and cuts, undrained connections, descriptions that stay |
| `Restore` | `sendRestoreFile` against `handlePut` |
| `Tables`, `Cycle` | the tables, the SQL diff, and the pass loop of `RunCycle` |
| `Queue`, `Pool`, `Worker` | the worker pool and the task table, as a state machine and as methods; a worker's task down to the disk |
| `TrashPaths`, `Trash`, `TrashCuts` | the versioned trash, its rows and its files; moves stopped halfway |
| `TrashAttempts`, `Trashing` | failing moves in a row, and the trasher's methods in batches |
| `Listing` | the client's walk in batches and the streamed load of it |
| `Scheduler`, `RateLimit`, `Peak` | the trigger chain, the token bucket, the compare-and-swap maximum |
| `Paths` | path cleaning and the safe join |
| `Basics`, `Frames` | shared types |

Code that works step by step is modelled as classes and loops, each proved against a function or a
declarative predicate; concurrency is a state machine whose runs are all interleavings. Disk errors,
lost connections and the client's read errors are inputs (`Faults`, `DeltaFaults`, `Read`), so each
result holds for every combination of them. A crash is covered by the recorded trace: every disk
state an attempt passes through is a state a crash can leave, and a crash inside a write leaves the
state of the attempt whose write fails at that byte.

## What the proofs found

- A changed file whose spelling changed too is never repaired: its old row shares the key, so every
  pass enqueues it again (`Cycle.StaleNeverConverges`), and the cycle still reports OK
  (`Cycle.ReportedOKIff`), although тз.md:281 asks for PARTIAL while differences remain.
- A task left over from an aborted cycle is worked off even if its file is no longer listed. When the
  first pass finds nothing else to do, the loop ends with a row that nothing listed and reports OK
  (`Cycle.LeftOverExample`); a left-over task for another spelling can bring in a stale row. `Cycle.CycleEnds`
  gives the exact condition.
- A delta cannot be resumed. Where it works, an attempt succeeds exactly when its connection carries the
  whole answer; a lost connection throws away what earlier full downloads had saved, and a file that no
  connection carries whole is never updated, for any number of attempts (`Attempts.CutRetry`).
- A local disk error after the announcement keeps the connection with unread frames on it
  (`GetRules.LeavesFramesIff`, `DeltaRules.LeavesDeltaFramesIff`), and `ReadExpect` turns a misplaced
  frame into an error that keeps it too. The connection falls behind for good, and later files are
  stored with the content of earlier ones, for every retry count (`Undrained.WrongContentStored`,
  `Undrained.OtherPathIff`).
- Ignored errors of writing or removing the description of a partial file can complete a file with
  bytes of another version: exactly when bytes are written beside a description that stayed and begin
  no version it describes (`Download.Manager.FetchHonest`, `Download.Manager.DeltaHonest`,
  `Restore.SendRestoreFile`). `StaleRuns` holds a run of each kind.
- When the source shrinks below the saved bytes and no delta works (no stored copy of the configured
  size, deltas off or not supported, too many hashes), no number of attempts helps (`Attempts.Retry`).
- A directory the walk cannot read is passed over and the listing is still complete for the server:
  its files go to the trash; an unreadable backup directory sends everything there
  (`Listing.UnreadableRootTrashesAll`).
- Two missing index rows of one key in different batches leave a stored file with no row anywhere
  (`Trashing.BatchedEqualsOneShotIff`, `Trashing.TwinIsLeftBehind`).
- A move cut between the file and its row loses the file two moves later
  (`TrashCuts.CutBetweenMoveAndInsertLoses`); after a crash while the previous version is renumbered the next
  cycle heals it (`TrashCuts.RetryRecoversIff`).
- A move that fails with an error is not tried again: its index row is dropped, and the file stays in the
  storage, or in the trash, with no row at all (`TrashCuts.FailedLeaves`). The same goes for an expired file
  that cannot be removed (`Trashing.CleanupKeepsInvIff`).
- A crash between counting a failed attempt and deciding on it leaves the task failed, which the
  restart does not revive (`Queue.CrashStrandsIff`).
- A trigger during the last cycle before cancellation is lost (`Scheduler.TriggerIsLostIff`).
- `SafeJoin` refuses every path but "." under the root "/" (`Paths.SecondCheckIsRedundantIff`), and
  `CleanRel` is idempotent except on paths that begin with two slashes.

## Model

| member | source | states |
|---|---|---|
| Resume.ResumeSafety | internal/transfer/transfer.go:373-523 | over every run of attempts, each stopped by an error or crash in any state it passes through: a non-empty partial file with a readable description is a prefix of the version described, and the target is the copy from before the run or one complete client version |
| Resume.AttemptKeepsSafe | internal/transfer/transfer.go:401-429 | one attempt, stopped anywhere, keeps that, given that size and time within the tolerance identify content |
| Resume.CompletionIsExact | internal/transfer/transfer.go:402-448 | saved bytes completed to the announced size by bytes of the current version are that version |
| Resume.LookalikeMixes | internal/transfer/transfer.go:403 | for every pair of versions equal in size and close in time but different, some interruption makes the resumed file differ from the second |
| Resume.PassKeepsSafe | internal/transfer/transfer.go:401-429 | bytes beside a description that stayed leave every state safe if they are none or begin a version it describes |
| Resume.LeftoverMetaMixes | internal/transfer/transfer.go:413 | a description beside the first bytes of another version is not safe, and the version described, when it returns, is completed from them wrongly |
| Serving.HandleGet | internal/client/fileserver.go:65-122 | the answer is fixed by the reads: the announced size and time, data frames no longer than a chunk with exactly the bytes of the reads up to the first that ends or fails, or to the last byte asked for, and then an error if and only if that read failed, otherwise the end marker; BAD_OFFSET exactly when the file is shorter than the offset |
| Serving.StreamFile | internal/client/fileserver.go:96-121 | the chunk loop sends exactly the bytes of the reads up to the one that ends it, and says of that one whether it failed |
| Serving.CutIsAnswer | internal/client/fileserver.go:87-121 | an answer cut anywhere is still an answer about the same version |
| Serving.HandleDelta | internal/client/fileserver.go:128-181 | exactly the announcement, one frame per readable block, keep or literal, in order, and then the end marker, or an error in place of the first block that cannot be read; a zero block size is refused |
| Serving.StreamBlocks | internal/client/fileserver.go:154-179 | the block loop yields the frames of the blocks that could be read, and fails exactly when one could not |
| Serving.CutIsDeltaAnswer | internal/client/fileserver.go:150-180 | a delta answer cut anywhere is still one about the same version |
| Download.Manager.Receive | internal/transfer/transfer.go:431-475 | the receive loop reaches the end marker exactly when no data frame before it is cancelled, torn or one too many; stopped or not it has appended exactly the bytes of the frames taken whole and the written piece of a torn one, unless they overrun; it keeps the connection with frames unread exactly when Strands says so |
| Download.Manager.OpenPart | internal/transfer/transfer.go:413-429 | describing and opening the partial file keeps the saved bytes; it fails only by a disk error |
| Download.Manager.Finish | internal/transfer/transfer.go:476-522 | the end succeeds exactly when the size is the announced one and no step fails; then the target is the partial file, indexed and done; otherwise index and task are as before, and the final disk is the one the first failing step leaves |
| Download.Manager.Fetch | internal/transfer/transfer.go:373-523 | a GET attempt for all frames on the connection and all failures: it succeeds exactly when no step fails and it accepts them, and has then stored the saved bytes plus the received ones, and reports the number of the latter; the final disk in every other case; when it drops the connection, and when it keeps frames unread; answered honestly every disk state is one resuming allows, but for bytes beside a description that stayed |
| Download.Manager.FetchHonest | internal/transfer/transfer.go:401-429 | answered honestly on a drained connection, every disk state is safe if and only if no byte is written, or no description stayed because of an ignored error, or the bytes begin a version it describes |
| Download.Manager.WhatGetLeaves | internal/transfer/transfer.go:401-523 | in sizes, times and bytes, for every step that fails before or after the data: bytes saved of another size, or a time beyond the tolerance, bytes too many and an end at another size throw partial file and description away; whatever else goes wrong keeps all bytes, described as announced; the connection is dropped exactly for another version, bytes too many, its loss and a misplaced frame |
| Download.Manager.WhatAStopLeaves | internal/transfer/transfer.go:436-463 | an attempt stopped in a data frame keeps the frames before it: a cancellation drops the connection, a failed write keeps it, and what it wrote of the frame |
| GetRules.LeavesFramesIff | internal/transfer/transfer.go:390-465 | answered honestly, frames stay unread exactly when opening the partial file fails in front of them or a write error tears a data frame that is not the last to arrive |
| GetRules.SuccessIsExact | internal/transfer/transfer.go:402-494 | an honest answer that is accepted completes the saved bytes to exactly the client's version and is used up |
| Download.Manager.TakeBlock | internal/transfer/transfer.go:595-632 | one block frame appends the block it stands for, or stops the attempt, exactly as the replay says |
| Download.Manager.BlockLoop | internal/transfer/transfer.go:590-632 | the block loop runs through exactly when all blocks can be replayed undisturbed; stopped or not the partial file is the replay up to the block it stopped at and what was written of that one |
| Download.Manager.FinishDelta | internal/transfer/transfer.go:640-668 | rename, index and done exactly when no step fails, and otherwise the final disk the first failing step leaves |
| Download.Manager.DeltaDownload | internal/transfer/transfer.go:530-669 | falls back exactly on too many hashes, an unreadable old copy or UNSUPPORTED, changing nothing; otherwise succeeds exactly when the replay does and no step fails, bytes reported being the literal ones and bytes saved the copied ones, together the size of the new file; the final disk wherever it stops, and when it drops the connection or keeps frames unread, for all frames and failures; answered honestly with no hash collision the target is the client's version |
| Download.Manager.DeltaHonest | internal/transfer/transfer.go:577-669 | answered honestly on a drained connection, every disk state is safe if and only if nothing is rebuilt beside a description that could not be removed, unless it begins a version so described |
| Download.Manager.WhatDeltaLeaves | internal/transfer/transfer.go:575-669 | for every step that fails before or after the blocks: whatever stops a delta leaves the blocks rebuilt so far with no description, but a failing stat throws them away; the connection is dropped exactly for its loss and a misplaced frame; otherwise they become the target |
| DeltaRules.LeavesDeltaFramesIff | internal/transfer/transfer.go:579-632 | answered honestly, frames stay unread exactly when opening the partial file, reading an old block or writing a block fails in front of them |
| DeltaRules.WholeDelta | internal/transfer/transfer.go:590-669 | the whole answer of a client with no hash collision is accepted when no step fails |
| DeltaRules.CutDelta | internal/transfer/transfer.go:577-632 | cut anywhere behind its announcement, a delta answer is not accepted, and the partial file holds the blocks that arrived, with no description |
| DeltaRules.SavedIsCopied | internal/transfer/transfer.go:662-665 | total less literal bytes is the bytes kept and never negative, so the guard is dead |
| Download.Manager.DownloadOne | internal/transfer/transfer.go:357-523 | for any disk, any unread frames, any answers and failures: delta or full download, when exactly it succeeds, what it then stores or otherwise leaves on the disk, and when exactly the connection is left drained or dropped; a path outside the root is skipped untouched; otherwise the file is to be skipped if and only if the first frame of the reply that decides the attempt is ERROR(NOT_FOUND), and any other ERROR there fails the attempt with its code, keeping disk and connection; on a drained connection to a client that answers about its version w, a success means the target is exactly w, indexed, done, no partial file, connection drained, and every disk state is safe if and only if no byte is written beside a description of another version |
| Attempts.UndisturbedSucceedsIff | internal/transfer/transfer.go:401-412 | with a whole answer and no failure an attempt succeeds exactly when the saved bytes fit the version, and otherwise throws them away |
| Attempts.CleanAttempt | internal/transfer/transfer.go:364-412 | one failure-free attempt: it succeeds exactly when the delta works or the saved bytes fit the version, and otherwise leaves the disk as it was (longer than the source) or emptied |
| Attempts.Retry | internal/transfer/transfer.go:364-412 | two or more failure-free attempts succeed exactly when the saved bytes are no longer than the current file or the delta works; otherwise nothing ever changes |
| Attempts.CutAttempt | internal/transfer/transfer.go:364-632 | one attempt whose connection carries a given number of frames, no other step failing: if the delta works it succeeds exactly when they are all of its answer, and otherwise leaves the blocks that arrived with no description; if not, the full download succeeds, starts over, or has saved more bytes of the version; the stored copy, the index and the task change only with success |
| Attempts.CutRetry | internal/transfer/transfer.go:317-632 | for any sequence of such connections: if the delta works, the attempts succeed exactly when one of the connections carries the whole answer, and otherwise the description of anything saved before is gone; if not, the file is complete after at most two attempts more than the bytes still missing (one if the saved ones fit), or never, with nothing changed, when the source is shorter than the saved bytes |
| Undrained.OneBehind | internal/tlsconn/conn.go:51-65 | on a connection that holds another path's whole answer in front, the next download of a file with nothing saved succeeds with that content and leaves what is behind it |
| Undrained.TakeNext | internal/transfer/transfer.go:385-390 | an attempt takes what is next on the connection: a frame of another answer fails it without dropping the connection, a whole answer is stored |
| Undrained.OtherPathIff | internal/transfer/transfer.go:317-330 | for every retry count: what was asked for as many attempts earlier as frames were left is another path in every attempt behind the first success, and in that one exactly when the retries ended before it |
| Undrained.WrongContentStored | internal/transfer/transfer.go:418-421 | for any files of which nothing is saved and any retry count: after one failure to open the partial file as many attempts fail as that answer had frames left, and each later attempt stores, indexes and marks done the content asked for that many attempts earlier |
| StaleRuns.StaleFetch | internal/transfer/transfer.go:413-463 | two cut downloads, the second with a failed write of the description, reach an unsafe disk, and the third, in which nothing fails, stores a mixture |
| StaleRuns.StaleDelta | internal/transfer/transfer.go:575-632 | the same by a delta whose removal of the description fails and which is cut behind its first block |
| StaleRuns.StalePut | internal/client/fileserver.go:205-236 | the same for a restore: one that is cut, one whose removal of the old bytes and then opening of the partial file fail, and a third one of the same version in which nothing fails and which reports success |
| Restore.ChooseOffset | internal/client/fileserver.go:205-217 | the offset answered is the saved length or 0 and never above the announced total |
| Restore.OpenAt | internal/client/fileserver.go:222-236 | reception starts at exactly the answered offset, and every state up to it is safe if and only if no old bytes that could not be removed come to stand beside the description of another version |
| Restore.ReceivePut | internal/client/fileserver.go:238-299 | from there on every state is safe if and only if the bytes received stand beside no description that stayed, or begin a version it describes; the final disk wherever reception stops |
| Restore.FinishPut | internal/client/fileserver.go:275-299 | status 0 exactly when the size is the announced one and no step fails; the final disk in every case |
| Restore.SendRestoreFile | internal/server/restore.go:167-237 | for any disk: the transfer succeeds exactly when all bytes arrive and no step fails, and the client's file is then the server's exactly when the bytes kept begin it; the final disk wherever it stops; from a safe disk, success means equal files and every state is safe if and only if both conditions above hold; both sides work from the same offset, so the sender's reset is never taken |
| Restore.WhatPutLeaves | internal/client/fileserver.go:205-299 | in sizes, times and bytes, for every step that fails before or after the data: which saved bytes are continued, which thrown away; what stops the reception keeps everything received, described as announced, unless the end came at another size or the size cannot be found out; success exactly with all bytes, the end marker and no failing step |
| Restore.TakenIsExact | internal/client/fileserver.go:205-299 | what the client took for the file is the bytes kept and the server's bytes behind them, which is the server's file if and only if the bytes kept begin it |
| Delta.DeltaRebuildsNew | internal/transfer/transfer.go:590-649 | for all old and new contents, every block size and every hash: the replayed answer is the new content if and only if no block collides harmfully |
| Delta.DeltaIsExact | internal/client/fileserver.go:154-180 | with a collision-free hash the replay is always the new content |
| Delta.PieceIsBlock | internal/client/fileserver.go:166-178 | the frame for block i restores block i exactly when that block does not collide |
| Delta.SavedIsNotNegative | internal/transfer/transfer.go:592-665 | whatever frames are accepted, literal and kept bytes add up to the new size |
| Delta.IdenticalCostsNothing | internal/client/fileserver.go:166-170 | an identical file costs no literal bytes |
| Delta.AppendCost | internal/client/fileserver.go:154-179 | an append costs at most the new size less the full blocks of the old file |
| Delta.HashBlocks | internal/transfer/transfer.go:544-556 | the hash loop yields the hash of every block of the old copy, the short last one included |
| Messages.CodecRoundTrip | internal/protocol/messages.go:20-317 | for every message and suffix: parsing the encoding followed by the suffix gives the message back if and only if its lengths fit their fields |
| Messages.ParseInvertsEncode | internal/protocol/messages.go:82-114 | within the limits, parsing inverts encoding whatever follows |
| Messages.ParsedIsWithinLimits | internal/protocol/messages.go:98-114 | whatever a parse returns fits its length fields |
| Inverse.ParsedIsEncoded | internal/protocol/messages.go:20-317 | whatever parses, of any kind and from any payload, begins with the encoding of what it is parsed as (but that a batch flag above 1 reads as unset) |
| Inverse.CutIsRefused | internal/protocol/messages.go:20-317 | every message cut short at any byte is refused |
| Messages.GuardedHashRequestFits | internal/transfer/transfer.go:533-537 | a download falls back for size exactly when the encoded hash request comes within 4 bytes of the frame limit (else only for an unreadable old copy or UNSUPPORTED), and every request that is sent reads back under that limit |
| Messages.GuardIsFrameLimit | internal/transfer/transfer.go:533-537 | the size guard, for every path, file size and block size, by the length of the request it stands for |
| Messages.DeltaIsUsedIff | internal/transfer/transfer.go:364-371 | a download is a delta exactly when deltas are on, the stored copy has the configured size, the encoded request stays 4 bytes within the frame limit, the copy can be read and the client does not answer UNSUPPORTED |
| Layout.EncodeIsLaidOut | internal/protocol/messages.go:20-317 | the payload of every message, field by field, with every number most significant byte first and every string behind its length in 4 bytes |
| Messages.EncodeListBatchLoop | internal/protocol/messages.go:82-96 | the builder loop writes the encoding of the batch |
| Messages.EncodeDeltaReqLoop | internal/protocol/messages.go:211-220 | the builder loop writes the encoding of the hash request |
| Messages.EncodeDiskRespLoop | internal/protocol/messages.go:270-279 | the builder loop writes the encoding of the mounts |
| Messages.ParseListBatch | internal/protocol/messages.go:98-114 | the scanner loop computes the parse of a batch |
| Messages.ParseDeltaReq | internal/protocol/messages.go:222-240 | the scanner loop computes the parse of a hash request |
| Messages.ParseDiskResp | internal/protocol/messages.go:281-297 | the scanner loop computes the parse of the mounts |
| Wire.ReadsAdvance | internal/protocol/protocol.go:206-283 | no read passes the end of the payload, and the first error sticks |
| Wire.StrRoundTrip | internal/protocol/protocol.go:198-201 | a string within its u32 length reads back, whatever follows |
| Wire.I64RoundTrip | internal/protocol/protocol.go:197-261 | a signed 64-bit value reads back through its unsigned form |
| Wire.FrameRoundTrip | internal/protocol/protocol.go:141-180 | a frame within the limit reads back and leaves the rest of the stream |
| Layout.FrameIsRead | internal/protocol/protocol.go:159-180 | whatever the stream: a header cut short, another version, a length beyond the limit and a payload cut short are refused, in this order; otherwise type and payload are taken and the rest is left |
| Layout.FrameIsLaidOut | internal/protocol/protocol.go:141-155 | a frame is version 1, the type, the length in 8 bytes most significant first, and the payload |
| Wire.FramesRoundTrip | internal/protocol/protocol.go:141-180 | a concatenation of frames reads back as the same list if and only if every payload is within the limit |
| Wire.CutStreamDeliversPrefix | internal/protocol/protocol.go:159-180 | a stream cut at any byte delivers a prefix of the frames, and a cut inside a frame is reported |
| Wire.Stream.Write | internal/protocol/protocol.go:141-155 | writing appends the frame's bytes |
| Wire.Stream.Read | internal/protocol/protocol.go:159-180 | reading takes one frame off the stream or reports why not |
| Wire.Builder.Str | internal/protocol/protocol.go:198-201 | the builder appends the length and the bytes |
| Wire.Scanner.Str | internal/protocol/protocol.go:273-281 | the scanner reads what the string reader says |
| Tables.DiffMembers | internal/store/diff.go:36-48 | the diff holds exactly the listed files the statement selects, each new or differing from some row of its key (Tables.TaskIffChanged says it in sizes and times) |
| Tables.TaskIffChanged | internal/store/diff.go:36-48 | in sizes, times and statuses: a path gets a new task if and only if a listed file of it has a key that is not indexed, or a row of its key with another size or a time further off than the tolerance, and no task of it is pending, in progress or skipped in this cycle; the task is pending, of this cycle, with the listed size, and no old task changes |
| Tables.NewFilesMembers | internal/store/diff.go:21-31 | the files counted as new are the listed ones whose key no row has |
| Tables.EnqueueKeepsUnique | internal/store/diff.go:36-54 | one statement keeps one runnable task per path if and only if no unblocked listed file joins two differing rows |
| Tables.EnqueueUniqueWithUniqueKeys | internal/store/diff.go:36-54 | with one index row per key it always does |
| Tables.EnqueueKeepsIds | internal/store/diff.go:38-48 | new tasks have new, growing ids |
| Tables.DedupKeepsFirsts | internal/store/diff.go:90-99 | what remains of the listing is exactly the first row of every key |
| Tables.DedupUnique | internal/store/diff.go:90-99 | keys are unique afterwards |
| Tables.DedupKeys | internal/store/diff.go:90-99 | no key is lost |
| Tables.UpsertMembers | internal/store/store.go:105-112 | an upsert replaces the row of that spelling and touches no other |
| Tables.ListedMembers | internal/store/diff.go:113-118 | the rows left by the trash step are exactly those whose key is listed |
| Cycle.CycleEnds | internal/server/cycle.go:173-219 | against an unchanging source, whatever tasks were left over, the cycle ends with the index in step if and only if, once those tasks are worked off, no row of a listed key differs under another spelling, and not (one of those tasks is for a file whose key is not listed, and the first pass is the last: quiet, or the only one allowed); it never fails and leaves nothing runnable |
| Cycle.PassesUsed | internal/server/cycle.go:173-219 | the exact number of passes: one if the first is quiet, else all allowed if a row is stale, else three if left-over tasks brought in unlisted files, else two |
| Cycle.InStepAfterPass | internal/server/cycle.go:179-207 | after one pass every listed file has rows of its key, all of its size and within the tolerance of its time, and no other key is indexed, exactly when the left-over tasks leave no stale row and bring in no unlisted key |
| Cycle.SecondPass | internal/server/cycle.go:173-219 | the next pass moves something to the trash exactly when left-over tasks brought in an unlisted key, and enqueues nothing exactly when no row is stale |
| Cycle.StaleNeverConverges | internal/store/store.go:105-112 | a row that is stale, or made so by a left-over task, stays stale and makes every later pass enqueue something, for any number of passes |
| Cycle.FailedListingChangesNothing | internal/server/cycle.go:179-198 | a cycle fails exactly by its last listing, reports FAILED exactly then, and leaves index and tasks as the passes before left them, so a listing cut short trashes nothing |
| Cycle.NewCycleIsReady | internal/server/cycle.go:179-190 | a new cycle with an honest listing meets the hypotheses of the results about convergence, whatever tasks are left over |
| Cycle.WhatACycleDecides | internal/server/cycle.go:173-229 | whatever its listings say and wherever one fails: if the first loads, every left-over task ends done or skipped, by whether the source has its file; the cycle counts exactly the tasks it has skipped, over all passes; it reports OK if and only if no listing failed, it has skipped none and none is left, and FAILED if and only if one failed |
| Cycle.InStepIffDiffEmpty | internal/store/diff.go:21-31 | with nothing left to trash, being in step means exactly that the diff selects nothing |
| Cycle.RespelledFileExample | internal/store/diff.go:41-42 | the stale case exists and meets the other hypotheses |
| Cycle.LeftOverExample | internal/client/fileserver.go:65-80 | a task left over for a file that is no longer listed: the first pass is quiet, the cycle reports OK, and the index holds a row nothing listed, whatever the pass limit |
| Cycle.ReportedOKIff | internal/server/cycle.go:224-229 | the cycle reports OK if and only if the source has a file for every task left over from before; whether it converged, which has a different condition, makes no difference |
| Cycle.Server.CountNewChanged | internal/store/diff.go:21-31 | the new ones are the listed files whose key is not indexed, and new plus changed is the number of rows the diff selects |
| Cycle.Server.EnqueueDiffDownloads | internal/store/diff.go:36-54 | the task table grows by exactly the tasks of Tables.TaskIffChanged, judged against the tasks from before |
| Cycle.Server.DedupClientFiles | internal/store/diff.go:90-99 | the listing keeps the first row of each key |
| Cycle.Server.MoveDeletedRows | internal/trash/trash.go:110-134 | the index keeps the rows whose key is listed, and the count is of the others |
| Cycle.Server.RunDownloadQueue | internal/transfer/transfer.go:135-192 | every runnable task ends done with its file indexed, or skipped when the source lacks it, and the skipped ones are counted |
| Cycle.Server.RunPass | internal/server/cycle.go:179-207 | one pass as the pass function says |
| Cycle.Server.RunCycle | internal/server/cycle.go:173-219 | the pass loop, stopped by a failed listing, a quiet pass or the pass limit, with the tasks skipped in all passes |
| Queue.PageIsNext | internal/store/tasks.go:64-72 | a page holds eligible tasks in order and skips none below its end unless it is full |
| Queue.HandedOutOnce | internal/transfer/transfer.go:154-181 | in every interleaving tasks are handed out in order, so none twice, only runnable ones, and busy workers hold different tasks and, with unique runnable paths, different paths |
| Queue.UndisturbedRunFinishesAll | internal/transfer/transfer.go:135-192 | if a run returns no error (no lost connection, failed page query or cancellation) every task that was runnable has been handed out and ends done or skipped, the others are untouched, and the result counts exactly them |
| Queue.ReturnedByEvents | internal/transfer/transfer.go:183-192 | the error a run returns, by what happened in it: a lost connection before a failed page query before a cancellation, and none without them |
| Queue.AbortedRunLosesNothing | internal/transfer/transfer.go:277-341 | however a run stops, once no worker holds a task every task that was runnable is done, skipped or runnable again |
| Queue.CrashStrandsIff | internal/store/tasks.go:93-126 | after a crash in any reachable state and a restart, a task that was runnable is done, skipped or runnable again if and only if no worker was between counting its failed attempt and deciding on it |
| Queue.EndOfCycleLeaves | internal/server/cycle.go:231-234 | the end of a cycle leaves exactly the tasks pending or in progress |
| Queue.AttemptsAreBounded | internal/transfer/transfer.go:317-330 | a task fails at most the retry count less its earlier attempts, or once, and a restart does not forget its attempts |
| Queue.NeverStuck | internal/transfer/transfer.go:194-212 | until every worker has left some step is possible |
| Queue.RunsAreFinite | internal/transfer/transfer.go:226-272 | every run is finite, with a bound fixed by tasks, workers and retry count |
| Queue.RunnableStaysUnique | internal/store/tasks.go:93-156 | one runnable task per path stays so in every state, after a crash and restart there, and after the end of the cycle |
| Queue.HistoryStaysUniqueIff | internal/store/diff.go:36-54 | over any history of enqueue statements, runs complete or crashed anywhere, restarts and ends of cycles: one runnable task per path in every table so far if and only if no enqueue statement joined an unblocked listed file with two differing index rows |
| Pool.Manager.ListRunnableTasksPage | internal/store/tasks.go:64-72 | the page is the first `limit` runnable tasks with a larger id |
| Pool.Manager.ResetStaleInProgress | internal/store/tasks.go:93-96 | running tasks become pending, no other row changes |
| Pool.Manager.DeleteTasksByStatus | internal/store/tasks.go:153-156 | exactly the rows of that status go |
| Pool.Manager.ClearQueue | internal/server/cycle.go:231-234 | the three deletions at the end of a cycle |
| Pool.Manager.IncTaskAttempt | internal/store/tasks.go:117-126 | the attempt is counted and the task failed, a step of the state machine |
| Pool.Manager.FailAttempt | internal/transfer/transfer.go:317-341 | it stops exactly when attempts are used up (skipped) or the pause is cancelled (pending again); otherwise the worker goes on |
| Pool.Manager.ProcessTask | internal/transfer/transfer.go:226-272 | all it does are steps of the state machine; all attempts but the last are broken, and the last decides: done, skipped as missing, or skipped with exactly the allowed tries used up; only a cancelled run leaves the task in the queue; no attempt is made without a connection or on one that an earlier attempt has given up |
| Worker.ProcessTask | internal/transfer/transfer.go:226-272 | processTask over downloadOne, with a client that answers about its current version each time, any cuts, read errors and refusals, any failing steps but those that leave frames unread or a description unnoticed, any retries and cancellation: the table says done exactly when the file is stored, indexed as the version of the last attempt; the task is otherwise skipped, or still in the queue of a cancelled run; a missing file ends it skipped after one try, any other refusal is tried again while attempts are left, and it is skipped for no other reason than a missing file or used-up attempts; every attempt keeps the disk safe and the connection is drained for the next task; a connection that carried no answer is not used again |
| Worker.Attempt | internal/transfer/transfer.go:240-253 | one such attempt keeps every disk state safe and the connection drained or dropped, and success stores the client's version; a refusal that arrives fails it, to be skipped exactly if the file is missing; without any answer it fails and drops the connection |
| Worker.CleanDrains | internal/transfer/transfer.go:364-523 | answered honestly on a drained connection, an attempt in which no local step fails in front of frames on their way drains or drops it |
| TrashPaths.SlotShape | internal/trash/trash.go:77-91 | a path is some file's numbered slot if and only if it looks like one |
| TrashPaths.SlotInjective | internal/trash/trash.go:77-91 | different files and versions never share a slot, for paths that do not look like slots |
| TrashPaths.SlotLookalikeCollides | internal/trash/trash.go:77-83 | every path that looks like a slot does collide |
| Trash.NextVersionSlotIsFree | internal/trash/trash.go:162-178 | the slot of the next version holds nothing, so the delete-destination branch of moveFile never fires there |
| Trash.VacateKeepsLedger | internal/trash/trash.go:160-182 | renumbering and moving the canonical copy changes neither what was trashed nor when |
| Trash.MoveOneAppends | internal/trash/trash.go:138-199 | a move appends one entry with the file's content and keeps rows and disk in step |
| Trash.DropRowRemoves | internal/trash/trash.go:214-224 | expiry of a row removes its entry and nothing else |
| Trash.ExtractMarks | internal/trash/trash.go:217-219 | a file taken out by hand makes its entry absent and touches no other |
| Trash.PurgeFilters | internal/trash/trash.go:203-232 | a cleanup removes exactly the entries older than the cutoff |
| Trash.RunRefinesLedger | internal/trash/trash.go:95-232 | over any sequence of moves, cleanups and removals the trash behaves as an append-only ledger, with the invariant kept |
| Trash.NothingLostBeforeExpiry | internal/store/trashstore.go:33-36 | content once trashed, whose own row nobody takes out, is on disk in the slot of its row until it is older than a cutoff, whatever happens to other files |
| TrashCuts.CutKeepsInvIff | internal/trash/trash.go:138-199 | for every state, path and cut of moveOne: rows and disk stay in step if and only if the cut is not between a move of a file and the change of its row |
| TrashCuts.RetryRecoversIff | internal/trash/trash.go:148-153 | after a crash the next cycle tries the move again: that restores the invariant with one entry for the file if and only if the crash was not between the move into the canonical slot and the insert |
| TrashCuts.FailedLeaves | internal/trash/trash.go:118-125 | what a move that returns an error leaves, per step it stops at: no index row of the key; the file in the storage exactly when it was not moved yet; rows and disk in step if and only if no trashed file lost its row, and then the same entries as before |
| TrashCuts.LaterMoveRecoversIff | internal/trash/trash.go:157-182 | a new file at that path, trashed later, restores the invariant with its entry if and only if the failed move had not reached the canonical slot |
| TrashCuts.CutBetweenMoveAndInsertLoses | internal/trash/trash.go:187-195 | after such a cut, in every state and for every path, two later moves of the path delete the file |
| Trashing.Trasher.HasCanonicalTrash | internal/store/trashstore.go:16-20 | whether a version-0 row exists |
| Trashing.Trasher.MaxTrashVersion | internal/store/trashstore.go:23-30 | the largest version of the path |
| Trashing.Trasher.BumpCanonicalToVersion | internal/store/trashstore.go:33-36 | only the canonical row changes, and only its version |
| Trashing.Trasher.MoveOneFile | internal/trash/trash.go:138-199 | moveOne as the transition says, and stopped at any step as the cut says |
| Trashing.Trasher.SelectTrashDue | internal/store/trashstore.go:50-67 | the first `limit` rows older than the cutoff |
| Trashing.Trasher.DeleteTrash | internal/store/trashstore.go:70-73 | exactly the row of that id goes, and nothing if there is none |
| Trashing.Trasher.Cleanup | internal/trash/trash.go:203-232 | batched cleanup, whatever the limit and whichever files cannot be removed: exactly the expired rows go and are counted, and of their files those that can be removed |
| Trashing.CleanupKeepsInvIff | internal/trash/trash.go:214-224 | after it rows and disk are in step, and exactly the expired entries are gone, if and only if no file that cannot be removed was there in the slot of an expired row |
| Trashing.Trasher.SelectTrashBatch | internal/store/diff.go:113-132 | distinct rows whose key is not listed, as many as the limit allows |
| Trashing.Trasher.MoveDeleted | internal/trash/trash.go:95-136 | batched trashing, whatever the limit and wherever moves fail, is a sequence of attempts on distinct missing rows, counting the successful ones; if none fails they are in an order of full batches that leaves none missing |
| TrashAttempts.MoveAllAppends | internal/trash/trash.go:110-134 | a sequence of attempts, failing anywhere that loses no row, adds one entry per stored file that did not fail, with its content and size, and only those leave the storage |
| TrashAttempts.AttemptsKeepInvIff | internal/trash/trash.go:110-134 | after a sequence of attempts on distinct files, each failing at any step or not at all, rows and disk are in step if and only if no stored file failed with a file left in the trash without its row |
| Trashing.BatchesTrash | internal/trash/trash.go:110-134 | for every batch limit and order, if no move fails, exactly the missing rows leave the index, the files attempted leave the storage, and each stored one gets its entry |
| Trashing.AppendedMembers | internal/trash/trash.go:187-195 | the entries are exactly those of the stored files among the attempts, with their contents and sizes |
| Trashing.BatchedEqualsOneShotIff | internal/trash/trash.go:110-134 | exactly the files of the missing rows leave the storage, in every order, if and only if one batch takes them all or no stored file's row shares its key with another missing row |
| Trashing.TwinIsLeftBehind | internal/trash/trash.go:120-124 | an input that shows it: of two spellings of one key, taken one a batch, the second stays in the storage with no row in index or trash |
| Listing.Scanner.HandleList | internal/client/scanner.go:38-118 | whatever the batch limit the batches together are the walk's entries in order, all but the last full, exactly the last marked last; and an entry is among them if and only if the tree has, below readable directories that are not cut off, a regular, included, examined file of its cleaned path, size and time |
| Listing.EmittedIff | internal/client/scanner.go:59-102 | that of the walk of any node |
| Listing.ListingCompleteIff | internal/client/scanner.go:59-97 | the listing equals what a fully readable tree would give if and only if nothing unreadable hides an included file |
| Listing.LoadList | internal/server/control.go:61-107 | success only after a batch marked last and a commit; the table then holds the rows of every entry up to it, in order, whatever batches and transactions |
| Listing.RowsMembers | internal/server/control.go:84-99 | the rows loaded are those of the entries with a path, each with the cleaned path, its key, size and time |
| Listing.ClientFiles.Add | internal/store/store.go:214-235 | rows of the table and the open transaction together grow by the row |
| Listing.ListClient | internal/server/control.go:61-107 | with a working store there is a listing exactly when the connection carried every batch, and then it is the whole walk, and says of paths, keys, sizes and times what the source of that tree holds |
| Listing.RowsAreHonest | internal/client/scanner.go:59-102 | the rows of a walk are honest about the tree, which is what the results about convergence ask of a listing |
| Listing.CutNeverEnds | internal/client/scanner.go:103-117 | a listing cut before its last batch never ends for the server |
| Listing.SurvivesIffEmitted | internal/store/diff.go:113-118 | an index row survives the trash step exactly when its key is among the files the walk could read |
| Listing.UnreadableRootTrashesAll | internal/client/scanner.go:60-66 | an unreadable backup directory lists nothing, successfully, and every index row is trashed |
| Scheduler.AtMostOneCycle | internal/server/scheduler.go:24-65 | in every run at most one cycle is active, and no cycle begins without a trigger |
| Scheduler.NoLostTrigger | internal/server/scheduler.go:29-65 | once the chain has stopped every trigger was followed by a cycle begun after it, unless cancelled while pending |
| Scheduler.TriggerIsLostIff | internal/server/scheduler.go:29-65 | from every reachable state, when the scheduler has run down a trigger is unserved if and only if it was unserved, the scheduler cancelled and no cycle about to begin |
| Scheduler.CancelledTriggerIsLost | internal/server/scheduler.go:33-40 | a run that loses a trigger |
| Scheduler.TriggersCoalesce | internal/server/scheduler.go:44-57 | any number of triggers during one cycle cause exactly one further cycle |
| Scheduler.DrainServesAll | internal/server/scheduler.go:29-42 | left alone, an uncancelled scheduler stops with every trigger served |
| Scheduler.Cycles.DoTrigger | internal/server/scheduler.go:44-65 | the section of a trigger is the trigger step |
| Scheduler.Cycles.DoCheck | internal/server/scheduler.go:32-40 | the section after a cycle is the check step |
| RateLimit.GrantsArePaid | internal/transfer/ratelimit.go:36-47 | over any interleaving tokens stay within [0, cap] and grants are paid from tokens and elapsed time |
| RateLimit.WindowBound | internal/transfer/ratelimit.go:32-63 | any window of length t grants at most cap + rate * t bytes |
| RateLimit.LoneWaiterGrantedIff | internal/transfer/ratelimit.go:44-61 | a lone waiter is granted by its third poll if and only if its request fits the bucket (its pause is rounded down to whole nanoseconds, so the second can come too early) |
| RateLimit.TooLargeIsNeverGranted | internal/client/ratelimit.go:34-47 | a larger request is refused by every poll of every run |
| RateLimit.NewBucket | internal/transfer/ratelimit.go:20-29 | no limit means no bucket; otherwise the rate is the limit, the capacity the burst or one second's worth, whichever is more, and the bucket begins full |
| RateLimit.DelayIsDue | internal/transfer/ratelimit.go:49-54 | a refused poll pauses no longer than until its deficit is refilled and less than a nanosecond shorter, or a millisecond if that is less than a nanosecond |
| RateLimit.Limiter.Take | internal/transfer/ratelimit.go:37-50 | the section under the mutex is one poll |
| RateLimit.Limiter.Wait | internal/transfer/ratelimit.go:32-63 | a lone waiter whose request fits returns after at most three polls with its tokens taken, unless it is cancelled before; one whose request is larger returns only when cancelled |
| Peak.PeakIsExact | internal/transfer/transfer.go:227-234 | in every interleaving, once nobody is in the loop, the peak is the largest count returned, and never above the number of workers |
| Peak.FailedSwapMeansRise | internal/transfer/transfer.go:228-233 | a swap fails exactly when the peak has risen since it was loaded |
| Peak.PeakRises | internal/transfer/transfer.go:230 | the peak never falls, and a successful swap raises it |
| Paths.JoinExtendsRoot | internal/protocol/paths.go:40-57 | for any root, absolute or relative to the working directory: a path that passes the first checks has no ".." segment, and joined to the root its absolute path is the root's segments followed by its own |
| Paths.SecondCheckIsRedundantIff | internal/protocol/paths.go:40-61 | SafeJoin succeeds exactly when the first checks pass and the root's absolute path is not "/" (or the path is ".") |
| Paths.SafeJoinStaysUnderRoot | internal/protocol/paths.go:38-61 | the absolute path of what it returns extends the root's segment by segment |
| Paths.CleanRelIdempotentIff | internal/protocol/paths.go:14-21 | cleaning twice is cleaning once, if and only if the path does not begin with two slashes |
| Paths.CleaningLaws | internal/protocol/paths.go:14-21 | at any place of a path "" and "." count for nothing, ".." takes the name before it away, and at the beginning it is dropped from a rooted path and kept in a relative one |

## Left out

- TLS, certificates, dialing, deadlines, PING and the password exchange: library calls and one-branch checks; an ERROR frame carries only its code.
- SMTP, reports, logging, audit, the event table, dry-run output, configuration, disk thresholds, the first-run index and the setup wizard.
- The lock file: its check, removal and creation are separate steps, so it keeps no invariant to prove.
- SQLite itself: each statement is one atomic step; the transactions of the client listing writer are modelled, those of the first-run index writer are not.
- File modes and times of stored copies, symlinks as targets, directory and file name clashes, copying across devices, and writes not yet synced when power fails: the file system is a map from path to bytes with atomic rename, and a failing stat of an existing partial file is not modelled.
- A source file modified in place while it is read: an answer carries bytes of one version, which may end early because the file shrank.
- SHA-256 is any function, with collisions excluded only where a statement says so; distinct paths are taken to have distinct SHA-1 partial file names.
- The offset column of the task table: resuming uses the size of the partial file, the column is only shown.
- A configured retry count or worker count below 1, where `dial` would have no error to report.
- Worker.ProcessTask: the steps of `Worker.Clean` do not fail, size and time identify content, and no block hash collides harmfully; `Undrained`, `StaleRuns`, `Resume.LookalikeMixes` and `Delta.DeltaRebuildsNew` show what happens without. Tasks follow each other on the connection it leaves drained; the loop that receives them is a step of `Queue`.
- Restore.SendRestoreFile: the receive loop is the download's, whose outcome stands for the client's replies; restore's paging over the index, its newer-on-client check and its retries are not modelled.
- Cycle.Server.MoveDeletedRows: no move fails, and rows are counted as if in one batch; failing moves, batches and rows of one key are the subject of `Trashing`.
- Cycle.Server.RunDownloadQueue: tasks are worked off one by one and succeed exactly when the source has the file; interleavings, retries and failures are the subject of `Queue`, `Pool` and `Download`.
- Cycle.Server.RunCycle: cancellation, a failing enqueue statement, an aborted queue and a full disk, which end a cycle early, are not modelled.
- Trashing.Trasher.MoveDeleted: a failing batch query and the mass-delete warning are not modelled, and dropping the index row after a failed move does not itself fail.
- Trashing.Trasher.Cleanup: a failing query or deletion of a row, which ends it early, is not modelled.
- Listing.Scanner.HandleList: the glob matching of the masks is a parameter, and only the listing of the whole tree is modelled.
- RateLimit.Limiter.Wait: time and tokens are reals, without the rounding of float64; waiters that interleave are the subject of `RateLimit.WindowBound`.
- Messages.CodecRoundTrip: messages of fixed layout are modelled as functions and have no methods of their own; strings are byte sequences.
- Paths.SafeJoin: Unix separators, and the working directory can be found; letter case folding is a parameter wherever keys are used.
