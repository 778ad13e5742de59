# Verified models of five MuditaOS cores

A Dafny 4.11 project. It models the stateful cores of MuditaOS whose correctness is not visible from any single
function, and proves what their callers rely on. `dafny verify dfyconfig.toml` checks all of it.

| core | modules | shape |
|---|---|---|
| Audio block stream | `AudioStream` (class on the byte buffer), `StreamRing` (steps), `StreamFifo`, `StreamLoans`, `StreamZeroCopy` (laws) | Every method of the class is proved to be one step of a ring of blocks. The laws are about all runs of such steps. |
| Modem parsers | `UrcStream`, `AtStream` (classes and specifications), `UrcLaws`, `Text` | The cursor loops are proved against a recursive extraction, and the laws are about that extraction and about chunks. |
| Database migration | `RevisionChain`, `DbMigration` (loops and functions), `MigrationLaws`, `CommitLaws`, `UpgradeLaws` | Scripts are files of lines folded over an abstract database, which may hold a statement that is not finished yet. |
| Application windows and close protocol | `WindowsStackModel`, `PopupQueue`, `AppCommon` (classes), `AppNavigation`, `NavigationLaws`, `RequestLaws`, `AppLifecycle`, `Popups` | Handlers of the classes are proved to be steps on values, and the invariants are about all runs of steps. |
| Arbitration and arithmetic | `AudioMux`, `StreamSizing`, `LogTwo` | Loops against specifications, and laws about those. |

What happens outside these cores enters as an input: clock readings, the order in which a directory is listed, what
a popup blueprint or a callback returns, and which callbacks other code registers or cancels meanwhile.

## Where the code differs from what one might expect

Each of these is kept as the code has it. Where it can make a property fail, the member named says exactly when.

- `reserve` steps before it hands out a block, so a writer never gets the block `push` would fill next. Zero-copy
  reading lags one block behind writing (`StreamZeroCopy.ZeroCopyLagsOneBlock`).
- "Reservation in progress" and "peek in progress" compare positions, which a full lap makes equal again; the
  overflow branch of `reserve` forgets used blocks but not peeked ones (`StreamRing.CoherentThroughoutIffLapSafe`,
  `StreamFifo.AnswersLikeFifoIff`).
- The null span is writable: popping into it spoils the block of zeros until the next reset
  (`StreamRing.SilentUnlessPoppedInto`).
- A lone CR at the end of a chunk that held no CR LF is lost, and garbage is dropped only at the start of a write, so
  result codes are not independent of how the stream is chunked (`UrcLaws.ChunksActAsOneIff`).
- The popup queue extracts by key. A request the filter refuses can be shown in place of an accepted one of the same
  priority (`NavigationLaws.RefusedPopupIsShown`, `PopupQueue.PopsPermittedInEveryOrderIff`).
- Development scripts run next to their revision before a commit and after all revisions afterwards, and a commit
  skips the first lines of every script (`CommitLaws.DevelCommitPreservesIff`,
  `CommitLaws.CommitPreservesIffMergeable`).
- The number of blocks of a stream is a 32-bit product, and so is the size of its buffer: with a long timing either
  wraps around, and the stream is too small or its blocks lie outside its buffer (`StreamSizing.StreamServesTimingIff`).
- Each script runs as a file, whose end completes a statement without a semicolon; merging puts the next script
  right behind it (`CommitLaws.CommitPreservesIffMergeable`).
- A push after a commit overwrites the reservation committed last, unread (`StreamZeroCopy.StepFollowsLog`).
- `build_revision_entries_up_to` falls back on a list that is itself true, so its `else` branch is never taken; the
  loop then ends without a result, which is the same to its caller.
- Five ticks before the modem clock wraps around the fuse blows at once, and just after it may keep an old buffer
  (`UrcLaws.FuseMeasuresAgeIff`).
- A finalizing application confirms its close only after a callback that returned true
  (`AppLifecycle.ConfirmsExactlyWhen`).
- The two popup filters treat a null filter in opposite ways: showing skips it, adding refuses
  (`WindowsStackModel.PopupFilter.AddPopup`).

## Model

| member | source | states |
|---|---|---|
| `StreamFifo.RunRefinesFifo` | module-audio/Audio/Stream.cpp:26-126 | Over every run of push, pop, peek, consume, unpeek and reset with no reservation open, the stream answers like a bounded queue of blocks: same return values, events and bytes, and the last state still stands for the queue's. A pop may go anywhere: to the caller's memory, to the null span that an underflow handed out, or to a block of the ring that an earlier peek handed out, as long as that is not one of the blocks left unread. The one other condition is that `pop` is never called with all N blocks peeked. |
| `StreamFifo.AnswersLikeFifoIff` | module-audio/Audio/Stream.cpp:26-126 | That condition is exact: over every such run, the stream and the queue give the same answers if and only if `pop` is never called with all N blocks peeked. |
| `StreamRing.PopIntoSlotSparesUnreadIff` | module-audio/Audio/Stream.cpp:64-92 | And so is the other: popping into a block of the ring leaves the rest of the queue as it was if and only if that block holds none of the blocks left unread, or one that equals what is popped. |
| `StreamFifo.StepRefinesFifo` | module-audio/Audio/Stream.cpp:26-126 | The same for a single call from any coherent state: a block pushed joins at the back, the oldest leaves at the front, a refused call leaves the queue as it was. |
| `StreamFifo.StreamConservesBlocks` | module-audio/Audio/Stream.cpp:26-126 | On such a run, resets included, what the stream held unread, followed by what it accepted on the way, is what was taken out followed by what it still holds: nothing lost, duplicated, invented or reordered. |
| `StreamRing.RunTellsRight` | module-audio/Audio/Stream.cpp:26-168 | Over every lap-safe run of all operations, every single call tells its listeners right: having moved blocks, a stream of at least two blocks says half used, empty or full exactly when it is (one of one block says half used when empty); overflow and underflow come exactly when there is no room or nothing to read. |
| `StreamRing.StepTellsRight` | module-audio/Audio/Stream.cpp:211-224 | The same for one call. |
| `StreamRing.ReserveHandsOutLast` | module-audio/Audio/Stream.cpp:128-149 | A reservation hands out the block that is then the last outstanding one, both with room and on overflow; and it succeeds, keeping what is unread, exactly if there is room. |
| `StreamLoans.LentBlockStays` | module-audio/Audio/Stream.cpp:105-118 | The span a peek returns shows the oldest block not yet peeked, and keeps showing it, as the same unread block, over every run of pushes, refused pops, further peeks, reserves, fills, commits and releases, until consume, unpeek or reset; only an overflowing reserve or a fill that completes the lap is ruled out. |
| `StreamLoans.StepKeepsLoans` | module-audio/Audio/Stream.cpp:26-168 | No such call moves a block on loan or changes its bytes. |
| `StreamRing.CoherentThroughoutIffLapSafe` | module-audio/Audio/Stream.cpp:26-168 | Over every run of all eleven operations, all four positions agree with the three counters throughout if and only if every call is lap safe: no push with N blocks reserved, no pop with N blocks peeked, no overflowing reserve with a block peeked. |
| `StreamRing.CoherentIffLapSafe` | module-audio/Audio/Stream.cpp:26-168 | The same for one call: that guard, which a caller can check beforehand, is exactly what keeps dataEnd = dataStart + used, peekPosition = dataStart + peeked and reservation = dataEnd + reserved modulo N. |
| `StreamFifo.PopOverFullPeekUnderflows` | module-audio/Audio/Stream.cpp:73-103 | Off the guard: `pop` with all blocks peeked succeeds, and the next `consume` leaves the used-block counter at 2^32 - 1. |
| `StreamFifo.OverflowWhilePeekedUnderflows` | module-audio/Audio/Stream.cpp:138-149 | Off the guard: a reservation that overflows while blocks are peeked makes the next `consume` wrap the used-block counter below zero. |
| `StreamFifo.PushOverFullReservationOverfills` | module-audio/Audio/Stream.cpp:35-56 | Off the guard: `push` over N reservations succeeds, and the next `commit` counts N + 1 used blocks. |
| `StreamRing.StepWellFormed` | module-audio/Audio/Stream.cpp:26-168 | No call, in any order, takes a position out of the buffer or changes the size of a block. |
| `StreamRing.SilentUnlessPoppedInto` | module-audio/Audio/Stream.cpp:64-85 | The block behind the null span stays all zeros unless a caller successfully pops, into the null span an earlier underflow gave it, a block that is not zeros; then it does not. |
| `StreamRing.FillSparesUnreadIffNotFullLap` | module-audio/Audio/Stream.cpp:128-149 | Writing any data through the k-th outstanding reservation leaves the unread blocks alone if and only if that reservation does not complete a lap over a non-empty queue. |
| `StreamRing.InterleavedFillsSpareUnread` | module-audio/Audio/Stream.cpp:64-149 | While used + reserved < N, over every interleaving of reader calls with writes through reserved spans, the unread blocks are a byte-identical suffix of what they were and the reservations stay where they were handed out. |
| `StreamRing.SameSlotIffFullLap` | module-audio/Audio/Stream.cpp:296-304 | Two places counted from the oldest unread block share a slot only when they are a whole lap apart. |
| `StreamZeroCopy.ZeroCopyLagsOneBlock` | module-audio/Audio/Stream.cpp:26-168 | From a reset on, over every lap-safe run: the i-th block read is what was written into the i-th committed reservation (counting from 1), in whatever order and however often spans were filled, and block 0 is what slot 0 held at the reset. What is lost is said exactly: a push takes the place of the last committed reservation; filling the reservation that completes the lap overwrites the oldest unread block; a reservation that overflows drops what is unread, and the count starts over with the oldest dropped block as block 0. Return values and events are those of the log. |
| `StreamZeroCopy.RunFollowsLog` | module-audio/Audio/Stream.cpp:26-168 | The same from any state that corresponds to such a log. |
| `StreamZeroCopy.StepFollowsLog` | module-audio/Audio/Stream.cpp:26-168 | One such step keeps ring, spans held and log in correspondence and answers as the log promises. |
| `AudioStream.Stream.constructor` | module-audio/Audio/Stream.cpp:11-18 | For any sizes: the buffer has their product modulo 2^32 bytes, and what is built is an empty ring with a null block of zeros if and only if both are positive and the product did not wrap. |
| `AudioStream.Stream.Push` | module-audio/Audio/Stream.cpp:26-56 | On the byte buffer, exactly the ring's push step on the caller's bytes, with its result and events; refused for a wrong size, during a reservation, and when full. |
| `AudioStream.Stream.PushEmpty` | module-audio/Audio/Stream.cpp:58-62 | Pushes the block behind the null span. |
| `AudioStream.Stream.Pop` | module-audio/Audio/Stream.cpp:64-92 | On the byte buffer, exactly the ring's pop step: the caller's bytes become the oldest block and nothing else in that memory changes, be it the caller's own, the null block, or a block of the ring; or its span is replaced by the null span. |
| `AudioStream.Stream.Consume` | module-audio/Audio/Stream.cpp:94-103 | The ring's consume step, with the counter's wrap-around. |
| `AudioStream.Stream.Peek` | module-audio/Audio/Stream.cpp:105-118 | The span handed out is the block at the peek position, in place, before the position moves on. |
| `AudioStream.Stream.Unpeek` | module-audio/Audio/Stream.cpp:120-126 | The reader's position is back at the start of the data, with nothing peeked. |
| `AudioStream.Stream.Reserve` | module-audio/Audio/Stream.cpp:128-149 | The span handed out is the block after the reservation position, in place; with no room left the used blocks are forgotten and reservation starts over behind the peek position. |
| `AudioStream.Stream.Commit` | module-audio/Audio/Stream.cpp:151-160 | The ring's commit step. |
| `AudioStream.Stream.Release` | module-audio/Audio/Stream.cpp:162-168 | All reservations are given back. |
| `AudioStream.Stream.Reset` | module-audio/Audio/Stream.cpp:263-276 | Positions and counters are at zero, the null block is zeros again, and the buffer keeps its bytes. |
| `AudioStream.Stream.BroadcastStateEvents` | module-audio/Audio/Stream.cpp:211-224 | Half-used wins over empty, and empty over full. |
| `AudioStream.CopyReplacesBlock` | module-audio/Audio/Stream.cpp:46-47 | Copying one block's worth of bytes to a block boundary replaces that block and no other. |
| `AudioStream.IncrementIsNext` | module-audio/Audio/Stream.cpp:296-304 | Advancing a byte offset by the block size, with its wrap at the end, is the step to the next block. |
| `AudioStream.DecrementUndoesIncrement` | module-audio/Audio/Stream.cpp:296-338 | Decrementing a block iterator undoes incrementing it, at every block of every buffer. |
| `AudioStream.PositionsAgree` | module-audio/Audio/Stream.cpp:306-314 | Comparing byte offsets is comparing blocks, on which the in-progress tests rest. |
| `UrcLaws.ChunksComposeIffSafe` | module-cellular/modem/ATURCStream.cpp:18-97 | With the fuse not firing, writing s and then t emits the same codes and leaves the same buffer as writing s + t if and only if the split is safe: once a CR LF has been seen, the leftover of s followed by t is empty or opens with CR LF; before that, the split does not part a CR from its LF. |
| `UrcLaws.ChunksActAsOneIff` | module-cellular/modem/ATURCStream.cpp:87-138 | Over every run of any number of writes with the fuse holding, the codes emitted and the buffer left are those of one write of the whole if and only if every split is safe: what one unsafe split loses, no later write makes up for. |
| `UrcLaws.UnsafeChunksLose` | module-cellular/modem/ATURCStream.cpp:18-33 | After an unsafe split, and after any writes behind it, the parser has emitted and holds fewer characters than one write would have kept. |
| `UrcLaws.PromptChunksActAsOneIff` | module-cellular/modem/ATURCStream.cpp:87-138 | The same under a condition that a caller can check in place of the fuse holding: each write comes less than 5 ticks after the one before, no clock in between wraps, and what is left over, or all that is written, is at most 2048 characters. |
| `UrcLaws.FuseMeasuresAgeIff` | module-cellular/modem/ATURCStream.cpp:103-129 | For a non-empty buffer of at most 2048 characters the fuse blows after 5 ticks, in wrapping 32-bit time, exactly unless just one of the clock and the time it is compared with has wrapped: then it blows at once, or keeps an old buffer. |
| `UrcLaws.FuseMeasuresAge` | module-cellular/modem/ATURCStream.cpp:118-128 | Away from the wrap it blows if and only if 5 or more ticks have passed. |
| `UrcLaws.FuseMeasuresLength` | module-cellular/modem/ATURCStream.cpp:118-128 | An empty buffer never blows it, one of more than 2048 characters always. |
| `UrcLaws.LateChunkStartsOver` | module-cellular/modem/ATURCStream.cpp:131-138 | A chunk that comes 5 ticks late, or behind too long a buffer, is extracted from as if nothing had been buffered. |
| `UrcLaws.QuotedTextStaysWhole` | module-cellular/modem/ATURCStream.cpp:40-82 | A code with a quoted part is one code to its very end, whatever the quotes hold, CR LF included. |
| `UrcLaws.OpenQuoteWaits` | module-cellular/modem/ATURCStream.cpp:40-82 | A code whose quotes are still open stays in the buffer, whatever is inside. |
| `UrcLaws.FramedSplitIff` | module-cellular/modem/ATURCStream.cpp:18-97 | A stream of well-framed codes is emitted whole, and may be cut anywhere but between the CR and the LF that open it. |
| `UrcLaws.ExtractDecomposes` | module-cellular/modem/ATURCStream.cpp:40-97 | The emitted codes followed by the leftover are the input from its first CR LF on; each emitted code, taken alone, ends at its own very end; the leftover contains no complete code. |
| `UrcLaws.ExtractRecovers` | module-cellular/modem/ATURCStream.cpp:40-97 | Conversely, any list of codes followed by text without a complete one is extracted as exactly that list and that text. |
| `UrcLaws.ExtractResumes` | module-cellular/modem/ATURCStream.cpp:87-97 | Extracting from a longer text goes on from the leftover of the shorter one. |
| `UrcLaws.DropGarbageKeepsIff` | module-cellular/modem/ATURCStream.cpp:18-33 | The search for a begin leaves the buffer alone exactly when it is empty or opens with CR LF. |
| `UrcLaws.DropGarbageForgetsIff` | module-cellular/modem/ATURCStream.cpp:18-33 | Text without CR LF can be forgotten before more arrives, exactly unless it ends in the CR of a CR LF that the next text completes. |
| `UrcLaws.CutInPrefix` | module-cellular/modem/ATURCStream.cpp:40-82 | More text behind a complete code does not change where the code ends. |
| `UrcStream.ATURCStream.Search` | module-cellular/modem/ATURCStream.cpp:18-33 | Garbage in front of the first CR LF is erased, and everything if there is none, but only while no begin is marked. |
| `UrcStream.ATURCStream.CheckQuotation` | module-cellular/modem/ATURCStream.cpp:40-59 | Emits and erases the text up to the first CR LF at index 1 or later preceded by an even number of quotes (counted from index 1), or steps onto a quote while the flag keeps being the parity of the quotes passed. |
| `UrcStream.ATURCStream.LookForNext` | module-cellular/modem/ATURCStream.cpp:68-82 | Cuts off exactly the first complete code, and nothing if there is none; the loop ends because the cursor moves to ever later quotes. |
| `UrcStream.ATURCStream.TryParse` | module-cellular/modem/ATURCStream.cpp:87-97 | Both loops together are the recursive extraction from the first CR LF on. |
| `UrcStream.ATURCStream.Fuse` | module-cellular/modem/ATURCStream.cpp:103-129 | Empties a non-empty buffer when the clock reached the last write plus 5, modulo 2^32, or it is longer than 2048. |
| `UrcStream.ATURCStream.Write` | module-cellular/modem/ATURCStream.cpp:131-138 | One write is: fuse, stamp, append, extract. |
| `UrcStream.ATURCStream.GetURCList` | module-cellular/modem/ATURCStream.hpp:36-39 | Hands the ready codes over and keeps none. |
| `UrcStream.MarkAdvances` | module-cellular/modem/ATURCStream.cpp:68-82 | Stepping to the next quote keeps the flag the parity of quotes, passes no code, and ends only when there is none to find. |
| `UrcStream.MarkReachesEnd` | module-cellular/modem/ATURCStream.cpp:40-59 | A CR LF found with the flag down and no quote before it is where the first code ends. |
| `AtStream.ATStream.Write` | module-cellular/modem/ATStream.cpp:179-202 | An accepted chunk is appended, and the line counter (rxCount not 0) is then the number of non-empty CR LF terminated lines of everything received, wherever the chunks were cut; the response is complete exactly if it opened with a code and has the lines expected, or else ends with one. After that nothing more is taken in. |
| `AtStream.ATStream.Parse` | module-cellular/modem/ATStream.cpp:135-172 | When the begin counts as checked, when a code at the begin is found, and when the response is complete. |
| `AtStream.ATStream.CountLines` | module-cellular/modem/ATStream.cpp:119-133 | Starting where it last stopped, the counter becomes the number of non-empty lines of the whole buffer. |
| `AtStream.ATStream.CheckATBegin` | module-cellular/modem/ATStream.cpp:84-98 | Whether the text between the opening CR LF and the next is a code. |
| `AtStream.ATStream.CheckATEnd` | module-cellular/modem/ATStream.cpp:100-117 | Whether the text between the last two CR LFs is a code; when the only CR LF is at index 0 or 1, whatever follows it is taken instead. |
| `AtStream.ATStream.Reset` | module-cellular/modem/ATStream.cpp:204-216 | Everything is as for a new command. |
| `AtStream.LinesResume` | module-cellular/modem/ATStream.cpp:119-133 | However a text is cut, even inside a CR LF, its lines are those of the first part followed by those of its unterminated rest with the second part. |
| `AtStream.LineAdded` | module-cellular/modem/ATStream.cpp:119-133 | Moving the cursor behind the next CR LF adds one non-empty line exactly if the CR LF is not right at the cursor. |
| `AtStream.AllLinesCounted` | module-cellular/modem/ATStream.cpp:119-133 | With no CR LF behind the cursor, the lines before it are all the lines. |
| `AtStream.OpeningLineIsCode` | module-cellular/modem/ATStream.cpp:135-139 | For any response that opens with a line: the line is looked at as soon as there are more than five characters, and then decides. |
| `AtStream.LastLineIsCode` | module-cellular/modem/ATStream.cpp:100-117 | For any response: the end test looks at the last whole line, whatever precedes it and whatever unfinished line follows. |
| `MigrationLaws.HistoryIsWhatWasWritten` | tools/db_migration.py:195-284 | Over every run of `revision` and `commit`, in whatever order the directory is listed each time, upgrading with devel off completes, records the committed version, and yields what the start upgraded to with every written up script run as a file of its own, in the order it was written; provided that what is committed is mergeable: skipped lines are comments, and every script with another behind it ends its last statement. |
| `MigrationLaws.CommitPreservesContents` | tools/db_migration.py:195-272 | With devel off and the revisions mergeable, upgrading gives the same contents before and after a commit, whatever versions are present or missing, and only the recorded version moves to N + 1. |
| `MigrationLaws.MergedDownUndoesMergedUp` | tools/db_migration.py:340-361 | If every revision's down script undoes its up script where it was applied, each as a file of its own, the merged down script undoes the merged up script, provided both are mergeable. |
| `MigrationLaws.MergedUpRunsAlike` | tools/db_migration.py:337-367 | The merged up script, run as one file, has the effect of the revisions' up scripts run as files one after the other, if they are mergeable. |
| `MigrationLaws.RecordedVersion` | tools/db_migration.py:364-385 | With all scripts present the upgrade completes and the recorded version is the last committed one, although version 0 itself is never recorded. |
| `CommitLaws.CommitPreservesIffSameStatements` | tools/db_migration.py:195-272 | A commit preserves the database, under every meaning lines may have to an engine that ignores comments and completes an open statement at the end of its file, if and only if the files run before it and the merged files run after it hold the same sequence of statements; with devel on or off, and whatever the first or last lines of the files are. |
| `CommitLaws.SameStatementsPreserve` | tools/db_migration.py:195-272 | With the same statements the contents are the same for every engine and every kind of database. |
| `CommitLaws.CommitPreservesIffMergeable` | tools/db_migration.py:81-93 | With devel off, it does if and only if the three lines that `read_sql` skips from each up script are comments, and no up script whose last line of code ends no statement has code in an up script behind it. |
| `CommitLaws.CommitJoinsUnterminated` | tools/db_migration.py:345-348 | An input where that fails, shaped like the repository's own revision, whose only statement has no semicolon: with a second revision behind it, two statements before the commit are one afterwards. |
| `CommitLaws.JoinedIff` | tools/db_migration.py:345-361 | Files put together hold the statements of the files one by one if and only if no open statement runs on into code of a later file. |
| `CommitLaws.DevelCommitPreservesIff` | tools/db_migration.py:345-356 | With devel on and commented headers, it does if and only if the statements of all files, one by one, are those of the up scripts put together, followed by those of the development scripts put together behind what a left-over script holds. |
| `CommitLaws.DevelCommitPreservesIfLast` | tools/db_migration.py:345-356 | In particular it does for every engine when nothing is left over, no up script with code follows a development script with code, and no statement runs on from one up script, or one development script, into the next. |
| `CommitLaws.CommitReordersDevel` | tools/db_migration.py:228-234 | An input where that fails: two revisions of which the first has a devel script give different contents before and after the commit. |
| `CommitLaws.CommitDropsHeaderlessLines` | tools/db_migration.py:81-87 | An input without a header: a revision whose script starts with statements gives different contents before and after the commit. |
| `RevisionChain.ChainRecoversLineage` | tools/db_migration.py:294-313 | Entries written one after the other come back in the order they were written, however the directory is listed. |
| `RevisionChain.BuiltChainIsHistory` | tools/db_migration.py:294-313 | With distinct ids the chain is parent-linked from 0, names no entry twice, and is maximal: no entry has its last one as parent. |
| `RevisionChain.OrderIrrelevantIffUnambiguous` | tools/db_migration.py:299-313 | The listing order does not matter if and only if no two different entries compete for a place in the chain. |
| `RevisionChain.RunOfRevisionsIsHistory` | tools/db_migration.py:278-313 | Over every run of `revision`, in whatever order the directory is listed each time and at the end, the chain is the history there was followed by the entries of the run in creation order, each with its id and scripts. |
| `RevisionChain.RevisionsComeBackInOrder` | tools/db_migration.py:278-334 | From an empty directory, every run of `revision` yields all its entries in creation order, parent-linked from 0. |
| `RevisionChain.NewRevisionExtends` | tools/db_migration.py:97-105 | The step of that: a new revision, parented on the latest one, extends the history by exactly itself. |
| `RevisionChain.ChainNeverReturns` | tools/db_migration.py:304-312 | Even among entries whose parents form cycles, the chain never comes back to an entry. |
| `RevisionChain.BuildRevisionEntries` | tools/db_migration.py:294-313 | The loop builds the chain of first listed children, starting from parent 0 and bounded by the number of entries. |
| `DbMigration.BuildRevisionEntriesUpTo` | tools/db_migration.py:316-328 | The entries up to and including the first one with the id, or nothing if there is none. |
| `UpgradeLaws.UpgradeToRevision` | tools/db_migration.py:195-234 | Over every repository with distinct ids: upgrading to the k-th entry of the chain applies exactly the entries up to it, itself included, to what the committed versions make, with devel on or off. |
| `UpgradeLaws.UpgradeByOne` | tools/db_migration.py:228-234 | Each entry adds its up script, run as a file, and with devel on then its devel script. |
| `UpgradeLaws.UpgradeGoesOn` | tools/db_migration.py:214-234 | The rest of the chain on top of that is the full upgrade, and upgrading to the last entry is upgrading to the newest. |
| `UpgradeLaws.UpgradeEndsExactly` | tools/db_migration.py:195-234 | When an upgrade ends for a missing script, for an empty chain, or because no entry has the id, exactly. |
| `UpgradeLaws.UpToIs` | tools/db_migration.py:316-328 | The entries up to the k-th one's id are the first k + 1. |
| `DbMigration.MergeSqlFromDir` | tools/db_migration.py:337-361 | Up scripts are merged in order, down scripts in reverse, devel scripts that have a body are appended to the one there or to a new one under a header. |
| `DbMigration.MigrationStays` | tools/db_migration.py:380-385 | A script missing in the middle stops the migration there, with the database of the versions before it. |
| `DbMigration.Migration.MigrateDatabaseUp` | tools/db_migration.py:375-385 | The database after the committed versions up to the given one, or up to the first missing script. |
| `DbMigration.Migration.Upgrade` | tools/db_migration.py:195-234 | The committed versions and then the revisions, all or up to one; which of the four ways it ends, and the database then. |
| `DbMigration.Migration.Commit` | tools/db_migration.py:251-272 | The merged scripts are the next version, the version number moves on and the revisions are gone; without revisions nothing changes. |
| `DbMigration.Migration.NewRevisionEntry` | tools/db_migration.py:278-284 | The directory has one more entry, whose parent is the last entry of the chain or 0. |
| `PopupQueue.QueueRunIsArrivalRun` | module-apps/apps-common/WindowsPopupQueue.cpp:9-27 | Over every run of pushes, pops under changing filters and clears, the ordered multiset hands out what a plain list of arrivals would: nothing if nothing is permitted, else the oldest request of the highest priority that has a permitted one. |
| `PopupQueue.PopTakesOldestOfBest` | module-apps/apps-common/WindowsPopupQueue.cpp:14-22 | The same for one pop, which leaves all other requests in order; it returns nothing if and only if no request is permitted. |
| `PopupQueue.InsertionIsArrival` | module-apps/apps-common/WindowsPopupRequest.cpp:19-22 | Inserting by falling priority behind equals keeps the queue the stable priority order of its arrivals. |
| `PopupQueue.RanksRise` | module-apps/apps-common/popups/Disposition.hpp:16-22 | The priorities rise from low over normal and high to highest. |
| `PopupQueue.PopsPermittedInEveryOrderIff` | module-apps/apps-common/WindowsPopupQueue.cpp:14-22 | Under any filter, a permitted request is popped in whatever order the requests arrive if and only if every request of the highest priority that has a permitted one is itself permitted. |
| `PopupQueue.PoppedIsPermittedIfAgreed` | module-apps/apps-common/WindowsPopupQueue.cpp:14-22 | So the popped request is permitted whenever the filter treats the requests of that one priority alike. |
| `NavigationLaws.ShownPopupIsPermittedIff` | module-apps/apps-common/WindowsPopupFilter.cpp:16-41 | For the application's own filters and the window stack together: a permitted popup is shown in every arrival order if and only if, of the highest priority with a permitted request, the application's filters accept all, and the stack is empty, topped by no higher priority, or topped by the very popup all of them ask for. |
| `NavigationLaws.RefusedPopupIsShown` | module-apps/apps-common/WindowsPopupQueue.cpp:16-19 | Extraction by key at work: of two requests of equal priority the filter accepts the second, and the first, which it refuses, leaves the queue. |
| `PopupQueue.WindowsPopupQueue.PushRequest` | module-apps/apps-common/WindowsPopupQueue.cpp:24-27 | The request is inserted behind its equals. |
| `PopupQueue.WindowsPopupQueue.PopRequest` | module-apps/apps-common/WindowsPopupQueue.cpp:14-22 | The filter picks a priority class, and the first request of that class is extracted. |
| `PopupQueue.WindowsPopupQueue.Clear` | module-apps/apps-common/WindowsPopupQueue.cpp:9-12 | No request is left. |
| `WindowsStackModel.PopupFilter.IsPermitted` | module-apps/apps-common/WindowsPopupFilter.cpp:16-41 | Every application filter says show (a null filter is skipped), and the attached stack is empty, topped by the same popup, or topped by no higher priority. |
| `WindowsStackModel.PopupFilter.AddPopup` | module-apps/apps-common/WindowsPopupFilter.cpp:43-51 | No application filter is null or says remove. |
| `WindowsStackModel.PopupFilter.AttachWindowsStack` | module-apps/apps-common/WindowsPopupFilter.cpp:11-14 | The filter judges by the given stack from now on. |
| `WindowsStackModel.PopupFilter.AddAppDependentFilter` | module-apps/apps-common/WindowsPopupFilter.cpp:53-56 | The filter is asked after the ones already there. |
| `AppNavigation.RunStaysConsistent` | module-apps/apps-common/WindowsStack.cpp:22-137 | Over every run of the fourteen navigation operations, popups and handlers included, no name is on the stack twice, every stacked name has a window, and every window comes from the registry; also where the run stops by throwing. |
| `RequestLaws.RunAccounts` | module-apps/apps-common/ApplicationCommon.cpp:836-911 | Over every run of the navigation operations: no popup request is handed out that was not accepted, and none twice; and while the queue is not cleared and popups handed out are handled, every accepted request has been handed out or is still queued. |
| `RequestLaws.RequestIsConserved` | module-apps/apps-common/ApplicationCommon.cpp:836-874 | An accepted request joins the queue with its id, in popup placement; at most one request leaves, exactly if the filter lets one through, and is posted exactly if its blueprint handles it. A request for the popup on top that is to be ignored, or one that a filter removes or a null filter meets, changes nothing. |
| `RequestLaws.TriedHandsOut` | module-apps/apps-common/ApplicationCommon.cpp:886-911 | The same of trying to show the next popup. |
| `AppNavigation.StepStaysConsistent` | module-apps/apps-common/ApplicationCommon.cpp:976-1009 | The same for one operation. |
| `NavigationLaws.PushedWindowIsOnTop` | module-apps/apps-common/ApplicationCommon.cpp:976-990 | A pushed window with a name is on top and everything beneath is a prefix of the former stack; one that was on the stack is as it was, any other is built and placed as asked on top of all the rest. It throws if and only if the name is not registered, and then the navigation state is as before. |
| `NavigationLaws.EmptyNameEmptiesLast` | module-apps/apps-common/ApplicationCommon.cpp:980-983 | Pushing without a name empties a stack of one window. |
| `NavigationLaws.SwitchShowsExactly` | module-apps/apps-common/ApplicationCommon.cpp:571-632 | A switch message for a registered window: which windows are left, with the current one left out if asked; and that exactly one message is sent, the popup that comes next or a refresh of the window on top. |
| `NavigationLaws.UnknownWindowIgnored` | module-apps/apps-common/ApplicationCommon.cpp:575-578 | A switch message for a window that is not registered changes nothing. |
| `NavigationLaws.SwitchPostsTo` | module-apps/apps-common/ApplicationCommon.cpp:262-292 | Switching posts a message to the window named, or without a name to the one on top. |
| `NavigationLaws.CurrentWindowIsThere` | module-apps/apps-common/ApplicationCommon.cpp:997-1009 | Asking for the current window changes nothing where there is one, and otherwise builds the default one, or throws if that is not registered. |
| `NavigationLaws.GoingBackFromLast` | module-apps/apps-common/ApplicationCommon.cpp:303-310 | From the last window the manager is asked to switch back, and nothing else happens. |
| `NavigationLaws.AbortOfBottomGoesBack` | module-apps/apps-common/ApplicationCommon.cpp:926-934 | So it is after aborting a popup that lies under everything, which uncovers it first. |
| `NavigationLaws.ShutdownWindowIsOnTop` | module-apps/apps-common/ApplicationCommon.cpp:936-948 | The shutdown window comes on top if it is registered; otherwise nothing changes. |
| `NavigationLaws.FirstOfNameGoes` | module-apps/apps-common/WindowsStack.cpp:68-95 | Dropping a name takes out its first window and keeps those below and above; popping to it keeps that window on those below. |
| `NavigationLaws.GoingBackRemovesTop` | module-apps/apps-common/ApplicationCommon.cpp:303-323 | Going back, and handling the switch message that going back posts, removes exactly the top window, and the SIM information popup under it too. Nothing else goes if and only if the next popup is not the SIM information, or there is no SIM lock window left for it to drop; in that case exactly that window goes as well. |
| `NavigationLaws.SwitchToStacked` | module-apps/apps-common/ApplicationCommon.cpp:571-618 | A switch message for a window on the stack brings it to the top over what was below it, with the same exact exception. |
| `NavigationLaws.AbortUncoversWhatWasBelow` | module-apps/apps-common/ApplicationCommon.cpp:926-934 | Aborting a popup leaves the stack as it was below the popup and posts one switch message. |
| `NavigationLaws.AbortOfAbsentChangesNothing` | module-apps/apps-common/ApplicationCommon.cpp:926-930 | Aborting a popup that is not there changes nothing. |
| `NavigationLaws.TetheringAbortKeepsLock` | module-apps/apps-common/ApplicationCommon.cpp:917-924 | Aborting the tethering popup on a locked phone removes that window alone, keeps the order of the rest, and keeps the phone lock. |
| `AppNavigation.WithoutPopupsIsPart` | module-apps/apps-common/WindowsStack.cpp:124-137 | What dropping the pending popups leaves is in its former order. |
| `WindowsStackModel.WithoutPopupsKeeps` | module-apps/apps-common/WindowsStack.cpp:124-137 | It is exactly the entries that are not popups, each as often as it was there. |
| `WindowsStackModel.WindowsStack.DropPendingPopups` | module-apps/apps-common/WindowsStack.cpp:124-137 | The walk from the top that erases as it goes leaves that sequence. |
| `WindowsStackModel.WindowsStack.Push` | module-apps/apps-common/WindowsStack.cpp:22-29 | The window is on top, and replaces one registered under its name. |
| `WindowsStackModel.WindowsStack.PopTop` | module-apps/apps-common/WindowsStack.cpp:59-66 | The top is gone, or the stack was empty and false is returned. |
| `WindowsStackModel.WindowsStack.PopTo` | module-apps/apps-common/WindowsStack.cpp:68-76 | The first window of that name is the top; without one nothing changes and false is returned. |
| `WindowsStackModel.WindowsStack.PopLastWindow` | module-apps/apps-common/WindowsStack.cpp:78-85 | A stack of one is emptied, any other is left. |
| `WindowsStackModel.WindowsStack.Drop` | module-apps/apps-common/WindowsStack.cpp:87-95 | The first window of that name is taken out from where it is. |
| `WindowsStackModel.WindowsStack.RebuildWindows` | module-apps/apps-common/WindowsStack.cpp:97-106 | Every registered name has a newly built window, and no name comes or goes. |
| `WindowsStackModel.WindowsStack.Clear` | module-apps/apps-common/WindowsStack.cpp:108-112 | No window and no stack. |
| `AppCommon.ApplicationCommon.PushWindow` | module-apps/apps-common/ApplicationCommon.cpp:976-990 | On the application's objects: an empty name empties a stack of one, a stacked name is gone back to, and any other window is built and pushed, or throws if not registered. |
| `AppCommon.ApplicationCommon.AbortPopup` | module-apps/apps-common/ApplicationCommon.cpp:913-934 | Drops the tethering popup under a phone lock; otherwise pops to the popup and returns from it. |
| `AppCommon.ApplicationCommon.TryShowPopup` | module-apps/apps-common/ApplicationCommon.cpp:886-911 | Takes the next popup out of the queue through the filter; the SIM information popup drops the SIM lock from the stack. |
| `AppCommon.ApplicationCommon.HandleSwitchWindow` | module-apps/apps-common/ApplicationCommon.cpp:571-618 | Switches to a registered window, then gives the next popup its chance, and refreshes if there is none. |
| `AppCommon.ApplicationCommon.ActionPopupPush` | module-apps/apps-common/ApplicationCommon.cpp:836-874 | Ignores the popup that is on top already if asked to, queues it in popup placement unless a filter removes it, and tries to show one. |
| `AppLifecycle.CloseIsSafe` | module-apps/apps-common/ApplicationCommon.cpp:511-681 | Over every run of messages, every close request is confirmed once or still owed its confirmation, except that requests repeated while one is owed share it; and after a close request no switch, action, focus or response message makes the application active again. |
| `AppLifecycle.CloseIsSafeFromStart` | module-apps/apps-common/ApplicationCommon.cpp:655-757 | From its start on, an application confirms no more closes than were requested, and once one was requested it has confirmed one or is finalizing. |
| `AppLifecycle.ConfirmedOnlyUnblocked` | module-apps/apps-common/ApplicationCommon.cpp:655-681 | At every point of every run where a confirmation goes out, no callback that closing must wait for is pending. |
| `AppLifecycle.ConfirmsExactlyWhen` | module-apps/apps-common/ApplicationCommon.cpp:655-681 | A step confirms, once, if and only if nothing blocks after it and it is a close request, or a response whose callback returned true while finalizing. |
| `AppLifecycle.StatesFollowExactly` | module-apps/apps-common/ApplicationCommon.cpp:511-681 | Which state every message leads to from every state, in particular that an awaiting application called for, and no other, comes to the foreground. |
| `AppLifecycle.NoticesFollowExactly` | module-apps/apps-common/ApplicationCommon.cpp:383-681 | Which notices every message makes the application send, in order. |
| `AppLifecycle.ResponseRunsExactly` | module-apps/apps-common/ApplicationCommon.cpp:383-394 | A response runs its callback exactly if the first entry of the response is a query's or has a function; its entries go either way. |
| `AppLifecycle.RemovalIsOneByOne` | module-apps/apps-common/CallbackStorage.cpp:37-73 | Removal takes out the entries of the response, or of the receiver, one by one and keeps the others in order. |
| `AppLifecycle.UnconfirmedWithoutSuccess` | module-apps/apps-common/ApplicationCommon.cpp:383-394 | A finalizing application stays unconfirmed over every run without a callback that returns true, even if the last blocking request is cancelled or answered. |
| `AppLifecycle.StepKeepsAccount` | module-apps/apps-common/ApplicationCommon.cpp:511-681 | Confirmations, with the one that may be owed, change only on a close request, which is confirmed at once or leaves exactly one owed. |
| `AppLifecycle.ApplicationLifecycle.InitHandler` | module-apps/apps-common/ApplicationCommon.cpp:745-757 | Initialising, or in the background at once; the manager is told. |
| `AppLifecycle.ApplicationLifecycle.HandleApplicationSwitchLaunch` | module-apps/apps-common/ApplicationCommon.cpp:511-556 | An application that awaits its switch goes to the foreground and confirms, if it is the one meant; if the confirmation went through, or it was in the foreground already, it posts its window switch, and only then is the message handled. |
| `AppLifecycle.ApplicationLifecycle.HandleApplicationSwitchOnAction` | module-apps/apps-common/ApplicationCommon.cpp:558-569 | The same on an action, for any application awaiting its switch. |
| `AppLifecycle.ApplicationLifecycle.HandleAppFocusLost` | module-apps/apps-common/ApplicationCommon.cpp:728-735 | Only a foreground application goes to the background and confirms. |
| `AppLifecycle.ApplicationLifecycle.HandleAppClose` | module-apps/apps-common/ApplicationCommon.cpp:655-672 | Confirms at once unless a request blocks after the windows have closed. |
| `AppLifecycle.ApplicationLifecycle.CheckBlockingRequests` | module-apps/apps-common/ApplicationCommon.cpp:674-681 | Confirms a finalizing application that nothing blocks any more. |
| `AppLifecycle.ApplicationLifecycle.HandleAsyncResponse` | module-apps/apps-common/ApplicationCommon.cpp:383-394 | The callback is taken out, run, and only its success leads to the window refresh and the check. |
| `AppLifecycle.CallbackStorage.GetCallback` | module-apps/apps-common/CallbackStorage.cpp:19-26 | The first entry of the response decides the callback; all its entries go. |
| `AppLifecycle.CallbackStorage.Remove` | module-apps/apps-common/CallbackStorage.cpp:37-42 | The entries of other responses stay, in order. |
| `AppLifecycle.CallbackStorage.RemoveAll` | module-apps/apps-common/CallbackStorage.cpp:68-73 | The entries of other receivers stay, in order. |
| `AppLifecycle.CallbackStorage.RegisterCallback` | module-apps/apps-common/CallbackStorage.cpp:60-66 | The entry is added at the end. |
| `AppLifecycle.CallbackStorage.CheckBlockingCloseRequests` | module-apps/apps-common/CallbackStorage.cpp:75-80 | True if and only if some entry must be answered before closing. |
| `LogTwo.CalculateShift` | host-tools/genlittlefs/parse_partitions.c:72-85 | For every non-zero 32-bit word v the result k has 2^k <= v < 2^(k+1); for zero it is 0. |
| `LogTwo.PowerOfTwoRecovered` | host-tools/genlittlefs/parse_partitions.c:72-85 | For a power of two, shifting 1 by the result gives it back. |
| `LogTwo.SmearFills` | host-tools/genlittlefs/parse_partitions.c:78-82 | The five shifts set every bit up to the highest bit of the word and none above it. |
| `LogTwo.LookupOnes` | host-tools/genlittlefs/parse_partitions.c:75-84 | The multiplication and the table map the word with bits 0 to k set to k, for all 32 of them. |
| `AudioMux.ArbitrationNeverPreempts` | module-audio/Audio/AudioMux.cpp:55-142 | For any inputs: nothing is given out while one is routing or recording; a busy input is given out only if none is idle, and then no input at all is more important than the request. |
| `AudioMux.RefusedExactlyWhen` | module-audio/Audio/AudioMux.cpp:112-142 | When a request gets nothing: no inputs, a more important busy input before any merge, or a merge with no idle input before it. |
| `AudioMux.ChosenExactly` | module-audio/Audio/AudioMux.cpp:112-142 | Which input a request gets: the last idle one ahead of the first sound to merge with, or of the end; or else the last input of all, if nothing is idle and nothing stops the search. |
| `AudioMux.PlaybackOrder` | module-audio/Audio/AudioMux.cpp:11-20 | The order of importance: meditation, ringtone, alarm, multimedia, messages and notifications alike, keypad, and then all the others alike. |
| `AudioMux.YoungTokensIdentify` | module-audio/Audio/AudioMux.cpp:97-151 | While every live token is fewer than 32768 issues old, the inputs' tokens are pairwise distinct, and a token so young finds exactly the input last reset to it, or nothing if that was reset again. |
| `AudioMux.OwnTokenFindsIff` | module-audio/Audio/AudioMux.cpp:97-110 | Without the age limit: an input is found by its own token if and only if no earlier input's token is a multiple of 32768 issues apart. |
| `AudioMux.IssuedTokenIsValid` | module-audio/Audio/AudioCommon.hpp:275-280 | Every issued token is valid, across any number of wrap-arounds. |
| `AudioMux.AudioMux.constructor` | module-audio/Audio/AudioMux.cpp:23-31 | At least one input, each with a token of its own. |
| `AudioMux.AudioMux.GetAvailableInput` | module-audio/Audio/AudioMux.cpp:112-142 | The loop with its two candidates and early exits computes the choice the laws above are about. |
| `AudioMux.AudioMux.GetPlaybackInput` | module-audio/Audio/AudioMux.cpp:55-66 | That choice, or nothing while routing or recording. |
| `AudioMux.AudioMux.GetRoutingInput` | module-audio/Audio/AudioMux.cpp:33-53 | The first routing input; else, if forced, the first input of greatest priority number. |
| `AudioMux.AudioMux.GetInputInState` | module-audio/Audio/AudioMux.cpp:87-95 | The first input in one of the states, or nothing if there is none. |
| `AudioMux.AudioMux.GetInput` | module-audio/Audio/AudioMux.cpp:97-110 | The first input that holds a valid token. |
| `AudioMux.AudioMux.ResetInput` | module-audio/Audio/AudioMux.cpp:144-151 | Issues the next token and gives it to that input alone, with its vibration off. |
| `StreamSizing.MakeStream` | module-audio/Audio/StreamFactory.cpp:48-76 | The stream built has the block size both endpoints ask for. It is one that works, with a buffer for all its blocks and at least one of them, and covers every timing constraint given 24 times over, if and only if some timing is positive and the bytes wanted for each can be counted in 32 bits. |
| `StreamSizing.NegotiateSizing` | module-audio/Audio/StreamFactory.cpp:51-68 | The same of the sizes alone; the block size, where neither endpoint gives one, is the least power of two not below the bytes of the longest timing; and sizes are found whenever source block size, period and format determine them and the number of blocks fits 32 bits. |
| `StreamSizing.StreamServesTimingIff` | module-audio/Audio/StreamFactory.cpp:65-75 | For every format, timing and block size with a positive truncated block duration: there is at least one block, block size times buffering fits 32 bits and is at least 24 times the bytes of the timing, if and only if the timing is positive and block size times 24 times the blocks needed fits 32 bits. |
| `StreamSizing.StreamCoversTimingIff` | module-audio/Audio/StreamFactory.cpp:65-68 | Of the number of blocks alone: as many blocks as there are after the 32-bit product would hold 24 times the bytes of the timing if and only if that product does not wrap around. |
| `StreamSizing.LongTimingWraps` | module-audio/Audio/StreamFactory.cpp:67-68 | An input where the number wraps: 1000 s of 48 kHz 16 bit stereo in blocks of one byte get a tenth of the blocks. |
| `StreamSizing.LongTimingWrapsBuffer` | module-audio/Audio/Stream.cpp:13-13 | An input where only the buffer wraps: 932.06 s of it in blocks of 4096 bytes get 1048584 blocks, and a buffer of eight. |
| `StreamSizing.GetBlockSizeConstraint` | module-audio/Audio/StreamFactory.cpp:101-125 | Succeeds if and only if the sizes given are equal and not 0, and then yields that size, or none if none is given. |
| `StreamSizing.GetTimingConstraints` | module-audio/Audio/StreamFactory.cpp:127-141 | The largest constraint; it fails if and only if the first is absent and no other is positive. |
| `StreamSizing.ConversionLosesLittle` | module-audio/Audio/AudioFormat.cpp:93-106 | Bytes to microseconds and back never grows, and loses at most the bytes of one microsecond rounded up: one byte up to 10^6 bytes per second. |
| `StreamSizing.CeilPowerOfTwoIsLeast` | module-utils/math/Math.hpp:72-85 | Below 2^31, the least power of two not below the argument. |

## Left out

- Locks, listeners that call back into the stream, and allocators: each stream method is one atomic step, and the events are a list.
- AudioStream.Stream.Pop: a span in the stream's own ring buffer is one that the stream handed out, a whole block; a caller that shifts it by some bytes is not modelled. `size_t` is 32 bits wide, as on the target.
- StreamZeroCopy.ZeroCopyLagsOneBlock: no pop into a block of the ring, which `StreamRing.PopIntoSlotSparesUnreadIff` is about; off the lap-safe calls positions and counters disagree, which `StreamRing.CoherentThroughoutIffLapSafe` is about.
- AtStream.ATStream.Write: the codes, the response and error results and the splitting of the response are not modelled; whether a line is a code is a parameter. Readiness is not claimed to be independent of chunking.
- UrcStream.ATURCStream.Write: the clock is two inputs, one for the fuse and one for the stamp.
- MigrationLaws.CommitPreservesContents: with devel off and mergeable revisions; what holds beyond that, and exactly when, is stated by `CommitLaws.CommitPreservesIffSameStatements`.
- MigrationLaws.HistoryIsWhatWasWritten: a new revision's id is taken to be fresh, as a UUID is.
- A line acts on a database, with an unfinished statement if there is one, as a total function: an SQL error is whatever that function makes of it. A comment line means nothing inside a statement either; string literals over several lines are not modelled. Scripts do not set `user_version` themselves, and malformed metadata files are not modelled.
- The directories given to the migration tool are absolute: `commit` joins the database path twice, which with relative directories puts the merged scripts where no upgrade looks for them.
- `install`, `revert`, `redo`, `init` and the command line of the migration tool; metadata fields that the chain does not use.
- NavigationLaws.PushedWindowIsOnTop: a build that throws also leaves an empty builder under the name, so that the name counts as registered from then on; the registry is constant here, and a run ends where it throws.
- The other handlers of `AppCommon.ApplicationCommon` have no row of their own: each is proved to be its function in `AppNavigation`, and the laws are about those.
- AppCommon.ApplicationCommon.ActionPopupPush: a missing top window, which the original reads through an empty optional, is an outcome that stops the run; likewise an unregistered window, where the original throws.
- AppCommon.ApplicationCommon.HandleSwitchWindow: the windows' own close, show and data handlers are not modelled; whether a text was taken in is an input.
- WindowsStackModel.WindowsStack.DropPendingPopups: walks by index; the iterators that erasing from the container invalidates are not modelled.
- Handlers an application overrides, application rebuilding other than building the windows anew, GUI drawing, settings and the message bus.
- AppLifecycle.CloseIsSafe: does not claim that a close is eventually confirmed, because the code does not ensure it (`AppLifecycle.UnconfirmedWithoutSuccess`).
- StreamSizing.MakeStream: floating point is exact rationals, and a division by zero or a cast of a number that does not fit 32 bits is a failure.
- The transcoding stream with its transforms, stream proxies, and the audio multiplexer built on inputs owned elsewhere.
- The Bluetooth state machine, whose meaning rests on its library, and everything of the file system tools but `calculate_shift`.
- Volume scaling, key storage and list models: small domains that would add only easy members.
