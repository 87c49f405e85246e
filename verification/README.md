# A verified model of rfsck

rfsck makes a file-system checker survive interruption. Its library (`rfsck-lib`) logs the checker's repairs as
transactions in a redo log and replays the committed ones to the device. The rest of the repository is the patched
e2fsck and debugfs it protects. This project models the redo log byte by byte and proves what the log promises; it
then models the passes of e2fsck and the journal code of debugfs whose repairs keep an invariant over a structure that
is edited in place, and proves those invariants. `dafny verify dfyconfig.toml` checks everything.

## The parts

**Redo log** (`Bytes`, `RedoFormat`, `RedoLayout`, `RedoWriter`, `RedoLog`, `RedoScan`, `RedoReplay`, `RedoTheorems`,
`RedoCrash`, `RedoStep`, `RedoLimits`, `RedoSessions`, `RedoChecks`). A log file is a map from offsets to bytes.
`RedoLog.RedoData` is the library with its mutable fields; each logging call is proved to make one step of a logical log
and to issue exactly the `pwrite` calls of that step. `RedoScan` is what replay computes from any bytes whatever, and
`RedoData.Replay`, with its nested loops and two cursors, is proved to compute it. On top of these:

- crash atomicity: whatever prefix of a session's log writes reached the file, a later replay leaves an initial run
  of the committed transactions applied whole;
- durability: what was committed before `redo_mark_done(1)` survives later crashes;
- which sessions replay can follow: after any calls whatever, its view of begin and end markers agrees with the log
  after every slot exactly when a condition on the calls holds, which for a positive transaction counter says that
  begins and ends alternate and no write is empty;
- replay refines the in-order application of the committed transactions, exactly when the log is aligned (no
  transaction with data commits after a write outside any transaction or after an end marker in slot 254 of an index
  block);
- replaying again: a device holding any prefix of replay's writes ends up the same, a completely marked log is idle,
  and a replay stopped after any slot is completed by the next one exactly when no transaction that takes room in the
  log ends before that slot and one with data behind it; so a crash of the recovery after a crash of the session does
  no further harm;
- checksums: after any prefix of a session's writes every index block on file passes its own check, every slot holds
  the checksum of the bytes its data has on file, and every end marker that of its transaction; replay reports exactly
  the end markers that hold another one.

**Directory blocks** (`DirBlock`, `DirCheck`, `DirLoop`): the entry loop of pass 2 with every repair accepted ends on
any bytes, and the entries then tile the block and have passed the checks. A first block begins with "." and "..", and
entries in front of the first damage are kept. For each kind of damage to a single entry it is proved what becomes of
the block, bytes behind the damage included.

**Intervals** (`Region`): the linked list behind `region_allocate` is a canonical form of the set it covers.

**Reference counts** (`Refcount`, `ExtAttr`): the sorted array is a map; with it pass 1 leaves in every shared
attribute block the number of inodes that kept it.

**Extents** (`Extents`): rebuilding an extent tree preserves the mapping, exactly when every contiguous run is shorter
than 2^32 blocks.

**Bitmaps** (`BlockBitmap`, `InodeBitmap`): the counts of pass 5 are those of the map that is kept, and nothing in use
is discarded; everything else is, unless discarding is turned off, and then there is a reason. (`Arithmetic` and
`Distinct` hold lemmas used in several parts.)

**Connectivity** (`Connectivity`): pass 3 over a whole set of directories; exactly those on a chain into a circle of
parents stay apart from the root.

**Directory table** (`DirInfo`), **duplicate claims** (`Duplicates`): the tables of passes 1 to 3 and 1B to 1D.

**Journal** (`JournalTags`, `Journal`, `JournalWriter`): debugfs writes a transaction from whose bytes every block, its
target and its checksum can be decoded again; and its scanner finds the end of any number of transactions, wherever they
run round the end of the log.

## Where the code does not do what it says

The model follows the code. Each of these is proved about it.

- Replay stores its own state in `txn_id`. Opening a finished log leaves the counter at 0 exactly when the log ends
  outside a transaction (`RedoLog.RedoData.Open`). The first transaction of the new session is then committed and never
  replayed (`RedoSessions.FirstTransactionLost`), which is a loss of durability; and the second one is written with the
  first one's bytes, which breaks atomicity (`RedoSessions.SecondTransactionCorrupted`, `CorruptedIsNotAtomic`).
- A write of size zero looks like a marker. It tears its own transaction in two (`RedoSessions.EmptyWriteTears`,
  `TornIsNotAtomic`), and as a transaction of its own it loses the next one (`RedoSessions.EmptyWriteLosesNext`). A
  begin inside a transaction is taken for its end (`RedoSessions.BeginInsideTears`, `InsideIsNotAtomic`), an end outside
  for a begin (`RedoSessions.EndOutsideLoses`). The exact condition for all of these and for the counter is
  `RedoSessions.SessionInStep`.
- A write outside any transaction is logged and never stepped over (`RedoSessions.StrayWriteCorrupts`,
  `StrayIsNotAtomic`). It does harm exactly when a transaction with data commits after it (`RedoTheorems.AlignedExact`,
  `RedoTheorems.ReplayRefinesFold`); otherwise crash atomicity covers the session.
- A transaction already marked is skipped without moving the data cursor, so resuming an interrupted replay can write
  one transaction's data in another's place (`RedoLimits.ResumeCorrupts`, exact conditions in `RedoTheorems.ReplayExact`
  and `RedoTheorems.ResumeExact`).
- An end marker in the last slot of an index block leaves the cursor one index block behind: the next transaction is
  written with bytes of the index (`RedoLimits.LastSlotCorrupts`, `RedoSessions.UnalignedIsNotAtomic`, exact condition
  in `RedoTheorems.AlignedExact`).
- The overflow test in `load_extents` is made on a sum that has already been cut to 32 bits, so it never fails
  (`Extents.LongRunLost`, exact condition in `Extents.CoalescePreserves`).
- The comment on `check_directory` promises loop detection. The done map is looked at first, so the second attempt ends
  at once and directories in a circle are never offered (`Connectivity.CircleStaysApart`; that the circles are the only
  obstacle is `Connectivity.ConnectedExactly`).
- `fix_dotdot` records lost+found as the parent of every directory it touches. Nothing reads that entry again in
  pass 3 as long as each directory is visited once, which `Connectivity.Pass3.CheckDirectory` requires.
- `journal_guess_blocks` divides the bytes of all tags, and of all revoked block numbers, by more room than a block has.
  Each of the two numbers is too small whenever its list is not empty (`JournalWriter.EstimatesShort`). So the test for
  space lets transactions through that end behind the log (`JournalWriter.SpaceExact`), and the head that
  `journal_close_trans` sets is right exactly when one list is empty and the number for the other is one too small
  (`JournalWriter.HeadExact`).
- `region_allocate` takes an `int`. A negative length, or one that wraps, is refused only if the range collides in a way
  that is stated exactly; otherwise it is added, and the list is then out of order (`Region.RegionList.Allocate`,
  `Region.BackwardExact`, and `Region.BackwardsAdded` at an input that the callers let through).
- Inodes of an uninitialised group are not looked up in the inode map, so bits set there are not counted
  (`InodeBitmap.SkippedUncounted`; `InodeBitmap.InodeBitmaps.LookedIsAll` says when that makes no difference).
- The UUID behind the first tag is copied to an offset scaled by the size of a tag; no tag is lost to it
  (`JournalWriter.FillTag`).
- Pass 2 looks for a second "." before it cleans the name, and cleaning makes one of a name that is a single slash or
  NUL (`DirCheck.DotMadeExactly`).
- In pass 1D the flag for shared metadata is not reset from one inode to the next
  (`Duplicates.DupTables.Pass1D`).

## Model

| member | source | states |
|---|---|---|
| RedoFormat.TagRoundTrip | rfsck-lib/redo.h:44-50 | A tag read from its 16 little-endian bytes is the tag written. |
| RedoFormat.BlockRoundTrip | rfsck-lib/redo.h:52-58 | An index block of 255 tags is recovered from its 4096 bytes, whatever its head. |
| RedoFormat.SealedPasses | rfsck-lib/redo.c:60-63 | A sealed index block has the checksum of its own bytes with the field zeroed and the right magic number, and its tags read back. |
| RedoFormat.MagicNumber | rfsck-lib/redo.c:60-61 | The magic number is the hash of its name, 0xF69FC6E8. |
| RedoFormat.HeaderRoundTrip | rfsck-lib/redo.h:26-42 | The 512-byte header is recovered field by field. |
| RedoFormat.HeaderReadBack | rfsck-lib/redo.c:625-637 | A sealed header written to any log reads back, and allows a replay exactly when its state is "finished". |
| RedoLayout.BlockApartFromData | rfsck-lib/redo.c:65-82 | No index block overlaps any data extent, and the order of the two in the file is the order of slots. |
| RedoLayout.BlocksApart | rfsck-lib/redo.c:106-131 | Index blocks are disjoint and in order. |
| RedoLayout.DataApart | rfsck-lib/redo.c:283-311 | Data extents are disjoint and in order. |
| RedoLayout.PosStep | rfsck-lib/redo.c:283-311 | The closed-form position of the data advances by the size of a slot, and by one index block after every 255. |
| RedoLayout.CommittedGrows | rfsck-lib/README.md:21-28 | Logging more never changes or reorders the transactions already committed. |
| RedoWriter.SessionSlots | rfsck-lib/redo.c:42-140 | A bracketed session, with writes inside and outside transactions, leaves alternating markers, and every end marker holds the checksum chain of its own transaction. |
| RedoLog.RedoData.constructor | rfsck-lib/redo.c:142-210 | A fresh log is empty, its offsets are the closed-form positions, and its header is unfinished and sealed. |
| RedoLog.RedoData.Flush | rfsck-lib/redo.c:675-699 | Exactly the current index block is written, at its place. |
| RedoLog.RedoData.AddSlot | rfsck-lib/redo.c:60-82 | After any number of slots the incremental offsets and the tag array are those of the closed form, a new block being started after 255 slots. |
| RedoLog.RedoData.TxnBegin | rfsck-lib/redo.c:42-85 | Makes one begin step of the logical log and issues exactly the writes of that step. |
| RedoLog.RedoData.RfsckWrite | rfsck-lib/redo.c:270-315 | Makes one data step: the data is on its way before the slot that names it. That the slot holds the checksum of the data on file is CrashChecked. |
| RedoLog.RedoData.TxnEnd | rfsck-lib/redo.c:87-140 | Makes one end step, storing the checksum of the transaction and nothing of its neighbours. |
| RedoLog.RedoData.RedoMarkDone | rfsck-lib/redo.c:603-648 | Flushes the index and writes a sealed header that covers all index blocks, in that order. |
| RedoLog.RedoData.CopyBlock | rfsck-lib/redo.c:523-556 | The innermost copy loop makes the copies of a run of slots, stopping at the end marker or at the end of the block. |
| RedoLog.RedoData.CopyTxn | rfsck-lib/redo.c:514-560 | The two nested loops copy the slots of one transaction in order and leave the cursor where the scan state has it. |
| RedoLog.RedoData.ReplayTxn | rfsck-lib/redo.c:502-574 | The end of a transaction not yet marked: check, copy, mark on file and in memory. |
| RedoLog.RedoData.ReplaySlot | rfsck-lib/redo.c:477-586 | One slot of the scan, on any contents. |
| RedoLog.RedoData.ReplayBlock | rfsck-lib/redo.c:436-589 | One index block of the scan, and where the next one is looked for. |
| RedoLog.RedoData.Replay | rfsck-lib/redo.c:332-601 | On any bytes: nothing happens and 1 is returned unless the header is valid and finished; otherwise log, device and counter are those of the scan function. |
| RedoLog.RedoData.Open | rfsck-lib/redo.c:212-268 | Replays what an earlier session left and writes a fresh header; on a finished log the counter is then 0 if and only if the log ends outside a transaction, and the session starts as crash atomicity needs it if and only if the counter is positive. |
| RedoReplay.CopyEffect | rfsck-lib/redo.c:516-559 | Where one transaction's copies read from, and that the device becomes right when the cursor is. |
| RedoReplay.MarkEffect | rfsck-lib/redo.c:562-568 | Marking rewrites one index block and touches no data, no other block and not the header. |
| RedoReplay.BlockFound | rfsck-lib/redo.c:435-478 | The scan finds the next index block exactly where the writer put it. |
| RedoScan.ScanToEnd | rfsck-lib/redo.c:435-589 | The states of a replay, slot by slot and block by block, lead up to the end of the replay. |
| RedoReplay.ReplayReaches | rfsck-lib/redo.c:430-578 | After every slot of every index block of a finished log, partly marked or not: tags, offsets, marks, cursor, copies, device and reported mismatches. |
| RedoReplay.ReplayInvariant | rfsck-lib/redo.c:430-578 | The same after the whole scan. |
| RedoTheorems.CopiesExact | rfsck-lib/redo.c:516-559 | Replay copies every slot from where its data was logged if and only if the cursor never lags. |
| RedoTheorems.DriftExact | rfsck-lib/redo.c:498-559 | The lag is never negative, and is zero if and only if before it there is no data outside transactions and no transaction marked with data or ended in slot 254. |
| RedoTheorems.ExtentExact | rfsck-lib/redo.c:283-311 | A transaction takes no room between its markers exactly when it has no data and crosses no index block. |
| RedoTheorems.CursorExact | rfsck-lib/redo.c:498-559 | The cursor is right for every transaction that is copied if and only if nothing that causes a lag comes before one. |
| RedoTheorems.AlignedExact | rfsck-lib/redo.c:524-559 | With nothing marked, that is exactly alignment: no transaction with data commits after a write outside transactions or an end marker in slot 254. |
| RedoTheorems.ReplayExact | rfsck-lib/redo.c:435-575 | On any finished log, marked or not, replay copies every slot from where it was logged if and only if nothing that causes a lag comes before a transaction that is copied; the device is then the transactions not marked, applied in order. It reports exactly the transactions not marked whose end marker holds another checksum. |
| RedoTheorems.ReplayRefinesFold | rfsck-lib/redo.c:435-575 | Replay is the in-order application of the committed transactions if the log is aligned, and its copies are the right ones only then; an open transaction has no effect; no mismatch is reported if and only if every end marker holds the checksum of its transaction. |
| RedoTheorems.MismatchesExact | rfsck-lib/redo.c:502-512 | Nothing is reported up to a slot exactly when every end marker before it holds its checksum. |
| RedoTheorems.Absorb | rfsck-lib/redo.c:516-559 | Repeating all writes absorbs any prefix of them. |
| RedoTheorems.ReplayAgain | rfsck-lib/redo.c:478-501 | From a device holding any prefix of replay's writes, replay gives the device of one clean replay. |
| RedoTheorems.ReplayMarks | rfsck-lib/redo.c:562-568 | After a replay the log is a log image with every committed transaction marked. |
| RedoTheorems.MarkedReplayIsIdle | rfsck-lib/redo.c:498-501 | A log whose transactions are all marked changes neither device nor log. |
| RedoTheorems.SecondReplayIsIdle | rfsck-lib/redo.c:498-501 | A second replay after a complete one does nothing, to any device. |
| RedoTheorems.InterruptedReplay | rfsck-lib/redo.c:478-568 | A replay stopped after any slot of any block leaves a log image with exactly the transactions finished so far marked, and a device that holds exactly those if nothing made the cursor lag. |
| RedoTheorems.ReplayResumes | rfsck-lib/redo.c:478-568 | Replaying the log and the device that a replay stopped after any slot leaves ends with the device of one clean replay, when the cursor is right for what is still to be copied. |
| RedoTheorems.ReplayResumesCopying | rfsck-lib/redo.c:514-560 | The same for a replay stopped between any two copies of a transaction. |
| RedoTheorems.CleanCutExact | rfsck-lib/redo.c:498-559 | On an aligned log with nothing marked, the cursor is right after a stop at a slot if and only if no transaction that takes room ends before it and one with data behind it. |
| RedoTheorems.ResumeExact | rfsck-lib/redo.c:478-568 | The replay that resumes one stopped after any slot makes the right copies if and only if the cut is clean, and the device is then that of one clean replay. |
| RedoCrash.StoreBlock | rfsck-lib/redo.c:60-82 | Writing the index block with or without its newest slot keeps the log readable. |
| RedoCrash.StoreData | rfsck-lib/redo.c:283-286 | Writing data past everything on file disturbs nothing the index names. |
| RedoCrash.StoreHeader | rfsck-lib/redo.c:625-637 | A header covers only index blocks that are already on file. |
| RedoCrash.CallKeepsGood | rfsck-lib/redo.c:42-140 | After any prefix of the writes of any one call the log holds a prefix of the slots. |
| RedoCrash.SessionKeepsGood | rfsck-lib/redo.c:258-315 | The same for any prefix of the writes of a whole session. |
| RedoCrash.CrashImage | rfsck-lib/redo.c:399-431 | Whatever replay accepts after a crash is a finished log of a prefix of the slots, unmarked. |
| RedoCrash.CrashAtomicity | rfsck-lib/README.md:26-28 | Every crash of a session, with writes inside or outside transactions, followed by a replay leaves an initial run of the committed transactions, each applied whole, if the log is aligned. |
| RedoCrash.RecoveryRecovers | rfsck-lib/README.md:26-28 | If the recovery after such a crash is itself stopped after any slot with a clean cut, recovering again gives the device of an undisturbed recovery. |
| RedoCrash.MarkedDoneIsDurable | rfsck-lib/redo.c:603-648 | Transactions committed before a completed `redo_mark_done(1)` are in that run, through any later calls but `redo_mark_done(0)`. |
| RedoChecks.ImageChecked | rfsck-lib/redo.c:270-292 | In every finished log, marked or not, every slot with a size decoded from the file holds the checksum of the bytes at the position where its data lies. |
| RedoChecks.CrashChecked | rfsck-lib/redo.c:42-140 | After any prefix of the writes of any session every index block on file, at least those that the header counts, passes its own check, and every slot with a size in them holds the checksum of its data on file; after `redo_mark_done(1)` these are all blocks of the session. |
| RedoChecks.ChainIsXor | rfsck-lib/redo.c:50-97 | The running checksum of a transaction is the exclusive or, over the bytes on file, of the checksums of its slots. |
| RedoChecks.TxnChecked | rfsck-lib/redo.c:87-97 | So every end marker on file holds that of its transaction, itself included without the field. |
| RedoStep.ScannerToggles | rfsck-lib/redo.c:470-572 | On any finished log, in order or not, the scanner's transaction id is set by one slot that reads as a marker and cleared by the next, whatever has been marked meanwhile. |
| RedoStep.InStepExactly | rfsck-lib/redo.c:474-500 | For any slots whatever, the scanner is inside a transaction after every slot where the log is if and only if exactly the markers that open or end one have a positive id and, as the checksum of no bytes is positive, no data is empty. |
| RedoLimits.ResumeCorrupts | rfsck-lib/redo.c:498-501 | With one of two transactions marked, replay writes the first one's data where the second one's belongs. |
| RedoLimits.LateCopy | rfsck-lib/redo.c:514-560 | The write of a one-write transaction gets the bytes found as far before its data as the cursor lags. |
| RedoLimits.LastSlotCorrupts | rfsck-lib/redo.c:524-559 | After an end marker in slot 254 the next transaction is written with bytes of the index block, byte 16 being 0; if that byte is 0 neither in what was logged nor on the device, no number of whole transactions gives that device. |
| RedoSessions.BracketedExactly | rfsck-lib/README.md:21-28 | The sessions of crash atomicity are those with alternating begins and ends and no empty write. |
| RedoSessions.SessionOpens | rfsck-lib/redo.c:42-140 | After any calls the log is inside a transaction exactly where the calls are, and the counter has gone up by one for each end. |
| RedoSessions.FollowableIsBracketed | rfsck-lib/README.md:21-28 | With a positive counter the condition on the calls is exactly that begins and ends alternate and no write is empty. |
| RedoSessions.ZeroIsNotFollowable | rfsck-lib/redo.c:474-480 | With the counter at 0 no session with alternating markers and at least one transaction meets it. |
| RedoSessions.SessionInStep | rfsck-lib/redo.c:42-140 | After any session that ends with `redo_mark_done(1)`, replay is in step after every slot if and only if the calls meet the condition. |
| RedoSessions.FirstTransactionLost | rfsck-lib/redo.c:474-480 | With the counter at 0 a committed and marked transaction is never replayed. |
| RedoSessions.SecondTransactionCorrupted | rfsck-lib/redo.c:474-559 | With the counter at 0 the second of two transactions is written with the bytes logged from the first one's data on. |
| RedoSessions.CorruptedIsNotAtomic | rfsck-lib/README.md:26-28 | For two writes that differ and lie apart, no number of whole transactions gives that device. |
| RedoSessions.EmptyWriteTears | rfsck-lib/redo.c:477-572 | A transaction with an empty write in it is applied up to that write and no further. |
| RedoSessions.TornIsNotAtomic | rfsck-lib/README.md:26-28 | Which is neither nothing nor all of it when both halves change the device. |
| RedoSessions.StrayWriteCorrupts | rfsck-lib/redo.c:270-315 | A write outside any transaction in front of one with data: the transaction is written with that write's bytes. When this happens in general is stated by AlignedExact. |
| RedoSessions.BeginInsideTears | rfsck-lib/redo.c:474-572 | After a begin inside a transaction, what was logged before it is applied although it is not part of a committed transaction, and the committed one is not. |
| RedoSessions.InsideIsNotAtomic | rfsck-lib/README.md:26-28 | Which is neither nothing nor all of it when the write changes the device. |
| RedoSessions.EndOutsideLoses | rfsck-lib/redo.c:474-572 | After an end outside any transaction the next committed one is never replayed. |
| RedoSessions.UnalignedIsNotAtomic | rfsck-lib/redo.c:524-559 | For a session of a transaction of 253 writes and one of a single write, which keeps every rule but alignment, the device after replay is that of no number of whole transactions. |
| RedoSessions.StrayIsNotAtomic | rfsck-lib/README.md:26-28 | Which is neither nothing nor all of it when the two writes differ. |
| RedoSessions.EmptyWriteLosesNext | rfsck-lib/redo.c:477-497 | An empty write that is a transaction of its own makes replay lose the committed one after it. |
| DirBlock.Absorbed | e2fsck-patch/e2fsck/pass2.c:750-773 | Letting the previous entry absorb the bytes of a bad one keeps the front of the block tiled. |
| DirBlock.HoleShrinks | e2fsck-patch/e2fsck/pass2.c:728-736 | Closing an 8-byte hole shortens the block up to its last non-zero byte. |
| DirBlock.SalvageStep | e2fsck-patch/e2fsck/pass2.c:703-781 | Every salvage of an unsound entry keeps the tiled front and makes progress, by moving on or by a smaller measure. |
| DirCheck.SalvageDirectory | e2fsck-patch/e2fsck/pass2.c:703-781 | The in-place salvage does what the salvage function says; what that is worth is stated by the lemmas on single damages below. |
| DirCheck.CheckDot | e2fsck-patch/e2fsck/pass2.c:374-431 | A sound first entry becomes "." with the right inode, possibly split in two, and nothing behind byte 20 changes; a good one is left alone. |
| DirCheck.CheckDotDot | e2fsck-patch/e2fsck/pass2.c:438-479 | The entry becomes ".." and keeps its length; a good one is left alone and its inode is what is recorded, a repaired one points at the root and nothing is recorded. |
| DirCheck.CheckName | e2fsck-patch/e2fsck/pass2.c:485-504 | Exactly the slashes and NULs of the name become dots. |
| DirCheck.FinishEntry | e2fsck-patch/e2fsck/pass2.c:1272-1423 | An entry in use that fails one of the tests is cleared, and nothing else of it changes; otherwise exactly the slashes and NULs of its name become dots, unless the directory is encrypted, and its type is set. |
| DirCheck.FinishedTidy | e2fsck-patch/e2fsck/pass2.c:1272-1423 | After that an entry in use has an inode that exists, no slash or NUL in its name, and from the third entry on a name, and points neither to the root nor to its own directory. |
| DirCheck.PassesExactly | e2fsck-patch/e2fsck/pass2.c:1272-1423 | The entries that are left alone are exactly those that are tidy already, have their type, and from the third on are not named "." or "..". |
| DirCheck.CheckEntry | e2fsck-patch/e2fsck/pass2.c:1240-1423 | The first entry becomes ".", the second "..", and from the third on one that names its own directory is cleared and every other one checked; every entry is tidy then, one in place is left alone, and nothing in front of it or behind it changes, but for the split behind ".". |
| DirCheck.DotMadeExactly | e2fsck-patch/e2fsck/pass2.c:1284-1415 | From the third entry on, one that stays in use is named "." if and only if its name was a single slash or NUL. |
| DirLoop.OneAbsorbed | e2fsck-patch/e2fsck/pass2.c:750-763 | If one entry is bad and its length leads inside the block, and all others are in order, the one before it takes exactly its bytes and nothing else changes. |
| DirLoop.OneShortened | e2fsck-patch/e2fsck/pass2.c:738-749 | An entry that runs over the end of the block and is good otherwise keeps its inode and its name, and nothing but its length changes. |
| DirLoop.OneHoleClosed | e2fsck-patch/e2fsck/pass2.c:728-736 | Behind an 8-byte hole every entry is kept, 8 bytes earlier, and the last one takes the 8 bytes at the end. |
| DirLoop.RestAbsorbed | e2fsck-patch/e2fsck/pass2.c:764-773 | Any other damage costs the rest of the block: the entry before it takes it. |
| DirLoop.AllBlank | e2fsck-patch/e2fsck/pass2.c:774-781 | Such damage to the first entry leaves one empty entry over the whole block. |
| DirLoop.RunLoop | e2fsck-patch/e2fsck/pass2.c:1154-1506 | The loop, salvaging and checking in turn, ends, and a later block that needs no repair but salvaging becomes exactly what the salvages make of it. |
| DirLoop.CheckDirBlock | e2fsck-patch/e2fsck/pass2.c:1154-1506 | For any bytes the entries tile the block and every one is tidy; a first block begins with ".", its second entry, if any, is "..", and the inode of a good one is recorded. A block that is in order, the first or a later one, is unchanged. In a later block entries in order in front of the first damage are kept, and the five laws above hold over the old bytes. |
| Region.CanonicalIsUnique | e2fsck-patch/e2fsck/region.c:23-33 | Two sorted lists with gaps that cover the same set are equal, so the order of allocations leaves no trace. |
| Region.Misses | e2fsck-patch/e2fsck/region.c:78-106 | A range between two neighbours meets nothing allocated. |
| Region.Joined | e2fsck-patch/e2fsck/region.c:82-102 | Replacing up to two neighbours by one interval adds exactly the range and keeps the list canonical. |
| Region.RegionList.constructor | e2fsck-patch/e2fsck/region.c:35-46 | A new region covers nothing. |
| Region.JoinedDown | e2fsck-patch/e2fsck/region.c:83-86 | Growing an element downwards adds exactly the range, or puts the list out of order if the range runs backwards. |
| Region.JoinedUp | e2fsck-patch/e2fsck/region.c:87-100 | The same upwards, with the overlap with the next element refused. |
| Region.JoinedNew | e2fsck-patch/e2fsck/region.c:101-117 | The same for a new element. |
| Region.ForwardExact | e2fsck-patch/e2fsck/region.c:78-117 | On a list in order, a range that runs forwards is refused exactly on overlap, and otherwise exactly it is added. |
| Region.BackwardExact | e2fsck-patch/e2fsck/region.c:78-117 | A range that runs backwards is refused exactly when its end lies in an interval or just behind it, or its start lies in one and no interval before that starts at its end; otherwise the list is out of order. |
| Region.BackwardsAdded | e2fsck-patch/e2fsck/pass1.c:2375-2385 | Offset 200 and size 2^32 - 100 pass the test against the size of the block and are added as a range from 200 back to 100. |
| Region.RegionList.Allocate | e2fsck-patch/e2fsck/region.c:60-118 | For every `int` and every linked list the result is that of the search along the list. For a list in order: -1 exactly outside the region; forwards 1 exactly on overlap, 0 otherwise and then exactly the range is added; backwards 1 exactly on the collisions above; the list stays in order if and only if it is not a backwards range inside the region without collision. |
| Region.RegionList.GrowDown | e2fsck-patch/e2fsck/region.c:83-86 | Exactly one interval of the list gets the new start, and the list stays linked. |
| Region.RegionList.Extend | e2fsck-patch/e2fsck/region.c:87-102 | Refused exactly when the next element is run into; otherwise the element grows, or becomes one with the next. |
| Region.RegionList.Merge | e2fsck-patch/e2fsck/region.c:91-96 | Two neighbouring elements become one from the start of the first to the end of the second, and the list stays linked. |
| Region.RegionList.Insert | e2fsck-patch/e2fsck/region.c:107-117 | A new element is linked in between, at the front as well. |
| Refcount.CollapseRepresents | e2fsck-patch/e2fsck/ea_refcount.c:88-107 | Dropping the zero entries changes no count. |
| Refcount.InsertRepresents | e2fsck-patch/e2fsck/ea_refcount.c:113-147 | A zero entry in its place changes no count and keeps the order strict. |
| Refcount.SetRepresents | e2fsck-patch/e2fsck/ea_refcount.c:223-264 | Changing one entry changes the count of one block. |
| Refcount.RefcountTable.constructor | e2fsck-patch/e2fsck/ea_refcount.c:49-81 | An empty table, of 500 entries unless told otherwise. |
| Refcount.RefcountTable.Collapse | e2fsck-patch/e2fsck/ea_refcount.c:88-107 | In place, the non-zero entries in order remain. |
| Refcount.RefcountTable.Insert | e2fsck-patch/e2fsck/ea_refcount.c:113-147 | The entry is there with count 0 and every count is unchanged, growing by 100 entries when full. |
| Refcount.RefcountTable.Get | e2fsck-patch/e2fsck/ea_refcount.c:155-207 | Finds the entry of the block with its count exactly when there is one, creating it on request; cursor, collapse, retry and growth change no count, the array grows only when no entry can be dropped, and without the request it is not touched. |
| Refcount.RefcountTable.Fetch | e2fsck-patch/e2fsck/ea_refcount.c:209-221 | The value of a plain map, 0 by default; the array is not touched. |
| Refcount.RefcountTable.Increment | e2fsck-patch/e2fsck/ea_refcount.c:223-235 | The map with one more for this block. |
| Refcount.RefcountTable.Decrement | e2fsck-patch/e2fsck/ea_refcount.c:237-250 | Refused exactly at 0, otherwise the map with one less; no entry is made. |
| Refcount.RefcountTable.Store | e2fsck-patch/e2fsck/ea_refcount.c:252-264 | The map with this value; no entry is made for 0. |
| Refcount.RefcountTable.IntrNext | e2fsck-patch/e2fsck/ea_refcount.c:280-296 | The next entry with a count, skipping only zeros. |
| Refcount.RefcountTable.ListAll | e2fsck-patch/e2fsck/ea_refcount.c:274-296 | A whole iteration yields every counted block once, in ascending order, when block 0 is not counted. |
| ExtAttr.TablesBalance | e2fsck-patch/e2fsck/pass1.c:2417-2421 | For every 32-bit header count, 0 and negative ones included, the two tables make up the difference to the references kept, and are both zero exactly when there is none. |
| ExtAttr.KeptAgain | e2fsck-patch/e2fsck/pass1.c:2287-2304 | A further reference moves exactly one of the tables by one and keeps the balance of all blocks. |
| ExtAttr.FirstKept | e2fsck-patch/e2fsck/pass1.c:2417-2421 | The first reference establishes the balance. |
| ExtAttr.AttrBlocks.CheckExtAttr | e2fsck-patch/e2fsck/pass1.c:2225-2432 | Which inodes keep their reference, and that the tables balance for every block after each inode. |
| ExtAttr.AttrBlocks.Adjust | e2fsck-patch/e2fsck/pass1.c:2181-2220 | Every block of a table is asked about once, in order, and exactly the accepted headers are adjusted. |
| ExtAttr.AttrBlocks.AdjustAll | e2fsck-patch/e2fsck/pass1.c:1862-1872 | Every accepted header holds the number of inodes that kept the block, too high or too low before; no block is asked about twice, and it is asked about exactly when the header was wrong. |
| Extents.RunsExpand | e2fsck-patch/e2fsck/extents.c:102-120 | Joining neighbours with unbounded lengths preserves the mapping block by block. |
| Extents.CoalescePreserves | e2fsck-patch/e2fsck/extents.c:102-120 | With 32-bit lengths the mapping is preserved if and only if no contiguous run has 2^32 blocks or more. |
| Extents.ShortFile | e2fsck-patch/e2fsck/extents.c:102-120 | Which holds for every file shorter than that. |
| Extents.LongFileJoins | e2fsck-patch/e2fsck/extents.c:102-120 | Any number of contiguous leaves of 32768 blocks, up to 2^17, become one extent whose length is cut to 32 bits. |
| Extents.LongRunLost | e2fsck-patch/e2fsck/extents.c:106-113 | 2^17 such leaves, none longer than a leaf can be, vanish. |
| Extents.ExtentList.LoadExtents | e2fsck-patch/e2fsck/extents.c:71-149 | The list is the joined leaves in order, and each index node is freed once. |
| Extents.ExtentList.FindBlocks | e2fsck-patch/e2fsck/extents.c:151-207 | A block of a file without extents is attached like an extent of length one; index blocks are freed. |
| Extents.ExtentList.WriteExtents | e2fsck-patch/e2fsck/extents.c:268-303 | The loop that edits its own list ends, writes the same mapping, and no extent is too long for its kind. |
| Extents.ExtentList.RebuildFromExtents | e2fsck-patch/e2fsck/extents.c:231-303 | Read and written back, the mapping is the same if and only if every run is below 2^32 blocks. |
| Extents.ExtentList.RebuildFromBlocks | e2fsck-patch/e2fsck/extents.c:239-303 | The same for a file without extents. |
| BlockBitmap.ClearAgree | e2fsck-patch/e2fsck/pass5.c:395-411 | Equal bits give equal counts: what the comparison of whole groups relies on. |
| BlockBitmap.BlockBitmaps.WholeGroup | e2fsck-patch/e2fsck/pass5.c:390-411 | The shortcut leaves the same state as a bit-by-bit scan of the group would. |
| BlockBitmap.BlockBitmaps.Compare | e2fsck-patch/e2fsck/pass5.c:412-464 | A difference is counted and turns discarding off. |
| BlockBitmap.BlockBitmaps.CountRun | e2fsck-patch/e2fsck/pass5.c:466-476 | A run of free blocks is discarded only when none of it was found in use. |
| BlockBitmap.BlockBitmaps.DiscardBlocks | e2fsck-patch/e2fsck/pass5.c:192-209 | What has been discarded avoids every block found in use; a failing discard turns the option off, and so does a changed file system, and nothing else does. |
| BlockBitmap.BlockBitmaps.NextGroup | e2fsck-patch/e2fsck/pass5.c:488-499 | Finishing a group records its count and starts the next, the last one short. |
| BlockBitmap.BlockBitmaps.GroupsAddUp | e2fsck-patch/e2fsck/pass5.c:530-554 | The counts of the groups add up to the free blocks of the whole map. |
| BlockBitmap.BlockBitmaps.Scan | e2fsck-patch/e2fsck/pass5.c:366-500 | One scan establishes all counts for the map it looked at. |
| BlockBitmap.BlockBitmaps.Check | e2fsck-patch/e2fsck/pass5.c:309-559 | Accepted or declined, the counts are the clear bits of the map kept; the scan is redone at most once, exactly on an accepted difference; no discarded block was found in use, and every other block was discarded if the option is still on at the end; it is off then only for a difference, a failed discard or a changed file system, and always for the first two. |
| InodeBitmap.NothingNegative | e2fsck-patch/e2fsck/pass5.c:247-264 | What the round-up leaves of the count is above minus one block, so truncation makes the quotient non-negative and its conversion to an unsigned 64-bit number harmless. |
| InodeBitmap.WholeBlocksExact | e2fsck-patch/e2fsck/pass5.c:247-264 | With rounding up, truncating division and the unsigned block count, the blocks given up are exactly those that lie wholly in the unused range, none when there is no such block. |
| InodeBitmap.WholeBlocksInside | e2fsck-patch/e2fsck/pass5.c:247-264 | So they hold only inodes of the unused range. |
| InodeBitmap.InodeBitmaps.DiscardInodes | e2fsck-patch/e2fsck/pass5.c:217-265 | Exactly those blocks are discarded, if at all, and no discarded block of an inode table holds an inode in use; the option stays on only if they were. |
| InodeBitmap.InodeBitmaps.RunSpent | e2fsck-patch/e2fsck/pass5.c:706-742 | With the runs of free inodes discarded one by one no table block is missed: one without a set inode does not straddle the beginning of a run. |
| InodeBitmap.InodeBitmaps.WholeGroup | e2fsck-patch/e2fsck/pass5.c:628-650 | Skipping an uninitialised group without inodes in use counts it like a scan would. |
| InodeBitmap.InodeBitmaps.Compare | e2fsck-patch/e2fsck/pass5.c:652-704 | The bit compared is that of the map, also in a group that becomes initialised on the way. |
| InodeBitmap.InodeBitmaps.Scan | e2fsck-patch/e2fsck/pass5.c:617-763 | One scan establishes the counts of free inodes and of directories. |
| InodeBitmap.InodeBitmaps.Check | e2fsck-patch/e2fsck/pass5.c:561-834 | Accepted or declined, both counts are those of the bits that were looked at, and of the whole map after a redo; there is at most one redo, exactly on an accepted difference; no discarded table block holds an inode in use, and every other whole table block was discarded if the option is still on at the end; when it is off is stated as for blocks. A group loses its flag exactly when one of its inodes is in use and the offer to initialise the group was accepted there. |
| InodeBitmap.InodeBitmaps.LookedIsAll | e2fsck-patch/e2fsck/pass5.c:617-664 | The count of what was looked at is that of the whole map if and only if no inode skipped with its uninitialised group has its bit set. |
| InodeBitmap.SkippedUncounted | e2fsck-patch/e2fsck/pass5.c:617-664 | A flagged group of eight inodes with nothing in use and one bit set is counted as eight free inodes, without a redo. |
| Connectivity.EndsExactly | e2fsck-patch/e2fsck/pass3.c:267-282 | In a finite table a chain of parents ends at the root or at a missing parent if and only if it does not come to the same directory twice. |
| Connectivity.ConnectedExactly | e2fsck-patch/e2fsck/pass3.c:267-282 | With the offered directories moved to lost+found, a directory reaches the root if and only if its chain of parents does not come to the same directory twice. |
| Connectivity.CircleStaysApart | e2fsck-patch/e2fsck/pass3.c:301-355 | Two directories that are each other's parent are never connected. |
| Connectivity.Pass3.Climb | e2fsck-patch/e2fsck/pass3.c:283-355 | From any directory, at any depth and through the restart, the climb ends; the directories it looks at are exactly those on the way up to one that is done, without a parent or unknown, 2050 at most, and it fails exactly at an unknown one. |
| Connectivity.Pass3.LookUp | e2fsck-patch/e2fsck/pass3.c:304-329 | A parent is looked at once per directory, and the directory is offered exactly when there is none. |
| Connectivity.Pass3.CheckDirectory | e2fsck-patch/e2fsck/pass3.c:283-372 | Afterwards the directory is done, and its ".." settled exactly if the climb did not fail, as it cannot if every parent is known. |
| Connectivity.Pass3.Run | e2fsck-patch/e2fsck/pass3.c:88-111 | Each directory is looked up exactly once, the offers are exactly those without a parent; if every question is answered with yes, ".." ends up as the parent or lost+found, and leads to the root exactly for directories outside any circle. |
| DirInfo.InsertRepresents | e2fsck-patch/e2fsck/dirinfo.c:183-197 | Inserting in place adds one directory to the map and keeps the order. |
| DirInfo.MovesKeep | e2fsck-patch/e2fsck/dirinfo.c:409-418 | Entries only move towards the end, so an iteration passes none by. |
| DirInfo.DirInfoDb.Add | e2fsck-patch/e2fsck/dirinfo.c:130-198 | In order, out of order or again: the map with this entry, through growth and shifting. |
| DirInfo.DirInfoDb.Get | e2fsck-patch/e2fsck/dirinfo.c:204-285 | Finds the entry exactly when it was added, whatever the last lookup was. |
| DirInfo.DirInfoDb.SetParent | e2fsck-patch/e2fsck/dirinfo.c:425-436 | Fails exactly on an unknown directory, otherwise changes one parent. |
| DirInfo.DirInfoDb.SetDotDot | e2fsck-patch/e2fsck/dirinfo.c:442-453 | Fails exactly on an unknown directory, otherwise changes one "..". |
| DirInfo.DirInfoDb.Iterate | e2fsck-patch/e2fsck/dirinfo.c:378-419 | With directories added after every step, each one present at the start is visited, and the table ends up with exactly what was added. |
| Distinct.DistinctFit | e2fsck-patch/e2fsck/pass1b.c:501-503 | Distinct inodes are no more than the dictionary has entries. |
| Duplicates.StaysTransposed | e2fsck-patch/e2fsck/pass1b.c:120-169 | Recording a claim keeps the two tables transposes of each other, with multiplicity. |
| Duplicates.DupTables.AddDupe | e2fsck-patch/e2fsck/pass1b.c:120-169 | One more claim, the counters being the lengths of the lists. |
| Duplicates.DupTables.Merge | e2fsck-patch/e2fsck/pass1b.c:537-546 | The claimants of one more cluster are in `shared[]`, each once, within its bounds. |
| Duplicates.DupTables.Examine | e2fsck-patch/e2fsck/pass1b.c:504-547 | `shared[]` is exactly the other claimants, every lookup succeeds, and the file is fine exactly when no cluster is shared. |
| Duplicates.DupTables.Pass1D | e2fsck-patch/e2fsck/pass1b.c:504-576 | Every report names exactly the sharing inodes; its count is one higher from the first inode on metadata on. |
| JournalTags.CountTagged | e2fsck-patch/debugfs/do_journal.c:619-644 | Counting finds exactly the tags written, with or without a last-tag flag. |
| JournalTags.CountTags | e2fsck-patch/debugfs/do_journal.c:619-644 | The loop computes the count that the lemmas are about. |
| JournalTags.TagsRead | e2fsck-patch/debugfs/do_journal.c:348-366 | The block numbers can be read back from the tags, 64-bit ones included. |
| JournalTags.TargetsTagged | e2fsck-patch/e2fsck/recovery.c:353-360 | Decoding a descriptor block gives for every tag its target, its escape flag and its checksum, as far as the format records them. |
| JournalTags.RevokedIs | e2fsck-patch/debugfs/do_journal.c:203-255 | A finished revoke block names exactly the blocks put into it. |
| Journal.WalkFrame | e2fsck-patch/debugfs/do_journal.c:371-401 | Writing further back does not change what has been written in front. |
| Journal.WrapIsRound | e2fsck-patch/debugfs/do_journal.c:608-613 | Wrapping a position that has gone less than once over the end is counting it round the log. |
| Journal.WalkIsScan | e2fsck-patch/debugfs/do_journal.c:681-749 | The scanner takes the way over descriptor and revoke blocks round the end of the log, wherever that falls. |
| Journal.TransactionScanned | e2fsck-patch/debugfs/do_journal.c:681-749 | A transaction anywhere in the log, round its end or not, is passed with the head behind its commit block and the next sequence number. |
| Journal.ScanFindsHead | e2fsck-patch/debugfs/do_journal.c:646-760 | Over any number of transactions that follow each other round the log the scan ends with the head behind the last one and the next sequence number, if nothing continues the log there. |
| Journal.FindHead | e2fsck-patch/debugfs/do_journal.c:646-760 | The loop gives the head and sequence number at which the scan ends, or fails where it fails. |
| JournalWriter.FillTag | e2fsck-patch/debugfs/do_journal.c:348-368 | The tag is complete, its checksum bytes included, the UUID is where it is copied, and no other byte changes. |
| JournalWriter.TailSpared | e2fsck-patch/debugfs/do_journal.c:312-347 | With checksums no tag and no UUID reaches the last four bytes of a descriptor, which hold the checksum of the block. |
| JournalWriter.DescriptorWalk | e2fsck-patch/debugfs/do_journal.c:388-401 | Writing the descriptor makes a walk pass it and find exactly its data blocks, each with its target. |
| JournalWriter.FoundIsData | e2fsck-patch/e2fsck/recovery.c:594-644 | What a walk finds for a block is its number and its checksum, as far as the format records them, and, with the magic number restored where the flag says so, the data itself; no data block in the log begins with the magic number. |
| JournalTags.EntryCapacity | e2fsck-patch/debugfs/do_journal.c:203-239 | An entry fits into a revoke block exactly up to the quotient of the room by the size of an entry, and two always do. |
| JournalWriter.Transaction.AddBlocks | e2fsck-patch/debugfs/do_journal.c:263-409 | Refused exactly for a closed transaction or a block outside the file system; otherwise a walk finds exactly the blocks, in order, with their targets, flags and checksums, over any number of descriptor blocks, and exactly as many are written as the length of the list and the format ask for. |
| JournalWriter.Transaction.AddRevokes | e2fsck-patch/debugfs/do_journal.c:160-261 | The same for the list of revoked blocks and the number of revoke blocks. |
| JournalWriter.Transaction.Commit | e2fsck-patch/debugfs/do_journal.c:67-158 | The commit block is written behind everything, once. |
| JournalWriter.EstimatesShort | e2fsck-patch/debugfs/do_journal.c:410-433 | The estimated number of descriptor blocks is below the number written unless there is no data, and likewise for revoke blocks. |
| JournalWriter.HeadExact | e2fsck-patch/debugfs/do_journal.c:464-483 | The head set from the estimate is the end of the transaction if and only if exactly one list is not empty and its index blocks are one more than estimated. |
| JournalWriter.SpaceExact | e2fsck-patch/debugfs/do_journal.c:454-457 | A transaction that passes the test for space is sure to fit if and only if both lists are empty. |
| JournalWriter.Transaction.Write | e2fsck-patch/debugfs/do_journal.c:435-535 | Refused exactly when the estimate does not fit, and then nothing is written, or for a block outside the file system; otherwise the log holds data, revoked blocks and commit in an exact number of blocks, and the head is right exactly as HeadExact says. |
| JournalWriter.SmallGuess | e2fsck-patch/debugfs/do_journal.c:464-535 | For lists that need one block each the head is right exactly when one of them is empty and the other is not. |
| JournalWriter.StraightIsRound | e2fsck-patch/debugfs/do_journal.c:646-760 | A transaction written in one go is one that the scanner finds counting round the log. |
| JournalWriter.WriteThenFind | e2fsck-patch/debugfs/do_journal.c:497-760 | Writer and scanner agree on where the transaction ends, if the number of blocks it needs fits and nothing stale behind it continues the log. |

## Left out

- System calls, memory allocation and I/O errors: they succeed. CRC32C is any function from bytes to 32 bits.
- Reordering of writes between two `fsync` calls of the redo log: a crash keeps a prefix of the writes, each whole.
- rfsck-lib/redo.c: `replay_blocks` is given one element more than the code allocates, and the variable `retval` that
  the logging calls return uninitialised is 0.
- RedoCrash.CrashAtomicity: requires begins and ends that alternate, non-empty writes, a positive transaction counter
  below 2^31 and an aligned log. `BeginInsideTears`, `EmptyWriteTears`, `SecondTransactionCorrupted`,
  `StrayWriteCorrupts` and `UnalignedIsNotAtomic` are sessions that each break one of these, keep the others, and end
  with a device that no number of whole transactions gives; after an end outside any transaction the following
  transactions are lost (`EndOutsideLoses`). The bound 2^31 is the width of the counter.
- RedoTheorems.ReplayResumes: requires the cursor to be right; `ResumeCorrupts` is an input on which it fails otherwise,
  and `CursorExact` and `CleanCutExact` say when it is right.
- RedoCrash.RecoveryRecovers: the recovery is stopped between two slots; a stop between two copies is covered for a log
  image by `ReplayResumesCopying`.
- DirLoop.CheckDirBlock: blocks below 64K whose size is a multiple of 4, without checksum tail, hash tree or inline
  data, and with every repair accepted. The tests of pass2.c:1272-1316 on an entry by itself are modelled, but for bad
  blocks; those that look at other tables and the length of encrypted names are one decision per entry.
- DirCheck.FinishEntry: an entry that is cleared as a second link to a directory, which the code does after cleaning the
  name, is cleared with its name as it was.
- DirCheck.CheckDotDot: the inode of a good ".." is a result; the table it is recorded in is that of `DirInfo`.
- Refcount.RefcountTable.Increment: counts do not wrap at 32 bits.
- Refcount.RefcountTable.ListAll: requires that block 0 is not counted, since block 0 ends an iteration.
- ExtAttr.AttrBlocks.CheckExtAttr: both tables exist from the start instead of being made at first use, and the checks
  of the attribute block are one decision per inode.
- ExtAttr.AttrBlocks.AdjustAll: that a block is asked about exactly when its header is wrong is stated up to 2^31
  references.
- Extents.ExtentList.LoadExtents: block numbers do not wrap at 64 bits, and the growth of the list is not modelled.
- BlockBitmap.BlockBitmaps.Check: one block per cluster; the ranges named in the questions and the final update of the
  group descriptors and the superblock are left out, as are those of the inode version.
- InodeBitmap.InodeBitmaps.Check: requires that the inodes fill the groups and that the inodes of a group and of a block
  are counted in an `int`; the flag for zeroed inode tables is left out.
- Connectivity.Pass3.Run: lost+found exists from the start; creating it and restarting the checker are left out.
- DirInfo.DirInfoDb.Get: requires a directory in the table, since the code reads the first and last entry; the variant
  with a TDB database and the table of hashed directories are left out.
- Duplicates.DupTables.Pass1D: without the repairs, which change the tables; dictionary keys stay below 2^31.
- JournalWriter.Transaction.Write: the body of the commit block (checksum and time) is a parameter, block numbers are
  mapped to themselves, checksums of data blocks are parameters, and a transaction that is left uncommitted on purpose
  and the checksums at the end of descriptor and revoke blocks are left out.
- Journal.FindHead: requires a number of turns after which the scan ends; a log full of matching revoke blocks has none.
- The other passes of e2fsck, journal recovery, prompts and messages, the XFS variant, contrib tools and the other
  debugfs commands.
