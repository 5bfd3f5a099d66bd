# Verified models of a systems-course repository

The repository holds coursework on operating systems, databases, compilers and algorithms. This project models the
parts of it whose correctness is not obvious from reading one function, in Dafny, and proves what those parts are for.

| part | files here | what it is about |
|---|---|---|
| TINY compiler and TM machine | `TinyLanguage`, `TinyMachine`, `TinyEmitter`, `TinyCorrect` | the code generator with its back-patching emitter, the machine it generates for, and a semantics of the source language; the compiler is proved correct in both directions |
| xv6 write-ahead log | `LogDisk`, `LogProtocol`, `BufferCache`, `WriteAheadLog`, `Transactions` | the disk as blocks, with a crash possible after any block write; the protocol as events of any number of concurrent operations; the C functions over the buffer cache, and whole runs of them through crashes |
| B+ tree insertion | `BTreeNode`, `BTreeLevels`, `BTreeShape`, `BTreeFill`, `BTreePages`, `BTreeIndex` | array nodes; a tree as levels of nodes; insertion with splits up to the root; how full and how high the tree is; the pages that hold it |
| K&R allocator | `FreeList`, `Allocator` | the circular free list in address order, `free`, `morecore`, `malloc` |
| PF buffer manager | `PfHashTable`, `PageBuffer` | LRU list and free list threaded through one table, hash table, pins, the disk |
| xv6 file layer | `FileBlocks`, `FileBitmap`, `FileSpace`, `FileLayer`, `AllFiles`, `FileWrites`, `MakeFs` | block numbers in three levels of pointers, the bits of the bitmap, `readi`, `writei`, `itrunc`; the blocks that takes; all files together; `filewrite`; `mkfs`, which lays out the disk |
| Page tables and frames | `PageFrames`, `PageTables`, `KernelPages`, `AddressSpaces` | two-level page tables, the frame free list, growing, freeing and copying an address space; its kernel half; what the hardware lets user and kernel do with each page; all address spaces together |
| Sleep locks, pipes | `SleepLock`, `PipeBuffer` | processes as atomic steps between spinlock operations |
| Classical algorithms | `TopologicalSort`, `Dijkstra`, `MatrixChain`, `RegexMatcher` | |

Code that works in place is modelled by classes and arrays that methods change; each such method is proved against
functions of the old state, and what the code promises is proved about those functions. Concurrent code is modelled
as a state machine: a step is what happens between two points at which another process may run, and a lemma about runs
quantifies over every sequence of steps.

How to read the main claims:

* **Compiler.** `EvalStmts` says what a TINY program does to its variables, input and output; loops make it take a
  bound on how often a loop may jump back. `CompilerCorrect` relates any program that ends to the machine;
  `StopsExactlyWhenProgramEnds` says that the machine stops on exactly the programs that end, so neither of the two can
  run on alone. Division by zero and exhausted input are ways to end and are part of both statements.
* **Log.** `Committing(.., k)` and `Recovering(.., k)` are the disks after k block writes. The methods of
  `WriteAheadLog.Log` are proved to write the disk in exactly this order (`states` is the list of all disks there ever
  were), and the crash theorems are about those disks. `Transactions.LoggedDisk` puts the two together: a client of the
  C functions is at every moment in a state of the protocol, and every disk there was is one of the protocol's.
* **B+ tree.** A tree is a list of levels, and the rule that a parent's keys are its children's largest keys becomes
  one equation between neighbouring levels: the entries of a level are the heads of the nodes below.
* **Buffer cache and buffer manager.** `view` is what a reader of the cache sees of each block or page, independent of
  where it is kept. `stamp` says when each buffer was last released or used; that the lists keep to it makes "least
  recently used" a statement about time.
* **File layer.** `Encoded` ties the marks of the blocks to the bits of the bitmap blocks. `Recorded` and `LoggedOnly`
  say from both sides which disk blocks an operation hands to `log_write`: all that change, and no others.
* **Pages.** `Translate` is the hardware's walk through both levels, with the permission bits of both entries.

## Where the code does not do what its comments or callers expect

* `commit` (log.c) stops with the panic "bget: no buffers" exactly when something is logged and the logged blocks,
  together with the blocks that others hold, are as many as the cache has buffers (`NBUF` = `LOGSIZE` = 30): none is
  then left for the log block (`WriteAheadLog.Log.Commit`). Nothing has been written at that point. Operations within
  their reservations get there: with 30 blocks logged, or with fewer when `fileread`, which is in no transaction, holds
  buffers of as many other blocks as are missing (`WriteAheadLog.CommitCanPanic`).
* mkfs.c:25 makes the log area `LOGSIZE` blocks, header included, so `log_write` refuses the thirtieth block although the
  reservations admit it. They keep operations from this panic exactly when the log area is larger than `LOGSIZE`
  (`LogProtocol.TooBigExactly`); the log modules speak of log areas that are.
* A writer that has filled a pipe while readers were asleep, and then gives up because it was killed or the read end was
  closed, leaves without waking them. `PipeBuffer.Pipe.PipeWrite` says that exactly then a sleeper is left behind, and
  `PipeBuffer.LostWakeup` is a run that gets there.
* `malloc` computes the number of units in 32 bits: for more than 2^32 - 8 bytes the sum wraps and the block is too
  small, and from 2^28 units on `sbrk` is asked for a number of bytes that is not positive
  (`Allocator.RoomForBytes`, `Allocator.SbrkGrows`; both are exact).
* `copyuvm` (vm.c:341-342) does not give back the frame it has just taken when there is no memory for a page table. It
  loses that frame exactly when it fails and the free list was not just enough for a number of pages less than the copy
  has (`PageTables.Vm.Copyuvm`); in a new address space, when the frames then free leave 1 divided by 1025
  (`PageTables.LostExactly`). `AddressSpaces.LosesFrame` is a run from switching on a machine with 200 frames.
* `setupkvm` (vm.c:138-141) gives nothing back when it fails: with 1 to 64 frames free, each call loses all of them
  (`KernelPages.SetupKvm`; it takes 65).
* `growproc` (proc.c:140) takes the answer 0 of `deallocuvm` for a failure. Asked to give up all of its memory, a process
  loses its pages and keeps its size; exactly then its pages are not those that its size reaches
  (`AddressSpaces.Growproc`). Asked to give up more than it has, it is told that this was done, and nothing is.
* `iappend` (mkfs.c:272) lets every block number below `MAXFILE` through, but indexes one indirect block with it: a file
  of more than 139 blocks is written outside the array. `MakeFs.Image.AppendTo` and `MakeFs.Make` say exactly which files
  fit.
* `mkfs` (mkfs.c:161) rounds the size of the root directory up by a whole block if it is a multiple of the block size
  already, that is, with 30 files, or 62, and so on: exactly then the size reaches behind the last block
  (`MakeFs.Image.RoundRoot`, `MakeFs.Make`). A read there makes `bmap` allocate, in `fileread` outside any transaction.
* `filewrite` (file.c:133) computes the most it writes in one transaction from `LOGSIZE`, not from `MAXOPBLOCKS`. A
  transaction of that size always logs at least 13 blocks, more than the 10 that `begin_op` has reserved for it
  (`FileWrites.OneTransaction`); what is proved of operations within their reservations is not about these. It logs at most
  18 blocks and those of the bitmap, so one at a time fits into the log.
* `allocuvm` is announced to return the new size or 0; asked to shrink it returns the old size. The model does what the
  code does.
* The comments above `FindKeyBrut` and `DeleteNode` (ix_btnode.cc:134-138, 295-302) list return values that the code does
  not produce; the model follows the code.
* The bounds checks of `stepTM` (tm.c:314, 331) let one address past the end of each array through. The machine model
  stops there with a result of its own, `srUNDEFINED`; compiled programs never get there.

## Model

| member | source | states |
|---|---|---|
| TinyLanguage.QuotTruncates | compiler/compiler/tm.c:374-378 | division truncates toward zero: the remainder is smaller than the divisor and never has the sign opposite to the dividend |
| TinyMachine.TM.constructor | compiler/compiler/tm.c:513-523 | registers are 0, memory is 0 but for the size of memory in cell 0 |
| TinyMachine.TM.StepTM | compiler/compiler/tm.c:307-397 | the in-place step on the register and memory arrays is the step of the machine state as a value, errors included, and leaves the program alone |
| TinyMachine.TM.StepMany | compiler/compiler/tm.c:529-551 | repeated steps are a run of the machine that stops at the first result other than OK |
| TinyMachine.RunSplit | compiler/compiler/tm.c:529-551 | a run of m + n steps is a run of m, continued for n unless it has stopped |
| TinyMachine.RunStops | compiler/compiler/tm.c:529-551 | two runs from one state that have both stopped ended in the same state with the same result |
| TinyEmitter.Emitter.EmitRO | compiler/compiler/code.c:34-39 | adds one line, for address emitLoc, and moves on; highEmitLoc never falls behind |
| TinyEmitter.Emitter.EmitRM | compiler/compiler/code.c:49-54 | adds one line, for address emitLoc, and moves on; highEmitLoc never falls behind |
| TinyEmitter.Emitter.EmitSkip | compiler/compiler/code.c:60-65 | leaves a gap and returns where it starts; no line is written |
| TinyEmitter.Emitter.EmitBackup | compiler/compiler/code.c:70-75 | goes back to an address without forgetting how far the code reached |
| TinyEmitter.Emitter.EmitRestore | compiler/compiler/code.c:79-80 | returns to the end of the code |
| TinyEmitter.Emitter.EmitRMAbs | compiler/compiler/code.c:90-97 | adds one line whose operand is the target relative to the next instruction |
| TinyEmitter.Emitter.FillGap | compiler/compiler/cgen.c:43-52 | back-patching one gap adds exactly that address's line, and emission goes on where it was |
| TinyEmitter.GrownTwice | compiler/compiler/code.c:34-97 | one stretch of code emitted behind another is the two together, each address still once |
| TinyEmitter.GrownBack | compiler/compiler/code.c:60-80 | a gap filled after the code behind it gives the same code as writing it in order |
| TinyEmitter.Emitter.GenExp | compiler/compiler/cgen.c:98-166 | emits the code of the expression, one line for each address from emitLoc on, and gives tmpOffset back |
| TinyEmitter.Emitter.GenIf | compiler/compiler/cgen.c:31-55 | with both gaps filled late, the lines are the code of the if statement, one for each address |
| TinyEmitter.Emitter.GenRepeat | compiler/compiler/cgen.c:57-69 | emits the loop with its backward jump, one line for each address |
| TinyEmitter.Emitter.GenStmt | compiler/compiler/cgen.c:25-95 | emits the code of any statement, one line for each address, tmpOffset unchanged |
| TinyEmitter.Emitter.CGen | compiler/compiler/cgen.c:171-185 | emits the code of a statement list |
| TinyEmitter.Emitter.CodeGen | compiler/compiler/cgen.c:196-212 | every address below highEmitLoc is emitted exactly once and none above it, holding the code of the program |
| TinyCorrect.LoadProgram | compiler/compiler/tm.c:221-303 | a file with one line for each address of the code, in any order, is read as that code followed by HALT everywhere |
| TinyCorrect.OpSim | compiler/compiler/cgen.c:129-157 | with the left operand in ac1 and the right one in ac, the operator's instructions leave the operator's value in ac, or stop with a division by zero |
| TinyCorrect.ExpSim | compiler/compiler/cgen.c:98-166 | expression code leaves the expression's value in ac and changes no memory but the temporaries below mp + tmpOffset; it stops with a division by zero if the expression has one |
| TinyCorrect.IfSim | compiler/compiler/cgen.c:31-55 | running the code of an if statement does what the statement does |
| TinyCorrect.UntilSim | compiler/compiler/cgen.c:57-69 | the test at the end of a loop goes on, or back for another round, as the source does |
| TinyCorrect.RepeatSim | compiler/compiler/cgen.c:57-69 | running the code of a repeat loop does what the loop does, or runs at least as long as the loop |
| TinyCorrect.StmtSim | compiler/compiler/cgen.c:25-95 | running the code of any statement does what the statement does: same variables, input left and output |
| TinyCorrect.StmtsSim | compiler/compiler/cgen.c:171-185 | the same for statement lists |
| TinyCorrect.ProgramSim | compiler/compiler/cgen.c:196-212 | for every bound on jumps the machine gets to where the program is after it |
| TinyCorrect.CompilerCorrect | compiler/compiler/cgen.c:25-212 | a machine that has stopped and a program that has ended agree: halted with the same output and variables, or division by zero, or out of input; never a memory fault |
| TinyCorrect.StopsExactlyWhenProgramEnds | compiler/compiler/cgen.c:25-212 | the machine stops after some number of steps if and only if the program ends |
| TinyCorrect.RunExplained | compiler/compiler/tm.c:529-551 | whatever a run of n steps shows, its result and output are those of the source program, and no fault is among them |
| TinyCorrect.CompileAndStep | compiler/compiler/cgen.c:196-212 | generating code, reading the file and stepping the machine shows a result and output that the source program explains |
| LogDisk.HeaderRoundTrip | OS_project/xv6-public/log.c:86-113 | what write_head writes, read_head reads back, whatever the header block held before |
| LogDisk.CommitTraceAt | OS_project/xv6-public/log.c:175-200 | commit makes 2n + 2 block writes, and its trace lists the disk after each of them |
| LogDisk.RecoverTraceAt | OS_project/xv6-public/log.c:115-122 | recovery makes n + 1 block writes, and its trace lists the disk after each of them |
| LogDisk.InstalledAt | OS_project/xv6-public/log.c:69-82 | after k installed blocks a block is its log copy or still itself, depending on its place in the log |
| LogDisk.RecoveredHome | OS_project/xv6-public/log.c:115-122 | recovery gives each home block its log copy if it is logged and leaves it alone if not, independent of the order of writes |
| LogDisk.CommitAt | OS_project/xv6-public/log.c:175-200 | a home block after k writes of commit is new exactly when its own install is among them, and its log copy is right from the header write on |
| LogDisk.CommitIsAtomic | OS_project/xv6-public/log.c:69-200 | a crash after any write of commit, then recovery: all old contents before the header write, all new ones from it on |
| LogDisk.RecoveryIsIdempotent | OS_project/xv6-public/log.c:115-122 | a crash after any write of recovery, then recovery again, gives the same home blocks |
| LogProtocol.StepKeeps | OS_project/xv6-public/log.c:125-231 | every event (begin, log_write, end, one disk write, finishing, crash) keeps the invariant that ties disk, cache view, log and history together |
| LogProtocol.RunKeeps | OS_project/xv6-public/log.c:125-231 | so does every sequence of events |
| LogProtocol.CrashGivesDurable | OS_project/xv6-public/log.c:115-122 | whenever the machine stops, recovery gives exactly the durable writes |
| LogProtocol.EveryCrashIsAtomic | OS_project/xv6-public/log.c:9-30 | after any run with any crashes, recovery yields the initial blocks with a prefix of the history replayed; no operation is cut by that prefix, and none still in progress is in it |
| LogProtocol.LogWriteHasRoom | OS_project/xv6-public/log.c:212-219 | an operation within its reservation never meets the panics of log_write |
| LogProtocol.RoomExactly | OS_project/xv6-public/log.c:132-134 | the condition of begin_op holds exactly when, whatever the operations in progress and this one log, one after the other and with absorption, in up to MAXOPBLOCKS calls each, the log holds it |
| LogProtocol.ReservationsHold | OS_project/xv6-public/log.c:125-172 | in any interleaving the logged blocks and all unused reservations fit the log, logged blocks are distinct, and no commit starts while an operation is in progress |
| LogProtocol.FinishedIsDurable | OS_project/xv6-public/log.c:143-172 | when a commit has finished every write made so far is durable |
| LogProtocol.CommitsReachable | OS_project/xv6-public/log.c:125-200 | for every k up to LOGSIZE there is a run of operations within their reservations that comes to a commit with k blocks logged |
| LogProtocol.BooksFollow | OS_project/xv6-public/log.c:125-231 | what operations have reserved and logged evolves without regard to the size of the log area |
| LogProtocol.TooBigExactly | OS_project/xv6-public/log.c:212-215 | operations within their reservations never meet the panic for a transaction that is too big if and only if the log area has more than LOGSIZE blocks |
| BufferCache.UnlinkRing | OS_project/xv6-public/bio.c:132-133 | the two assignments take a buffer out of the circular list, which stays circular both ways |
| BufferCache.LinkRing | OS_project/xv6-public/bio.c:134-137 | the four assignments put a buffer in front of the list |
| BufferCache.FrontRing | OS_project/xv6-public/bio.c:132-137 | both together move a buffer to the front and lose none |
| BufferCache.AllBusy | OS_project/xv6-public/bio.c:78-92 | all buffers are in use exactly when NBUF different blocks are held or dirty |
| BufferCache.Bcache.constructor | OS_project/xv6-public/bio.c:38-56 | all buffers are on the list and a reader sees the disk |
| BufferCache.Bcache.FindCached | OS_project/xv6-public/bio.c:69-76 | finds the buffer of the block, or there is none |
| BufferCache.Bcache.FindVictim | OS_project/xv6-public/bio.c:81-91 | finds the least recently used buffer that is unreferenced and clean, or there is none |
| BufferCache.GetsOldest | OS_project/xv6-public/bio.c:81-91 | the buffer that bget recycles is, of all that are unreferenced and clean, the one whose last release is longest ago |
| BufferCache.Younger | OS_project/xv6-public/bio.c:130-138 | moving the released buffer to the front keeps the list in the order of last releases |
| BufferCache.Bcache.Bget | OS_project/xv6-public/bio.c:62-93 | counts a cached block once more, or recycles the least recently used buffer that is unreferenced and clean; panics exactly if the block is not cached and every buffer is busy |
| BufferCache.Bcache.Bread | OS_project/xv6-public/bio.c:97-106 | the caller holds a buffer that shows the block as it reads now; the one recycled for it was released before all others that are unreferenced and clean; fails exactly when the block is not busy and NBUF others are; nobody's view changes |
| BufferCache.Bcache.Data | OS_project/xv6-public/bio.c:97-106 | the data of a held buffer is the block as every reader sees it |
| BufferCache.Bcache.ReadsAsOnDisk | OS_project/xv6-public/bio.c:97-106 | a block neither dirty nor held reads as it is on disk |
| BufferCache.Bcache.Fill | OS_project/xv6-public/log.c:77-77 | writing into a held buffer changes what readers see of this block only, and nothing on disk |
| BufferCache.Bcache.Bwrite | OS_project/xv6-public/bio.c:110-116 | one block write, of what readers see |
| BufferCache.Bcache.CopyAndWrite | OS_project/xv6-public/log.c:183-184 | the one block written is the source's contents, in the destination's place |
| BufferCache.Bcache.Pin | OS_project/xv6-public/log.c:229-229 | the block counts as dirty, so its buffer is not recycled |
| BufferCache.Bcache.Brelse | OS_project/xv6-public/bio.c:120-141 | one reference less, and readers and disk as before, given that the block is logged, still held by others, or as on disk; a block still held stays in its buffer; the last release is stamped with its time |
| BufferCache.Bcache.MoveToFront | OS_project/xv6-public/bio.c:130-138 | the released buffer becomes the most recently used one, and nothing but links changes |
| WriteAheadLog.Log.constructor | OS_project/xv6-public/log.c:54-66 | an empty in-memory log over the cache |
| WriteAheadLog.Log.WriteLog | OS_project/xv6-public/log.c:175-188 | writes the log copies in order, each a block write; fails, writing nothing, exactly when something is logged and every buffer is a logged block's or held by others; blocks outside the log read as before |
| WriteAheadLog.Log.InstallTrans | OS_project/xv6-public/log.c:69-82 | writes the log copies home in order and leaves nothing dirty; a reader sees each logged block with the contents he sees of its log copy, and every other block as before |
| WriteAheadLog.Log.ReadHead | OS_project/xv6-public/log.c:85-96 | the in-memory log is what the header on disk lists; nothing is written |
| WriteAheadLog.Log.WriteHead | OS_project/xv6-public/log.c:101-113 | one block write, of the header with the in-memory log in it |
| WriteAheadLog.Log.CommitPoint | OS_project/xv6-public/log.c:190-195 | log copies, then the header: the disk writes up to the commit point, in this order; a reader then sees the same in a logged block and in its log copy, and outside the log what he saw before |
| WriteAheadLog.Log.CommitLogged | OS_project/xv6-public/log.c:192-199 | with something logged: all its block writes, in order, and blocks outside the log read the same before and after, since what is installed is what readers saw |
| WriteAheadLog.Log.Apply | OS_project/xv6-public/log.c:196-198 | after the commit point, or with the log read back: installs, and clears the header last |
| WriteAheadLog.Log.Commit | OS_project/xv6-public/log.c:190-200 | its block writes are exactly the commit trace; it panics, having written nothing, exactly when something is logged and no buffer is left beside logged blocks and those others hold; no reader outside the log sees a change |
| WriteAheadLog.BusyCount | OS_project/xv6-public/bio.c:78-92 | when a commit starts, the buffers in use are those of the logged blocks and those of the other blocks that are held |
| WriteAheadLog.CommitCanPanic | OS_project/xv6-public/log.c:125-200 | for every number of readers below NBUF a run of operations within their reservations comes to a commit with NBUF minus that many blocks logged and, with so many others held, no buffer left |
| WriteAheadLog.Log.RecoverFromLog | OS_project/xv6-public/log.c:115-122 | its block writes are exactly the recovery trace, log and header are empty afterwards, and readers see the disk |
| WriteAheadLog.Log.LogWrite | OS_project/xv6-public/log.c:211-231 | the block is logged once, by absorption or at the end, and pinned; whoever holds a buffer holds it still; a panic, with nothing changed, exactly when the log is full for LOGSIZE or its area, or no operation is in progress |
| WriteAheadLog.Log.BeginOp | OS_project/xv6-public/log.c:125-141 | goes ahead exactly when no commit is on and the log holds whatever outstanding + 1 operations may log, in up to MAXOPBLOCKS calls each, on top of what it has; fresh blocks show that nothing weaker would do |
| WriteAheadLog.Log.EndOp | OS_project/xv6-public/log.c:145-172 | commits exactly when it ends the last operation, with exactly the commit trace; otherwise writes nothing; whoever reads meanwhile sees no change outside the log and keeps his buffer |
| Transactions.SameCommit | OS_project/xv6-public/log.c:175-200 | what commit writes does not depend on how the log area reads |
| Transactions.CommitRun | OS_project/xv6-public/log.c:175-200 | after every number of writes of a commit the disk is that of a run of the protocol, with nothing durable lost |
| Transactions.CommitExplained | OS_project/xv6-public/log.c:190-200 | each disk of the commit trace is that of a run of the protocol, and so is the state after the commit, everything durable |
| Transactions.RecoveryExplained | OS_project/xv6-public/log.c:115-122 | the same for the disks of the recovery trace, with exactly the durable writes left |
| Transactions.ExplainedRecovers | OS_project/xv6-public/log.c:9-30 | recovery from such a disk gives a beginning of the history that has all that was durable and cuts through no operation |
| Transactions.Update | OS_project/xv6-public/log.c:206-210 | bread, modify, log_write, brelse: readers see the new contents, the block is logged, the disk is untouched; fails exactly when bread finds no buffer |
| Transactions.LoggedDisk.constructor | OS_project/xv6-public/log.c:54-66 | switching on after a crash at any moment of any run: the durable writes are there and the run of the protocol goes on |
| Transactions.LoggedDisk.Begin | OS_project/xv6-public/log.c:125-141 | begin_op is the protocol's step, or has to wait, exactly when some writes within the reservations, its own included, would be too many for the log |
| Transactions.LoggedDisk.Write | OS_project/xv6-public/log.c:202-231 | the typical use of log_write is the protocol's step, and no panic of log_write is met |
| Transactions.LoggedDisk.End | OS_project/xv6-public/log.c:145-172 | end_op of the last operation leads through the protocol's commit: everything is durable and every disk on the way explained; a panic, exactly when no buffer is left, writes nothing |
| Transactions.Transact | OS_project/xv6-public/log.c:9-30 | a system call within its reservation: it waits exactly when some writes within the reservations would be too many for the log; its writes are seen in order, and durable when it is done alone; no disk written meanwhile has less than was durable before |
| Transactions.EveryDiskRecovers | OS_project/xv6-public/log.c:115-122 | pull the plug after any write: recovery gives a beginning of the history that has all that was durable then and cuts through no operation |
| BTreeNode.InsertPosUnique | FS_project/edubase/src/ix_btnode.cc:108-124 | among increasing keys the place where InsertNode puts a key is the only one that keeps them increasing |
| BTreeNode.BTNode.InsertNode | FS_project/edubase/src/ix_btnode.cc:108-132 | the shifted arrays hold the entries with the new one behind all keys not larger; fails exactly when the node is full |
| BTreeNode.BTNode.OpenGap | FS_project/edubase/src/ix_btnode.cc:114-122 | the loop moves every larger entry one place up and stops at the insertion point |
| BTreeNode.BTNode.FindKeyExact | FS_project/edubase/src/ix_btnode.cc:343-360 | the last entry with this key, and this rid if one is asked for; -1 exactly if there is none |
| BTreeNode.BTNode.FindKeyBrut | FS_project/edubase/src/ix_btnode.cc:304-319 | the position of the key, or else of the first larger one |
| BTreeNode.BTNode.DeleteNode | FS_project/edubase/src/ix_btnode.cc:140-165 | takes out the entry at a position, or the last one with the key; does nothing exactly when there is none |
| BTreeNode.BTNode.SplitNode | FS_project/edubase/src/ix_btnode.cc:196-222 | the upper half of the entries moves to the new node, which is linked in on the right: what stays is as much, or one entry more |
| BTreeNode.BTNode.MergeNode | FS_project/edubase/src/ix_btnode.cc:167-194 | the other node's entries join in order and it is left empty, with the link on its other side taken over; fails exactly when they do not fit |
| BTreeNode.EmptyOut | FS_project/edubase/src/ix_btnode.cc:180-186 | deleting by the first key as often as there are entries empties the node, even with repeated keys |
| BTreeNode.SplitAndMerge | FS_project/edubase/src/ix_btnode.cc:167-222 | merging the new node back after a split restores entries and links |
| BTreeLevels.CoversDown | FS_project/edubase/src/ix_indexhandle.cc:539-567 | one step of the descent goes from the node where the key belongs to the child where it belongs |
| BTreeLevels.HeadsIncreasing | FS_project/edubase/src/ix_indexhandle.cc:361-365 | if the entries of a level increase, so do the largest keys of its nodes |
| BTreeLevels.InsertAcross | FS_project/edubase/src/ix_indexhandle.cc:383-383 | inserting in the node where the key belongs inserts in the whole level, in order |
| BTreeLevels.ReplacedHeads | FS_project/edubase/src/ix_indexhandle.cc:446-456 | replacing a node by others replaces, in what the parents have to say, its head by theirs |
| BTreeLevels.Halves | FS_project/edubase/src/ix_indexhandle.cc:431-435 | the two halves with the pending entry in its half are the entries with it in its place; neither is empty nor overfull |
| BTreeShape.LargestEverywhere | FS_project/edubase/src/ix_indexhandle.cc:361-365 | the tree's largest key is the last key of the last node on every level |
| BTreeShape.LeafTakes | FS_project/edubase/src/ix_indexhandle.cc:383-383 | a key that is not a new largest one goes into its leaf and the tree stays in order, parents untouched |
| BTreeShape.LeafTakesLargest | FS_project/edubase/src/ix_indexhandle.cc:367-383 | with the last entry of every inner level raised to the new largest key, appending it to the last leaf keeps the tree in order |
| BTreeShape.HalvedLevel | FS_project/edubase/src/ix_indexhandle.cc:414-435 | splitting a full node changes neither the level's entries nor, but for this node's head, its heads |
| BTreeShape.ParentLevel | FS_project/edubase/src/ix_indexhandle.cc:446-456 | in the parent one entry becomes two, and the parent's own head stays |
| BTreeShape.SplitStep | FS_project/edubase/src/ix_indexhandle.cc:388-467 | one turn of the overflow loop: the tree is in order again once the parent takes one more entry, and would hold the same |
| BTreeShape.RootStep | FS_project/edubase/src/ix_indexhandle.cc:471-508 | splitting the root under a new one gives a tree in order, with no node too full and the same contents |
| BTreeFill.HalfEach | FS_project/edubase/src/ix_indexhandle.cc:403-435 | a full node and one more entry leave two nodes with half of what fits, or more, whichever half takes the entry |
| BTreeFill.SplitHalf | FS_project/edubase/src/ix_indexhandle.cc:388-467 | one turn of the overflow loop keeps every node but the root half full |
| BTreeFill.RootHalf | FS_project/edubase/src/ix_indexhandle.cc:471-508 | so does splitting the root under a new one, which has two entries |
| BTreeFill.HeightBound | FS_project/edubase/src/ix_indexhandle.cc:341-510 | a half full tree of height h > 1 holds at least 2 * (order / 2)^(h - 1) entries |
| BTreePages.StoredSet | FS_project/edubase/src/ix_indexhandle.cc:446-456 | rewriting one node's page is changing one node of the tree |
| BTreePages.StoredSplit | FS_project/edubase/src/ix_indexhandle.cc:403-423 | the split pages, with both neighbours' links set, hold the tree with the node in two, chained both ways |
| BTreePages.StoredRoot | FS_project/edubase/src/ix_indexhandle.cc:479-498 | a new page for the root makes the tree one level higher |
| BTreeIndex.InItsLeaf | FS_project/edubase/src/ix_indexhandle.cc:527-567 | a key of the tree is in the leaf that the descent comes to, at the place the order gives it |
| BTreeIndex.FoundInLeaf | FS_project/edubase/src/ix_indexhandle.cc:355-358 | FindKeyExact in that leaf misses exactly when the tree does not have the key |
| BTreeIndex.LeafChain | FS_project/edubase/src/ix_indexhandle.cc:418-423 | following the right links from the first leaf visits every entry of the tree once, in order |
| BTreeIndex.IndexHandle.constructor | FS_project/edubase/src/ix_indexhandle.cc:611-631 | a new index is a valid empty tree |
| BTreeIndex.IndexHandle.Follow | FS_project/edubase/src/ix_indexhandle.cc:540-548 | the entry followed is the first whose key is not smaller, or the last one |
| BTreeIndex.IndexHandle.FindLeaf | FS_project/edubase/src/ix_indexhandle.cc:527-603 | comes to the leaf where the key belongs, and path and pathP record the nodes and positions passed |
| BTreeIndex.IndexHandle.HopsRight | FS_project/edubase/src/ix_indexhandle.cc:570-600 | with distinct keys the hop to the right sibling never happens |
| BTreeIndex.IndexHandle.FindLargestLeaf | FS_project/edubase/src/ix_indexhandle.cc:197-232 | comes to the last leaf |
| BTreeIndex.IndexHandle.FindSmallestLeaf | FS_project/edubase/src/ix_indexhandle.cc:238-273 | comes to the first leaf |
| BTreeIndex.IndexHandle.RaisePath | FS_project/edubase/src/ix_indexhandle.cc:367-381 | the last entry of every inner node on the path takes the new key, and nothing else changes |
| BTreeIndex.IndexHandle.RaiseIfLargest | FS_project/edubase/src/ix_indexhandle.cc:361-381 | raises exactly for a new largest key, and treeLargest ends up as the larger of the two |
| BTreeIndex.IndexHandle.SplitNode | FS_project/edubase/src/ix_indexhandle.cc:403-423 | a full node becomes two neighbouring nodes on two pages, chained both ways, whose sizes differ by at most one |
| BTreeIndex.IndexHandle.SplitFull | FS_project/edubase/src/ix_indexhandle.cc:403-435 | splits, puts the pending entry into its half, and hands up the heads of both halves |
| BTreeIndex.IndexHandle.TellParent | FS_project/edubase/src/ix_indexhandle.cc:446-456 | the parent has the first head in place of the old entry and the second behind it, or only the first exactly when it was full |
| BTreeIndex.IndexHandle.SplitTurn | FS_project/edubase/src/ix_indexhandle.cc:388-467 | one turn ends with the target contents in a valid tree, or with the parent full and one entry pending there |
| BTreeIndex.IndexHandle.NewRoot | FS_project/edubase/src/ix_indexhandle.cc:479-507 | the new root holds the heads of the two halves of the old one |
| BTreeIndex.IndexHandle.RootTurn | FS_project/edubase/src/ix_indexhandle.cc:403-508 | a full root is split under a new one, and the target contents are in a valid tree |
| BTreeIndex.IndexHandle.PushUp | FS_project/edubase/src/ix_indexhandle.cc:388-509 | any cascade of splits, up to the root or not, ends in a valid tree with the target contents, every node but the root half full |
| BTreeIndex.IndexHandle.InsertEntry | FS_project/edubase/src/ix_indexhandle.cc:341-510 | keeps the whole-tree invariant, that every node but the root has order / 2 entries or more among it; reports an existing entry exactly if the key is there, changing nothing; otherwise the contents grow by exactly this entry, in its place |
| BTreeIndex.IndexHandle.NeverHigh | FS_project/edubase/src/ix_indexhandle.cc:341-510 | after any insertions every node has at most order entries, every node but the root at least half as many, and the number of entries bounds the height |
| FreeList.ReleasedHas | OS_project/xv6-public/umalloc.c:25-44 | giving back a block makes exactly its units free |
| FreeList.ReleasedHolds | OS_project/xv6-public/umalloc.c:33-42 | the block given back lies in one block of the new list |
| FreeList.ReleasedCircular | OS_project/xv6-public/umalloc.c:30-43 | the header updates leave one circular list in address order of disjoint blocks that do not touch |
| FreeList.TakenHas | OS_project/xv6-public/umalloc.c:75-85 | taking n units makes exactly those units not free |
| FreeList.TakenOrdered | OS_project/xv6-public/umalloc.c:75-85 | what remains is in address order, and the units taken lie apart from it |
| FreeList.TakenWhole | OS_project/xv6-public/umalloc.c:76-77 | unlinking a block of just the size leaves a circular list |
| FreeList.TakenTail | OS_project/xv6-public/umalloc.c:78-82 | cutting the tail off a larger block leaves a circular list |
| Allocator.RoomForBytes | OS_project/xv6-public/umalloc.c:69-69 | the units computed hold the bytes asked for exactly up to 2^32 - 8 bytes, with less than one unit to spare |
| Allocator.SbrkGrows | OS_project/xv6-public/umalloc.c:54-54 | sbrk is asked for the bytes needed, and for a positive number, exactly below 2^28 units |
| Allocator.Heap.Conserved | OS_project/xv6-public/umalloc.c:24-90 | every unit obtained from sbrk is free or in use, never both, and nothing else is; no size overflows |
| Allocator.Heap.FindSlot | OS_project/xv6-public/umalloc.c:30-32 | the search ends, at the last free block before the one given back |
| Allocator.Heap.Free | OS_project/xv6-public/umalloc.c:25-44 | the block joins the free list, merged with the blocks it touches; no other block in use changes |
| Allocator.Heap.MoreCore | OS_project/xv6-public/umalloc.c:47-61 | the memory owned grows by at least 4096 units and at least those asked for, and by no more than the larger of the two; they join the free list, which then has a block large enough; without memory nothing changes |
| Allocator.Heap.Start | OS_project/xv6-public/umalloc.c:70-73 | the first call makes the static header the one block of the list |
| Allocator.Heap.Take | OS_project/xv6-public/umalloc.c:75-85 | hands out the last n units of the block, as a block in use of just that size |
| Allocator.Heap.FullLap | OS_project/xv6-public/umalloc.c:86-88 | when the search is back at freep every free block has been found too small |
| Allocator.Heap.Onward | OS_project/xv6-public/umalloc.c:74-74 | each step of the search brings it nearer to freep and misses no block |
| Allocator.Heap.Malloc | OS_project/xv6-public/umalloc.c:64-90 | ends; returns a block of the units asked for, apart from all others in use, cut from the first free block behind freep that is large enough; returns 0 if and only if no free block is large enough and sbrk has no memory, and then nothing is lost; asks sbrk exactly when no free block is large enough |
| PfHashTable.HashTable.Find | FS_project/edubase/src/pf_hashtable.cc:63-86 | finds what the table, as a map, has for the page |
| PfHashTable.HashTable.Insert | FS_project/edubase/src/pf_hashtable.cc:96-127 | the map with one page more; refused, changing nothing, exactly if it has the page |
| PfHashTable.HashTable.Delete | FS_project/edubase/src/pf_hashtable.cc:136-165 | the map without the page; refused, changing nothing, exactly if it does not have it |
| PageBuffer.RelinkedKeeps | FS_project/hw3/pf_buffermgr.cc:716-769 | changing list links changes no view |
| PageBuffer.WrittenBack | FS_project/hw3/pf_buffermgr.cc:804-810 | writing a dirty page back changes no view |
| PageBuffer.Dropped | FS_project/hw3/pf_buffermgr.cc:782-824 | dropping a clean page changes no view |
| PageBuffer.Opened | FS_project/hw3/pf_buffermgr.cc:912-922 | entering a page just read, or just allocated, changes no view |
| PageBuffer.BufferMgr.constructor | FS_project/hw3/pf_buffermgr.cc:100-138 | all slots are on the free list, nothing is cached |
| PageBuffer.BufferMgr.Unlink | FS_project/hw3/pf_buffermgr.cc:746-769 | the used list loses this slot, wherever it is, and nothing but links changes |
| PageBuffer.BufferMgr.LinkHead | FS_project/hw3/pf_buffermgr.cc:716-734 | the slot becomes the head of the used list, which stays in the order of last uses, and nothing but links changes |
| PageBuffer.BufferMgr.InsertFree | FS_project/hw3/pf_buffermgr.cc:699-706 | the slot becomes the head of the free list |
| PageBuffer.BufferMgr.FindVictim | FS_project/hw3/pf_buffermgr.cc:782-824 | the last unpinned slot of the used list, which of all unpinned ones was used first; none exactly when all are pinned |
| PageBuffer.LastIsOldest | FS_project/hw3/pf_buffermgr.cc:782-824 | on a list in the order of last uses the last unpinned slot is, of all unpinned ones, the one whose last use is longest ago |
| PageBuffer.BufferMgr.WriteBack | FS_project/hw3/pf_buffermgr.cc:875-901 | a dirty page goes to the disk, a clean one does not; no view changes |
| PageBuffer.BufferMgr.Evict | FS_project/hw3/pf_buffermgr.cc:782-824 | the page leaves table and used list, its contents are on disk, and no view changes |
| PageBuffer.BufferMgr.InternalAlloc | FS_project/hw3/pf_buffermgr.cc:782-824 | gives a free slot, or else that of the least recently used unpinned page; fails, changing nothing, exactly when every page is pinned |
| PageBuffer.BufferMgr.Repin | FS_project/hw3/pf_buffermgr.cc:233-248 | one more pin, and the page becomes the most recently used one |
| PageBuffer.BufferMgr.ReadIn | FS_project/hw3/pf_buffermgr.cc:200-222 | the page is read in with one pin, into a free slot or else that of the least recently used unpinned page; out of buffers, or no such page, exactly when so, and then it is not cached |
| PageBuffer.BufferMgr.GetPage | FS_project/hw3/pf_buffermgr.cc:178-256 | returns the page as its clients know it, with one pin more and stamped as used last, in its slot, in a free one, or else in that of the unpinned page whose last use is longest ago, and no other page leaves; each error exactly when it applies; no view changes and no pinned page moves |
| PageBuffer.BufferMgr.AllocatePage | FS_project/hw3/pf_buffermgr.cc:267-308 | a pinned slot for a new page, chosen as in GetPage, whose contents nobody sees yet; each error exactly when it applies |
| PageBuffer.BufferMgr.MarkDirty | FS_project/hw3/pf_buffermgr.cc:319-352 | from now on the buffer's contents are the page's; errors exactly for a page not there or not pinned |
| PageBuffer.BufferMgr.Store | FS_project/hw3/pf_buffermgr.cc:251-252 | a client's write through the pointer counts if the page is dirty, and otherwise not before MarkDirty |
| PageBuffer.BufferMgr.UnpinPage | FS_project/hw3/pf_buffermgr.cc:362-396 | one pin less; most recently used when it was the last; no view changes; errors exactly when they apply |
| PageBuffer.BufferMgr.FlushOne | FS_project/hw3/pf_buffermgr.cc:408-466 | the unpinned page is written if dirty and its slot freed; no view changes |
| PageBuffer.BufferMgr.FlushPages | FS_project/hw3/pf_buffermgr.cc:408-466 | the file's unpinned pages leave the buffer and all others stay; warns exactly if a pinned one remains; no view and no other file's disk changes |
| PageBuffer.BufferMgr.ForcePages | FS_project/hw3/pf_buffermgr.cc:478-518 | for all pages: every page of the file that is in the buffer with promised contents is clean and on disk as clients see it, no other file's disk pages change, and an empty buffer over that disk shows the file as it was seen; for one page: that page likewise, and no other page's disk contents change; nothing but dirty flags changes in the buffer |
| FileBlocks.WordSet | OS_project/xv6-public/fs.c:373-376 | storing a block number in a pointer block changes this entry only and reads back; the low byte comes first |
| FileBlocks.NumberedIn | OS_project/xv6-public/fs.c:355-412 | the first 11 blocks of a file have their numbers in the inode, the next 128 in the block whose number comes then, all others in blocks of 128 numbers each that the last one leads to |
| FileBitmap.OneBit | OS_project/xv6-public/fs.c:66-69 | setting or clearing a bit of a byte changes this bit and no other |
| FileBitmap.OneMark | OS_project/xv6-public/fs.c:64-94 | rewriting bit bi % 8 of byte bi / 8 of bitmap block k changes the mark of block 4096 k + bi and no other |
| FileBlocks.PosOfInjective | OS_project/xv6-public/fs.c:355-412 | different blocks of a file have different places, across all three levels |
| FileBlocks.Attached | OS_project/xv6-public/fs.c:355-412 | putting a fresh, zeroed block into a place changes exactly that place, even when the block is itself a pointer block |
| FileBlocks.AttachConserves | OS_project/xv6-public/fs.c:56-78 | the bitmap still marks exactly the blocks in use, each in one place |
| FileBlocks.AttachExtends | OS_project/xv6-public/fs.c:355-412 | no block and no contents of the file is lost |
| FileBlocks.DataWritten | OS_project/xv6-public/fs.c:541-547 | writing contents moves no block of the file |
| FileBlocks.DataConserves | OS_project/xv6-public/fs.c:541-547 | and keeps the books |
| FileBlocks.WrittenByte | OS_project/xv6-public/fs.c:541-547 | after a block was made sure of and overwritten, its bytes are the new ones and all other bytes the old |
| FileBlocks.WriteTurn | OS_project/xv6-public/fs.c:541-547 | one turn of the loop has one chunk more of the source in the file, and nothing else changed |
| FileBlocks.Isolated | OS_project/xv6-public/fs.c:355-412 | a file made of blocks that are in use elsewhere keeps its blocks and contents |
| FileLayer.FileSystem.constructor | OS_project/xv6-public/fs.c:56-78 | a bitmap whose bits mark the blocks in use elsewhere, and a file without blocks |
| FileLayer.FileSystem.Mount | OS_project/xv6-public/fs.c:28-39 | the file system over a disk as it is found |
| FileLayer.FileSystem.Balloc | OS_project/xv6-public/fs.c:57-78 | the first block whose bit in the bitmap blocks is clear, marked and zeroed; every disk block that changes, the bitmap block with its bit included, is logged, and nothing else; panics exactly when none is free |
| FileLayer.FileSystem.Bfree | OS_project/xv6-public/fs.c:82-96 | clears the bit of a block in use, and the bitmap block that changes is logged; the panic is for a free one, exactly |
| FileLayer.FileSystem.FillInode | OS_project/xv6-public/fs.c:361-387 | a pointer of the inode is there, or gets a zeroed block; no other place changes |
| FileLayer.FileSystem.FillEntry | OS_project/xv6-public/fs.c:374-404 | the same for an entry of a pointer block, which is the one changed block not logged yet |
| FileLayer.FileSystem.BmapIndirect | OS_project/xv6-public/fs.c:368-380 | the block through the indirect block, made if missing, with everything changed logged; fails exactly when the free blocks are fewer than those missing |
| FileLayer.FileSystem.BmapDouble | OS_project/xv6-public/fs.c:383-409 | the block through two levels, made if missing; all that changed is logged, also when a level was just made; fails exactly when the free blocks are fewer than those missing |
| FileLayer.FileSystem.Bmap | OS_project/xv6-public/fs.c:355-412 | the file's block, zeroed if new; the file is extended and nothing in it changes; every disk block that changed is logged, bitmap blocks included, and none but bitmap blocks and the blocks on the way to this one; a block that is there costs nothing; panics exactly behind the largest file or when the free blocks are fewer than the data and pointer blocks missing |
| FileLayer.FileSystem.Readi | OS_project/xv6-public/fs.c:490-520 | returns exactly the bytes of the sequence from off on, cut at its end, and allocates nothing; -1 exactly for an offset behind the end or a wrapping sum |
| FileLayer.FileSystem.WriteOne | OS_project/xv6-public/fs.c:541-547 | one turn of the loop: one chunk more of the source is in the file |
| FileLayer.AllWritten | OS_project/xv6-public/fs.c:541-552 | with every chunk written the sequence is the old one with the source spliced in, and every block below the new size is there |
| FileLayer.FileSystem.Writei | OS_project/xv6-public/fs.c:525-554 | the byte sequence becomes the spliced one, other files' blocks are untouched; every disk block that changed is logged, the blocks written and the bitmap's among it, and none but bitmap blocks and the data and pointer blocks of the range; -1 exactly for the refused ranges, with nothing changed; a panic exactly when the free blocks are fewer than the data and pointer blocks missing in the range |
| FileLayer.FileSystem.WriteThenRead | OS_project/xv6-public/fs.c:490-554 | reading back what was written returns it |
| FileLayer.RankInjective | OS_project/xv6-public/fs.c:428-470 | itrunc comes to each place once |
| FileLayer.FreeStep | OS_project/xv6-public/fs.c:428-470 | the block it comes to is marked as in use, so the panic of bfree is out of reach |
| FileLayer.AllFreed | OS_project/xv6-public/fs.c:428-472 | after the last place nothing of the file is left in the bitmap |
| FileLayer.FileSystem.Itrunc | OS_project/xv6-public/fs.c:420-474 | the file is empty and the bitmap marks exactly what others use; every bitmap block that changed is logged, and no other block |
| AllFiles.FocusOn | OS_project/xv6-public/fs.c:56-96 | seen from one file, all other files are blocks in use elsewhere: the books of one file follow from those of all |
| AllFiles.OthersElsewhere | OS_project/xv6-public/fs.c:355-412 | every block of another file is among those in use elsewhere |
| AllFiles.AllKept | OS_project/xv6-public/fs.c:56-96 | and back: an operation on one file that leaves blocks in use elsewhere alone keeps the bitmap the disjoint union of the file system's own blocks and the blocks of all files |
| AllFiles.NoFiles | OS_project/xv6-public/mkfs.c:94-111 | a file system without files, whose bitmap marks its own blocks, is in order |
| AllFiles.AddFile | OS_project/xv6-public/fs.c:186-205 | so it is with one more file, and no other file changes |
| AllFiles.MapBlock | OS_project/xv6-public/fs.c:355-412 | bmap on one of all files: its block is there, the bytes of every file are the same, and the books of all are in order; the panic is exact |
| AllFiles.WriteTo | OS_project/xv6-public/fs.c:525-554 | writei to one of all files: its bytes are the spliced ones, every other file has the same bytes, and the books of all are in order; the panic is exact |
| AllFiles.ReadFrom | OS_project/xv6-public/fs.c:490-520 | readi from one of all files returns its bytes and changes none |
| AllFiles.Truncate | OS_project/xv6-public/fs.c:420-474 | itrunc of one of all files frees exactly its blocks, and every other file has the same bytes |
| FileSpace.FilledTwice | OS_project/xv6-public/fs.c:355-412 | filling some places and then others takes the free blocks that filling both takes |
| FileSpace.TooFew | OS_project/xv6-public/fs.c:57-78 | a place that finds no free block shows that there were too few for the whole from the start |
| FileSpace.DataCount | OS_project/xv6-public/fs.c:541-547 | with the blocks of a range of the file logged, at least so many blocks are |
| FileSpace.LoggedTwice | OS_project/xv6-public/fs.c:355-412 | what two steps log lies in the bitmap blocks and in the places of both, which keep their blocks |
| FileSpace.LoggedCount | OS_project/xv6-public/fs.c:355-412 | so not more blocks are logged than places were asked for and bitmap blocks there are |
| FileSpace.FewPlaces | OS_project/xv6-public/fs.c:355-412 | up to 128 blocks in a row have at most four pointer blocks on the way to them |
| FileWrites.OneTransaction | OS_project/xv6-public/file.c:142-144 | one transaction of filewrite logs every block of contents in its range, at full size more than begin_op reserves, and never more than 18 blocks beside the bitmap |
| FileWrites.FileWrite | OS_project/xv6-public/file.c:118-156 | in transactions of limited size the whole source gets into the file, or a beginning of it, refused exactly when the write starts behind the end or would make the file too long |
| MakeFs.EntryReads | OS_project/xv6-public/mkfs.c:147-150 | the root directory's entry for a file has its inode number, low byte first, and its name without a leading underscore, padded or cut off |
| MakeFs.Taken | OS_project/xv6-public/mkfs.c:256-290 | appending takes as many blocks as the file then needs more, an indirect block once it grows beyond 11 blocks |
| MakeFs.MarksUpTo | OS_project/xv6-public/mkfs.c:238-251 | the bitmap blocks with the written one have exactly the marks of the blocks given out |
| MakeFs.MetaWritten | OS_project/xv6-public/mkfs.c:250-250 | writing one of the file system's own blocks changes no file |
| MakeFs.Rounded | OS_project/xv6-public/mkfs.c:159-163 | a size rounded up as mkfs does is covered by the file's blocks exactly when it was not a multiple of the block size |
| MakeFs.Image.constructor | OS_project/xv6-public/mkfs.c:108-111 | an image of zeros, of which the first blocks are the file system's own |
| MakeFs.Image.Ialloc | OS_project/xv6-public/mkfs.c:224-235 | one more file, empty; the others are as they were |
| MakeFs.Image.BlockFor | OS_project/xv6-public/mkfs.c:271-288 | the file's block, taken from those not given out if missing, in the place where the kernel looks for it; fails exactly when there are too few |
| MakeFs.Image.AppendTurn | OS_project/xv6-public/mkfs.c:270-297 | one turn of the loop has one chunk more at the end of the file |
| MakeFs.Image.Append | OS_project/xv6-public/mkfs.c:256-297 | the file's bytes are followed by the new ones; succeeds exactly when they are none, or the file stays within 139 blocks and there are blocks enough |
| MakeFs.Image.AppendTo | OS_project/xv6-public/mkfs.c:256-297 | iappend to one of all files: its bytes are followed by the new ones, every other file has the same bytes, the books of all are in order, and exactly the blocks that the file needs more are given out |
| MakeFs.Image.AddData | OS_project/xv6-public/mkfs.c:152-153 | appended a block at a time the file has all the bytes read; succeeds exactly when they are not more than 139 blocks and there is room |
| MakeFs.Image.AddFile | OS_project/xv6-public/mkfs.c:142-153 | one more file with its entry in the root directory, alternating between the two; succeeds exactly when both fit |
| MakeFs.Image.RoundRoot | OS_project/xv6-public/mkfs.c:158-163 | the root directory keeps its bytes and stays in order exactly when its size was not a multiple of the block size |
| MakeFs.Image.WriteBitmap | OS_project/xv6-public/mkfs.c:238-251 | bit by bit, the bitmap block gets the marks that the kernel reads as exactly the blocks given out; fails exactly when they are more than its bits; no file changes |
| MakeFs.Image.Mount | OS_project/xv6-public/fs.c:28-39 | over the image the kernel has a file system in order, with the same files, exactly when every file has the blocks its size reaches |
| MakeFs.Make | OS_project/xv6-public/mkfs.c:68-168 | succeeds exactly when all files and the root directory fit; the image then has every file with its bytes and the root directory with the entries, in order but for a root directory with a multiple of 32 entries |
| MakeFs.ReadBack | OS_project/xv6-public/fs.c:490-520 | the kernel's readi on that image returns the bytes mkfs was given, and the directory entries |
| PageFrames.TableAdded | OS_project/xv6-public/vm.c:53-61 | a new page table changes the frame in this directory entry only |
| PageFrames.PageSet | OS_project/xv6-public/vm.c:80-82 | a new page table entry changes the frame of this page only |
| PageFrames.Grabbed | OS_project/xv6-public/kalloc.c:83-95 | taking a frame off the free list conserves all frames |
| PageFrames.Given | OS_project/xv6-public/kalloc.c:60-77 | so does giving one back, which is in no place of the address space |
| PageFrames.Placed | OS_project/xv6-public/vm.c:70-89 | so does putting a frame into an empty place |
| PageFrames.Unplaced | OS_project/xv6-public/vm.c:275-282 | so does taking a user page's frame out |
| PageFrames.Untouched | OS_project/xv6-public/vm.c:322-349 | an address space made of frames that belong to others keeps its mapping and contents |
| PageFrames.NewSpace | OS_project/xv6-public/vm.c:133-136 | a free frame, cleared, is a new address space that conserves all frames |
| PageFrames.OneMoreTable | OS_project/xv6-public/vm.c:58-61 | a new page table may be used from user mode and for writing, as all others of the directory |
| PageTables.Vm.constructor | OS_project/xv6-public/kalloc.c:46-52 | with a range of n frames freed from the start, each is on the free list once |
| PageTables.EntryDecides | OS_project/xv6-public/vm.c:58-61 | by the hardware's walk through directory and page table, the page table entry alone decides who can do what with a page |
| PageTables.Vm.NewDirectory | OS_project/xv6-public/vm.c:133-135 | the first step of setupkvm: an empty directory in a frame nobody uses; none exactly when the free list is empty |
| PageTables.Vm.Kalloc | OS_project/xv6-public/kalloc.c:83-95 | the first free frame, which nobody uses; none exactly when the list is empty |
| PageTables.Vm.Kfree | OS_project/xv6-public/kalloc.c:60-77 | the frame is free again, and no place and no other frame changes |
| PageTables.Vm.Walkpgdir | OS_project/xv6-public/vm.c:45-64 | the page table of the page; made empty on request, mapping nothing and open to user mode and writing; missing only if not asked for or memory is out |
| PageTables.Vm.MapPage | OS_project/xv6-public/vm.c:70-89 | maps this page to the frame and changes no other page; without memory for a page table nothing is mapped |
| PageTables.Vm.UnmapPage | OS_project/xv6-public/vm.c:275-282 | frees the frame of this page and changes no other page |
| PageTables.Vm.Deallocuvm | OS_project/xv6-public/vm.c:262-285 | unmaps exactly the pages from newsz up to oldsz, page tables skipped as a whole included, and keeps the others' entries and contents |
| PageTables.Vm.Allocuvm | OS_project/xv6-public/vm.c:228-255 | adds exactly the pages from oldsz up to newsz, zeroed, and by the hardware's walk readable and writable from user mode, every other page reached as before; or leaves the user mapping as it was; succeeds if and only if there are as many free frames as pages and missing page tables |
| PageTables.NotEnough | OS_project/xv6-public/vm.c:239-253 | when the next page or its page table finds no frame, the free frames were too few from the start |
| PageTables.Vm.Freevm | OS_project/xv6-public/vm.c:290-304 | every frame not used elsewhere is on the free list, once |
| PageTables.Vm.Copyuvm | OS_project/xv6-public/vm.c:322-349 | the child has every page of the parent with equal contents and flags in a frame of its own, and by the hardware's walk the same can be done with it as with the parent's; the parent is untouched; succeeds if and only if there are frames enough for pages and page tables; on failure every frame is free again but at most one, and that one is lost exactly when the frames were not just enough for some smaller number of pages |
| PageTables.FreshFrames | OS_project/xv6-public/vm.c:70-89 | u pages of a new address space take u frames and one for each 1024 pages begun |
| PageTables.LostExactly | OS_project/xv6-public/vm.c:339-347 | copying into a new address space with too few frames loses one exactly when their number leaves 1 divided by 1025 |
| PageTables.MissingFrom | OS_project/xv6-public/vm.c:70-89 | where page tables are there just up to a page, the pages behind take one more for each 1024 pages begun |
| KernelPages.KernelSet | OS_project/xv6-public/vm.c:80-82 | an entry for a kernel page changes no other entry, no place for frames and nothing of others, and conserves all frames |
| KernelPages.MapRange | OS_project/xv6-public/vm.c:70-89 | mappages over a range of kernel pages: stops at the first page that is mapped already, with the panic, or whose page table finds no frame; the pages before stay mapped, no other entry changes; memory runs out exactly when the free frames are fewer than the page tables missing up to there |
| KernelPages.RanOut | OS_project/xv6-public/vm.c:114-142 | over the rows of kmap mappages never meets a mapped page, and fails only for lack of frames |
| KernelPages.SetupKvm | OS_project/xv6-public/vm.c:127-143 | takes 65 frames and maps exactly the kernel's pages as kmap says: by the hardware's walk each is reached at its physical page, none from user mode, and all but the kernel's text and constants for writing; fails if and only if fewer are free, and then every one of them is lost |
| AddressSpaces.FocusOn | OS_project/xv6-public/vm.c:262-304 | seen from one address space, the others are frames used elsewhere: conservation for one follows from conservation for all |
| AddressSpaces.SpacesKept | OS_project/xv6-public/vm.c:228-285 | and back: growing or shrinking one address space conserves all frames, each free, lost, or in one place of one space, and the others keep every frame |
| AddressSpaces.SpaceAdded | OS_project/xv6-public/vm.c:322-349 | so does making one from free frames |
| AddressSpaces.NoneAdded | OS_project/xv6-public/vm.c:347-348 | so does failing to, with the lost frame counted |
| AddressSpaces.SpaceGone | OS_project/xv6-public/vm.c:290-304 | so does giving one back |
| AddressSpaces.OpenSpace | OS_project/xv6-public/vm.c:127-143 | setupkvm among all address spaces: one more, or, with fewer than 65 frames free, all spaces as before and those frames lost |
| AddressSpaces.Fork | OS_project/xv6-public/vm.c:320-349 | copyuvm as a whole among all address spaces: a copy, with the parent's access page by page, if and only if the free frames suffice for setupkvm's 65, the pages and their page tables; otherwise all spaces are as before, and lost is every free frame if there were fewer than 65, or else one, exactly if the frames left by setupkvm leave 1 divided by 1025 |
| AddressSpaces.Release | OS_project/xv6-public/proc.c:593-593 | wait's freevm: the other address spaces keep their frames, mapping and contents |
| AddressSpaces.Growproc | OS_project/xv6-public/proc.c:131-146 | grows by exactly the pages asked for, open to the process, if and only if the frames suffice; shrinks; the other address spaces keep frames, mapping and contents; afterwards the pages are those that the recorded size reaches if and only if it was not asked to give up exactly all |
| AddressSpaces.ShrunkSize | OS_project/xv6-public/vm.c:262-285 | the new size is computed without sign: below 0 it wraps around, and nothing is given up |
| AddressSpaces.KernelFrame | OS_project/xv6-public/proc.c:58-58 | a frame for the kernel's own use, out of all address spaces |
| AddressSpaces.FirstSpace | OS_project/xv6-public/proc.c:102-105 | the first process's address space takes 67 frames and has one page, which it can read and write |
| AddressSpaces.Boot | OS_project/xv6-public/vm.c:147-150 | the kernel's own page tables and the first process take 133 frames |
| AddressSpaces.LosesFrame | OS_project/xv6-public/vm.c:338-347 | a machine with 200 frames and one process of one page: a copy fails and a frame is lost |
| SleepLock.ActKeeps | OS_project/xv6-public/sleeplock.c:22-42 | every step of every process keeps the invariant about holders, owners and sleepers |
| SleepLock.KillKeeps | OS_project/xv6-public/proc.c:771-788 | so does kill, which makes a sleeper runnable that nobody woke |
| SleepLock.StepKeeps | OS_project/xv6-public/proc.c:711-765 | so does any event |
| SleepLock.MutualExclusion | OS_project/xv6-public/sleeplock.c:22-42 | at most one process is between acquiresleep and releasesleep |
| SleepLock.NoLostWakeup | OS_project/xv6-public/proc.c:719-728 | somebody sleeping means that the lock is held by somebody, or a releaser still owes its wakeup |
| SleepLock.EveryRunIsSafe | OS_project/xv6-public/sleeplock.c:22-42 | both hold after every interleaving of any number of processes |
| SleepLock.Progress | OS_project/xv6-public/proc.c:711-743 | as long as a process is on its way, one on its way can take a step |
| SleepLock.NobodyForgotten | OS_project/xv6-public/proc.c:711-765 | when everybody waits, nobody sleeps unless somebody is using what the lock protects |
| PipeBuffer.SamePlace | OS_project/xv6-public/pipe.c:93-93 | the place in the ring is the same computed from the wrapped counter |
| PipeBuffer.FullAndEmpty | OS_project/xv6-public/pipe.c:85-106 | comparing wrapped counters tells exactly a full ring and exactly an empty one |
| PipeBuffer.Pipe.constructor | OS_project/xv6-public/pipe.c:33-36 | an open, empty pipe |
| PipeBuffer.Pipe.PutByte | OS_project/xv6-public/pipe.c:93-93 | the byte is appended to what was written, and no byte in flight is overwritten |
| PipeBuffer.Pipe.TakeByte | OS_project/xv6-public/pipe.c:116-116 | returns the oldest byte not read yet |
| PipeBuffer.Pipe.PipeWrite | OS_project/xv6-public/pipe.c:79-98 | a turn appends the next bytes of the buffer and stops short only at a full ring; each way to end exactly when it applies; a sleeper is left behind exactly when readers were asleep, the read end was closed or the writer killed, and it had more bytes left than the ring holds |
| PipeBuffer.Pipe.PipeRead | OS_project/xv6-public/pipe.c:101-121 | a turn returns the oldest bytes in order, as many as asked for and there; sleeps or fails only on an empty ring with writers left |
| PipeBuffer.Pipe.PipeClose | OS_project/xv6-public/pipe.c:60-75 | closes one end and leaves nobody asleep without reason |
| PipeBuffer.Pipe.NoDeadlock | OS_project/xv6-public/pipe.c:79-121 | readers and writers are never asleep at once |
| PipeBuffer.LostWakeup | OS_project/xv6-public/pipe.c:84-92 | a reader goes to sleep, a killed writer fills the ring, and the reader still sleeps |
| TopologicalSort.OrderedIsAcyclic | algorithm/Topological_sort.cpp:26-28 | an order in which every vertex comes behind those its edges lead to exists only in an acyclic graph |
| TopologicalSort.BackEdge | algorithm/Topological_sort.cpp:22-22 | an edge to a grey vertex closes a cycle |
| TopologicalSort.ReversedOrder | algorithm/Topological_sort.cpp:48-51 | popping the stack lists each vertex once and sources before targets |
| TopologicalSort.Sorter.Dfs | algorithm/Topological_sort.cpp:15-29 | ends; finishes everything reachable, keeping the grey path and the finished order, or returns -1 and the graph has a cycle |
| TopologicalSort.Sorter.Follow | algorithm/Topological_sort.cpp:19-24 | after one edge its target is finished, or the graph has a cycle |
| TopologicalSort.Sorter.Sort | algorithm/Topological_sort.cpp:40-52 | succeeds if and only if the graph is acyclic, and then lists every vertex once with sources before targets |
| Dijkstra.WalksAreLong | algorithm/Dijkstra.cpp:49-80 | no walk is shorter than the weight of the vertex where it leaves the selected ones |
| Dijkstra.Settled | algorithm/Dijkstra.cpp:50-56 | the vertex taken from the queue has its distance as weight |
| Dijkstra.AllSettled | algorithm/Dijkstra.cpp:49-80 | once everything reached is selected, no walk beats any weight |
| Dijkstra.RelaxOne | algorithm/Dijkstra.cpp:60-65 | taking one edge into account, also one to a selected vertex, keeps all weights lengths of walks |
| Dijkstra.Relax | algorithm/Dijkstra.cpp:58-66 | all edges of the vertex are taken into account, and no sum overflows |
| Dijkstra.SelectNext | algorithm/Dijkstra.cpp:68-77 | the nearest reached vertex not selected yet, or -1 only if there is none |
| Dijkstra.NextFrontier | algorithm/Dijkstra.cpp:68-79 | selecting it keeps the selected ones nearest; without one the search is over |
| Dijkstra.ShortestPaths | algorithm/Dijkstra.cpp:45-88 | every vertex ends with the length of a shortest walk from vertex 1, or -1 exactly if there is no walk; the largest of them is returned |
| MatrixChain.CheapestSplit | algorithm/Matrixchain.cpp:86-94 | the cheapest split of cheapest parts is a cheapest parenthesisation among all trees |
| MatrixChain.SplitAt | algorithm/Matrixchain.cpp:88-88 | the sum is the cost of this split with cheapest parts |
| MatrixChain.Pair | algorithm/Matrixchain.cpp:71-78 | two neighbours have one split, with the cheapest cost |
| MatrixChain.FindSplit | algorithm/Matrixchain.cpp:83-94 | the loop finds the first split of the cheapest cost over all trees |
| MatrixChain.FillEntry | algorithm/Matrixchain.cpp:71-97 | both tables get their entry, all earlier ones stay |
| MatrixChain.Chain | algorithm/Matrixchain.cpp:62-101 | M[1][N] is the least cost over all parenthesisations |
| MatrixChain.CoversInOrder | algorithm/Matrixchain.cpp:5-36 | the leaves of such a tree are the matrices in order |
| MatrixChain.TreeIsCheapest | algorithm/Matrixchain.cpp:5-36 | the tree that the split table stands for has exactly the least cost |
| MatrixChain.PrintParen | algorithm/Matrixchain.cpp:5-36 | all four branches print that tree |
| MatrixChain.Print | algorithm/Matrixchain.cpp:62-106 | what is printed is the least cost and an expression that attains it |
| MatrixChain.ReadsBack | algorithm/Matrixchain.cpp:5-36 | the printed parentheses determine the tree: parsing gives it back |
| RegexMatcher.FirstPart | OS_project/xv6-public/grep.c:85-96 | a string belongs to an expression exactly if some beginning of it belongs to the first part and the rest to the others |
| RegexMatcher.HereSingle | OS_project/xv6-public/grep.c:93-94 | a single character takes exactly one matching character |
| RegexMatcher.HereStar | OS_project/xv6-public/grep.c:99-106 | a starred character takes nothing, or one matching character and goes on |
| RegexMatcher.MatchHere | OS_project/xv6-public/grep.c:85-96 | true exactly if a beginning of the text, or with '$' all of it, belongs to the expression; the mutual recursion ends |
| RegexMatcher.MatchStar | OS_project/xv6-public/grep.c:99-106 | the same for a starred character followed by an expression |
| RegexMatcher.Match | OS_project/xv6-public/grep.c:72-82 | sound and complete: true exactly if some substring, a beginning with '^' and an end with '$', belongs to the language |

## Left out

General

- Integers of the compiler, the trees and the algorithms are unbounded; 32-bit arithmetic is modelled where the code depends on it: allocator, pipe counters, file offsets, page addresses.
- Scanner, parser, type checker and symbol table of the compiler, and the text format of the code file, which is a sequence of addressed instructions here; the symbol table is an injective map from names to locations.
- Device drivers, boot code, interrupts, scheduler choice, the system call layer, user programs other than the allocator and grep's matcher, the RQL interpreter, scans, image and audio code, the JDBC application, and the simple sorting and counting exercises: hardware, I/O, or easy members beside these.

Compiler

- TinyMachine.Step: an IN instruction with no input left stops the machine with a result of its own, where the original asks the user again; one address past the end of an array gives a result of its own, where the original reads beyond the array.
- TinyCorrect.CompilerCorrect: requires the program to fit the machine, that is, 1024 instructions, and variables and temporaries in 1024 cells; the code generator checks neither.

Log and buffer cache

- LogProtocol.EveryCrashIsAtomic: a block write is atomic, and commit always gets its buffers; WriteAheadLog.Log.Commit says exactly when it does not. The log area has more than LOGSIZE blocks (see LogProtocol.TooBigExactly).
- LogProtocol.ReservationsHold: assumes that an operation calls log_write at most MAXOPBLOCKS times; that each system call does is not shown; FileWrites.OneTransaction shows that filewrite does not.
- Transactions.Transact: an operation's own writes come one after the other; a client may interleave operations through Begin, Write and End. A process that waits in begin_op is the answer Waits.
- WriteAheadLog.Log.BeginOp: one turn of the loop, sleeping is the answer false; the wakeups of end_op and with them the liveness of begin_op are not modelled.
- WriteAheadLog.Log.Commit: others may hold buffers of blocks outside the log while it runs, but who holds them stays the same from its start to its end.
- BufferCache.Bcache.Bread: one device; the sleep lock of a buffer is the caller's right to it (see SleepLock), and a process waiting for a locked buffer is not modelled.

B+ tree

- BTreeIndex.IndexHandle.InsertEntry: requires that the key is new or comes with the same rid: duplicate keys are left out, as are float and string keys, and order 1.
- BTreeIndex.IndexHandle.SplitNode: pages are values in a map, a new page has a new number; pins, dirty marks and I/O errors of the page layer are left out. The arrays of a node are in BTreeNode.BTNode.
- DeleteEntry, index scans and opening or closing an index file.

Allocator

- Allocator.Heap.Malloc: requires fewer than 2^28 units, as sbrk is asked for a number of bytes that is not positive otherwise; sbrk's answer is a parameter, no memory or a break behind everything owned.
- Memory that touches the static header, and what the blocks contain.

Buffer manager

- PageBuffer.BufferMgr.AllocatePage: the slot keeps its former bytes, which clients do not see as the page's contents before the first MarkDirty.
- PageBuffer.BufferMgr.WriteBack: a write to the disk does not fail; holes that a write behind the end of a file leaves are not modelled.
- PageBuffer.BufferMgr.GetPage: the pin count is unbounded, where the original's is a short; hash chains are sequences without their back pointers, and Hash is (fd + pageNum) % numBuckets with a result that is not negative.
- ClearBuffer, ResizeBuffer, the block calls with MEMORY_FD, statistics and the log file.

File layer

- FileLayer.FileSystem.Balloc: the bitmap blocks are kept apart from the other blocks; setting and clearing a bit are addition and subtraction of its value.
- FileLayer.FileSystem.Writei: regular files only; the inode's own block (iupdate) and locks are left out; a panic leaves the state unspecified, as the machine stops.
- FileLayer.FileSystem.Itrunc: the number of log_write calls is not counted against the log, but no block other than the bitmap's is logged.
- MakeFs.Make: stops where the original would write behind the end of the image or of the array `indirect`. Inodes are objects, so neither the inode blocks nor their number are modelled, and the super block is a parameter; a file is given as its name and bytes.
- FileWrites.OneTransaction: begin_op empties the set of logged blocks, as for an operation alone; the inode's own block, which comes on top of both bounds, is not counted, and neither are other operations' blocks.
- AllFiles.WriteTo: one operation at a time; operations on different files that alternate block by block are not modelled.
- AllFiles.AddFile: the inode is an object of its own; finding a free one among the inode blocks (ialloc, iget) is left out.

Page tables

- PageTables.Vm.Copyuvm: the new directory that setupkvm returns is a parameter; that the parent's page tables are open is part of the invariant in AddressSpaces.Fork.
- AddressSpaces.Growproc: the size is a parameter and the recorded one a result; switchuvm is left out.
- AddressSpaces.Release: threads that share an address space are left out.
- PageTables.Vm.MapPage: one page, as in every call for user pages; KernelPages.MapRange is mappages over ranges. Of the flags, PTE_P is the constructor Present, and only PTE_W and PTE_U are interpreted; the processor's own bits, the TLB and clearpteu are left out.
- AddressSpaces.FirstSpace: requires 67 free frames, as inituvm does not look at what kalloc returns.
- PageTables.Vm.UnmapPage: clears the entry before the frame is given back, the original after; nothing runs in between.
- PageTables.Vm.Kalloc: the range check in kfree is left out; frames are numbered, and kinit's two ranges are one. The contents of a frame are not seen through the kernel's own mapping of it.
- KernelPages.SetupKvm: the check of PHYSTOP against DEVSPACE, which holds for these constants, is left out.

Sleep locks and pipes

- SleepLock.EveryRunIsSafe: one sleep lock and one channel; fairness of the scheduler is not modelled, so Progress speaks of possible steps.
- PipeBuffer.Pipe.PipeRead: processes asleep on a counter are one flag for each end; freeing the pipe when both ends are closed is left out.

Algorithms

- Dijkstra.ShortestPaths: requires that a shortest walk extended by one edge stays below INT_MAX: a sum that overflows has no meaning in C, and a distance of INT_MAX would never be selected.
- Dijkstra.Relax: requires the same of the edges it takes.
- MatrixChain.Chain: requires two or more matrices, as the original prints outside its tables for one, and costs below INT_MAX.
- MatrixChain.Print: requires the same.
- TopologicalSort.Sorter.Sort: reading the input is left out; the vertices of the edges are 1..N.
- RegexMatcher.Match: reading lines and the command line are left out.
