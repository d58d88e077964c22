# Models of a teaching repository's systems code

Dafny models of the parts of the repository whose correctness is hardest to see by reading,
with proofs of what those parts are for:

- **TINY to TM** (`TinySyntax`, `TinyLayout`, `TinyCodeGen`, `TmMachine`, `TinyCorrect`,
  `TinyCompiler`, `TinySample`): the code generator with its backpatching emitter, the machine,
  the theorem that compiling preserves meaning, and the sample program with its code file.
- **xv6 log** (`Param`, `LogRecovery`, `LogDevice`, `LogAdmission`): crash atomicity of the redo log,
  and what it admits.
- **xv6 files** (`BlockTree`, `FreeBlocks`, `Growth`, `Truncate`, `FileBytes`, `WriteCost`,
  `WriteLog`, `FileSystem`, `FileIO`): block ownership through three levels of block numbers,
  the bytes of files, and the blocks that each operation logs.
- **Files over the log** (`CrashSafety`, `DiskImage`): file operations across crashes.
- **xv6 buffer cache** (`BufferRing`, `BufferCache`): the LRU ring, and coherence under any
  interleaving.
- **xv6 memory** (`PageTables`, `Mappings`, `FrameCounts`, `FrameNeeds`, `VirtualMemory`,
  `PageWalk`, `FreeList`, `Umalloc`): page tables over a frame free list, the frames each
  operation takes, what the processor's walk finds, and the user allocator.
- **xv6 sleep and wakeup** (`SleepLock`, `ProcTable`, `ParentWait`, `KillAndJoin`, `Pipe`,
  `PipeRuns`).
- **Programs** (`Regex`, `Grep`, `ShellSyntax`, `ShellParser`, `Crc`): grep, the shell's
  parser, the table-driven CRC of a chat client.

## How to read it

Code that changes state in place is a class whose fields are the C variables and whose
methods follow the C functions; each method says that it does to the abstract value of its
object what a specification function or predicate says. The properties are lemmas about
those specifications; beside them, lemmas say in terms of fields, words and bytes alone what
the main ones come to. Concurrent code is a state machine: an action is one statement
(`SleepLock`), or one stretch of code under a spinlock (`LogAdmission`, `BufferCache`,
`ParentWait`, `PipeRuns`), and a theorem quantifies over every sequence of actions of any
number of processes. A panic or a fault is an outcome, not a precondition.

Conventions of representation:

- TM arithmetic wraps at 32 bits, where C leaves overflow undefined; the division
  INT_MIN / -1 is an outcome of its own (`Trap`). `tm.c` tests `pc` and `m` against the memory
  sizes with `>` (lines 312 and 329), so one cell past the end gets through: outcome `PastEnd`.
- The statement kinds are those of `parse.c` and `cgen.c`, where assignment is a statement.
  `st_lookup(name)` (`cgen.c:76`) is an injective map from names to locations.
- A disk block of the log is 128 words; a block of the file system is 512 bytes, from which
  the entries of indirect blocks are decoded. The free bitmap is one boolean a block.
- A block handed to `log_write` is named by what it holds: bytes or block numbers (`Whole`),
  bits of the bitmap (`Bits`), or inodes (`Inodes`).
- Heap addresses and sizes count 8-byte header units. Physical addresses are frame numbers,
  virtual ones page numbers.
- A word of the CRC is its bits, highest first. `width` is 32 bits, the size of the frame's
  CRC field, although `udp.h` declares it `unsigned long`. The generator is that of the frame
  check sequence of IEEE 802.3, clause 3.2.9, without bit reflection.

## Where the code falls short

Each of these is proved with its exact condition, and most with a run that gets there:

- `<` compiles to the sign of a 32-bit difference: right if and only if the difference fits
  (`TinySyntax.SubtractionDecidesLess`, `LessGoesWrong`). The sample program, which is not to
  compute for x <= 0, prints 0 for the least integer (`TinySample.SamplePrints`).
- `log_write` tests the size of the log before it takes the lock and before it looks for the
  block in the log, and `mkfs.c` makes the area as long as LOGSIZE including the header, so
  both the panic and writing past the area are reachable (`LogAdmission.TooBigExactlyWhen`,
  `TooBigWithinCalls`, `TooBigWithinBlocks`, `OverrunExactlyWhen`).
- `filewrite` logs more blocks in one operation than `begin_op` reserves, if and only if it
  does so in the first: the cost of its first chunk exceeds MAXOPBLOCKS, as that of a full
  one always does (`FileIO.File.Filewrite`, `FullChunk`, `WriteCost.CostBounds`,
  `FileIO.LogsTwelve`).
- `itrunc` clears the double-indirect pointer without freeing the block (`fs.c:456`): exactly
  that block is lost (`Truncate.OnlyRootLost`, `FileSystem.LosesABlock`).
- `filewrite` beyond the maximal file size writes a part and returns -1
  (`FileIO.ChunkedExactly`, `WritesPart`).
- A failed `setupkvm` loses all frames that were free. A `copyuvm` that runs out of memory
  after it loses one frame if and only if it runs out at a page table, that is if
  2 + K + 1025 j frames were free, K being the kernel's page tables
  (`VirtualMemory.Memory.Setupkvm`, `Memory.Copyuvm`, `LosesAllFrames`, `LosesAFrame`).
- `malloc` of 2^31 - 15 up to 2^32 - 8 bytes passes sbrk a negative or zero count
  (`FreeList.HeapCutExactlyWhen`).
- `join` of a tid that no thread of the caller has sleeps for good while there are other
  threads (`ParentWait.JoinHangs`, `JoinCanHang`, `KillAndJoin.JoinReturnsExactlyWhen`).
- Of the zombies, exactly the threads handed to init are never reaped, as init does not call
  join (`KillAndJoin.ReapedExactlyWhen`, `OrphanLeft`).
- `kill(0)`, and `kill` of the number of an abandoned fork, mark an entry not in use, and
  the next process there is born killed (`KillAndJoin.KillHitsUnusedExactlyWhen`,
  `BornKilledExactlyWhen`, `BornKilled`, `BornKilledByZero`).
- A killed writer that has just filled a pipe wakes no reader (`PipeRuns.MissedExactlyWhen`,
  `ReaderForgotten`).
- `grep` throws away a buffer without a newline: what it prints is exact if and only if no
  such buffer is followed by a newline (`Grep.PrintsExactlyWhen`, `ShortReadLosesLine`).
- The CRC field goes out with its bytes in reverse order, so a burst of 31 bits across the
  border of payload and field can be accepted (`Crc.DamageAcceptedExactlyWhen`,
  `BorderBurstMissed`).

## Model

| member | source | states |
|---|---|---|
| `TinyCompiler.CompilerPreservesMeaning` | 2018_ELE4029_2013012041/project/cgen.c:25-212 | for every program and input, if the program ends within the fuel, the generated code run from the loader's state halts with the same output, input left and variables, or stops with the corresponding fault, `<` and `=` being decided by the sign of a 32-bit difference |
| `TinyCompiler.CompilerPreservesExactMeaning` | 2018_ELE4029_2013012041/project/cgen.c:25-212 | the same against exact comparison, for executions whose compared differences fit in 32 bits |
| `TinyCompiler.StopsExactlyWhenSourceDoes` | 2018_ELE4029_2013012041/project/cgen.c:25-212 | the generated code stops, on some number of steps, if and only if the program ends with some fuel: loops are neither cut short nor made endless |
| `TinyCompiler.CompileAndRun` | 2018_ELE4029_2013012041/project/cgen.c:196-212 | codeGen, the loader and stepTM put together: the machine reached is the one the theorems speak of |
| `TinyCompiler.ProgramLoads` | 2018_ELE4029_2013012041/project/tm.c:221-303 | the code file of a program that fits loads as its code at 0 and HALT everywhere else |
| `TinySample.SampleFile` | 2018_ELE4029_2013012041/project/test/SAMPLE.TM:1-42 | the code file of the sample program, line by line and in the order of the file that comes with the compiler |
| `TinySample.SamplePrints` | 2018_ELE4029_2013012041/project/test/SAMPLE.TNY:5-13 | for every input x that code halts, having printed x! wrapped to 32 bits exactly if x > 0, except that for the least integer it prints 0 |
| `TinySample.AllStraightLines` | 2018_ELE4029_2013012041/project/cgen.c:57-95 | code without if is written in the order of its locations |
| `TinyCodeGen.Generator.CodeGen` | 2018_ELE4029_2013012041/project/cgen.c:196-212 | the whole file is the prelude, the statements and HALT, in the order of the layout function, nothing left to patch |
| `TinyCodeGen.Generator.CGen` | 2018_ELE4029_2013012041/project/cgen.c:171-185 | a statement sequence appends exactly its lines, moves emitLoc by its code length and restores tmpOffset and highEmitLoc == emitLoc |
| `TinyCodeGen.Generator.GenStmt` | 2018_ELE4029_2013012041/project/cgen.c:25-95 | the same for one statement |
| `TinyCodeGen.Generator.GenIf` | 2018_ELE4029_2013012041/project/cgen.c:31-56 | both skipped locations of an if are filled with jumps to just behind the part they jump over |
| `TinyCodeGen.Generator.GenRepeat` | 2018_ELE4029_2013012041/project/cgen.c:57-69 | the jump of a repeat leads back to the first instruction of its body |
| `TinyCodeGen.Generator.GenExp` | 2018_ELE4029_2013012041/project/cgen.c:98-166 | an expression appends its code for the current temporary and restores tmpOffset |
| `TinyCodeGen.Generator.GenOp` | 2018_ELE4029_2013012041/project/cgen.c:129-159 | the code of each operator, comparisons as a subtraction and a conditional skip |
| `TinyCodeGen.Emitter.EmitRO` | 2018_ELE4029_2013012041/project/code.c:34-39 | appends one line, raising highEmitLoc if need be |
| `TinyCodeGen.Emitter.EmitRM` | 2018_ELE4029_2013012041/project/code.c:49-54 | appends one line, raising highEmitLoc if need be |
| `TinyCodeGen.Emitter.EmitSkip` | 2018_ELE4029_2013012041/project/code.c:60-65 | returns the location skipped and leaves room |
| `TinyCodeGen.Emitter.EmitBackup` | 2018_ELE4029_2013012041/project/code.c:70-73 | goes back without touching highEmitLoc or the file |
| `TinyCodeGen.Emitter.EmitRestore` | 2018_ELE4029_2013012041/project/code.c:79-80 | goes on at the highest location |
| `TinyCodeGen.Emitter.EmitRMAbs` | 2018_ELE4029_2013012041/project/code.c:90-97 | encodes an absolute location relative to the next pc |
| `TinyLayout.ProgramLinesPlaced` | 2018_ELE4029_2013012041/project/cgen.c:196-212 | backpatching: the file, with its lines out of order, contains each location of the program exactly once, with the instruction of the structural layout |
| `TinyLayout.StmtLinesPlaced` | 2018_ELE4029_2013012041/project/cgen.c:25-95 | the same for a statement at any location, including nested if and repeat |
| `TinyLayout.StmtsLinesPlaced` | 2018_ELE4029_2013012041/project/cgen.c:171-185 | the same for a sequence |
| `TinyLayout.LoadedInPlace` | 2018_ELE4029_2013012041/project/tm.c:242-299 | a file whose lines are exactly those of some code loads as that code, whatever their order |
| `TinyCorrect.ExprSim` | 2018_ELE4029_2013012041/project/cgen.c:98-166 | evaluation leaves the value in ac, writes only temporaries below the current one and leaves the variables alone, or stops with the fault of the expression |
| `TinyCorrect.OpSim` | 2018_ELE4029_2013012041/project/tm.c:370-392 | the code of an operator computes its value from ac1 and ac |
| `TinyCorrect.StmtSim` | 2018_ELE4029_2013012041/project/cgen.c:25-95 | a statement's code takes the machine from states matching the source to states matching its outcome, or lasts as long as the fuel |
| `TinyCorrect.StmtsSim` | 2018_ELE4029_2013012041/project/cgen.c:171-185 | the same for a sequence |
| `TinyCorrect.IfSim` | 2018_ELE4029_2013012041/project/cgen.c:31-56 | the same for if |
| `TinyCorrect.RepeatSim` | 2018_ELE4029_2013012041/project/cgen.c:57-69 | the same for repeat, by induction on the fuel |
| `TinySyntax.SubtractionDecidesLess` | 2018_ELE4029_2013012041/project/cgen.c:142-148 | the sign of the 32-bit difference decides `<` if and only if the exact difference fits in 32 bits |
| `TinySyntax.LessGoesWrong` | 2018_ELE4029_2013012041/project/cgen.c:142-148 | a pair of values for which the compiled `<` is wrong |
| `TinySyntax.ExactExecAgrees` | 2018_ELE4029_2013012041/project/cgen.c:142-155 | execution with exact comparison and in range is execution with comparison by subtraction |
| `TinySyntax.DivisionTruncates` | 2018_ELE4029_2013012041/project/tm.c:374-378 | a value is that of a / b if and only if what is left of a without b times it is smaller than b and has the sign of a |
| `TinySyntax.ArithmeticWraps` | 2018_ELE4029_2013012041/project/tm.c:370-372 | a value is that of a sum, difference or product if and only if it is congruent to the integer one modulo 2^32 |
| `TinySyntax.FaultsExactlyWhen` | 2018_ELE4029_2013012041/project/tm.c:374-378 | an operator has no value exactly for division by 0, for the least integer divided by -1, and for an exact comparison out of range |
| `TmMachine.TM.constructor` | 2018_ELE4029_2013012041/project/tm.c:221-303 | readInstructions: registers and data zero, dMem[0] == 1023, instruction memory HALT but for the lines of the file |
| `TmMachine.LoadedAt` | 2018_ELE4029_2013012041/project/tm.c:229-299 | a location of instruction memory holds the instruction of the last line that names it, and HALT if none does |
| `TmMachine.TM.StepTM` | 2018_ELE4029_2013012041/project/tm.c:307-397 | the arrays change as one step of the machine value, with the same result code; what a step is for each instruction is stated by DivideSteps, ArithmeticSteps, TransferSteps, MemorySteps and JumpSteps |
| `TmMachine.TM.Steps` | 2018_ELE4029_2013012041/project/tm.c:543-549 | the loop of the step command is Run |
| `TmMachine.StepKeepsWellFormed` | 2018_ELE4029_2013012041/project/tm.c:307-397 | the sizes of registers and data memory, and the instruction memory, are kept, whatever the instruction |
| `TmMachine.DivideSteps` | 2018_ELE4029_2013012041/project/tm.c:374-378 | DIV: the register left is the quotient in terms of divisor and remainder, all else but pc is kept; ZERODIVIDE exactly for a divisor of 0 |
| `TmMachine.ArithmeticSteps` | 2018_ELE4029_2013012041/project/tm.c:370-372 | ADD, SUB and MUL leave the 32-bit value congruent to the integer one and change nothing else but pc |
| `TmMachine.TransferSteps` | 2018_ELE4029_2013012041/project/tm.c:345-368 | IN takes the next input, OUT appends the register to the output, HALT stops |
| `TmMachine.MemorySteps` | 2018_ELE4029_2013012041/project/tm.c:326-341 | which register or cell LD, ST, LDA and LDC change, and to what; DMEM_ERR for an address outside |
| `TmMachine.JumpSteps` | 2018_ELE4029_2013012041/project/tm.c:387-392 | for each of the six jumps, by the sign of the register, whether pc becomes the address |
| `TmMachine.RunOn` | 2018_ELE4029_2013012041/project/tm.c:543-549 | a run of a + b steps is a run of a and then of b |
| `LogRecovery.CrashAtomicity` | 2017_ELE3021/xv6-public/log.c:69-122 | stop commit after any number of its block writes, interrupt any number of recoveries anywhere, then let one recovery finish: the home blocks are all old if at most the log blocks had been written, else all new |
| `LogRecovery.CommitStageRecovers` | 2017_ELE3021/xv6-public/log.c:190-200 | after i writes of commit, recovery leads to the old blocks for i up to n, to the new ones from the header write on |
| `LogRecovery.CommitTraceAt` | 2017_ELE3021/xv6-public/log.c:190-200 | commit writes 2n + 2 blocks, and the i-th leaves the disk in the i-th stage of the crash analysis |
| `LogRecovery.RecoveryTraceAt` | 2017_ELE3021/xv6-public/log.c:115-122 | recovery writes n + 1 blocks, and the i-th leaves the i-th stage |
| `LogRecovery.CommitCompletes` | 2017_ELE3021/xv6-public/log.c:190-200 | an undisturbed commit installs the new contents and leaves the header empty |
| `LogRecovery.CommittedOnDisk` | 2017_ELE3021/xv6-public/log.c:99-113 | at the commit point the header words are the count and the block numbers, the blocks behind it hold the new contents, and no other block has changed |
| `LogRecovery.RecoveryStageKeeps` | 2017_ELE3021/xv6-public/log.c:115-122 | an interrupted recovery leads to the same home blocks as the one it interrupted |
| `LogRecovery.UpdatedAt` | 2017_ELE3021/xv6-public/log.c:69-82 | the target state: each logged block has its new contents, no other block changes |
| `LogDevice.Log.Commit` | 2017_ELE3021/xv6-public/log.c:190-200 | the disk goes through exactly the stages of the crash analysis, one per block written, and ends in the last; the in-memory header is emptied |
| `LogDevice.Log.RecoverFromLog` | 2017_ELE3021/xv6-public/log.c:115-122 | the disk goes through exactly the recovery stages |
| `LogDevice.Log.WriteLog` | 2017_ELE3021/xv6-public/log.c:175-188 | the log area gets the cached contents of the logged blocks in order |
| `LogDevice.Log.WriteHead` | 2017_ELE3021/xv6-public/log.c:101-113 | the header block gets the count and the block numbers, its other words kept |
| `LogDevice.Log.InstallTrans` | 2017_ELE3021/xv6-public/log.c:69-82 | each log block is copied to its home |
| `LogDevice.Log.ReadHead` | 2017_ELE3021/xv6-public/log.c:85-96 | the in-memory header becomes the one on disk |
| `LogDevice.Log.LogWrite` | 2017_ELE3021/xv6-public/log.c:211-231 | absorption: a block already logged is not logged twice; the two panics |
| `LogAdmission.Admission` | 2017_ELE3021/xv6-public/log.c:125-172 | over every interleaving, with any number of processes and of log_write calls: commit runs with no operation under way, and everything an operation logs goes into the transaction current when it began; with at most MAXOPBLOCKS different blocks an operation, in however many calls, logged blocks and unspent reservations stay within LOGSIZE |
| `LogAdmission.SleepersHaveReason` | 2017_ELE3021/xv6-public/log.c:125-172 | no lost wakeup: a process asleep in begin_op finds no room, and a commit is running or an operation is outstanding, whose end will wake it |
| `LogAdmission.TooBigExactlyWhen` | 2017_ELE3021/xv6-public/log.c:216-217 | for any number of processes and any length of the log area, and operations of any number of calls for any number of different blocks, the panic "too big a transaction" is reachable if and only if the log takes fewer blocks than the operations can log, or just as many and they may call log_write again |
| `LogAdmission.TooBigWithinCalls` | 2017_ELE3021/xv6-public/log.c:216-217 | for operations of up to MAXOPBLOCKS calls that is: one process and an area of at most MAXOPBLOCKS blocks, or more processes and an area of at most LOGSIZE blocks (mkfs.c:25 makes it LOGSIZE) |
| `LogAdmission.TooBigWithinBlocks` | 2017_ELE3021/xv6-public/log.c:216-226 | for operations of up to MAXOPBLOCKS different blocks that may log one again: with two processes or more it is reachable however long the area is, since a full log panics before it looks whether it has the block |
| `LogAdmission.OverrunExactlyWhen` | 2017_ELE3021/xv6-public/log.c:216-230 | since the test precedes the lock, more blocks than the area holds can be recorded if and only if the area is empty, or there are two processes or more that log something and its length is between 2 and both 2 * allowance + MAXOPBLOCKS and LOGSIZE - 1 + min(processes, 3) |
| `LogAdmission.NextKeepsInv` | 2017_ELE3021/xv6-public/log.c:125-172 | each step keeps the count of operations and the sum of reservations |
| `BlockTree.AllocateAt` | 2017_ELE3021/xv6-public/fs.c:355-405 | giving a fresh zeroed block to a place that had none changes the block number held at that place only, keeps every number unique and marked, and loses no block |
| `BlockTree.RecordedRef` | 2017_ELE3021/xv6-public/fs.c:361-400 | writing a number into an inode or an indirect block alters that one place, at all three levels |
| `BlockTree.AllocatedRef` | 2017_ELE3021/xv6-public/fs.c:56-78 | marking and zeroing an unmarked block changes no recorded number |
| `BlockTree.WrittenRef` | 2017_ELE3021/xv6-public/fs.c:529-531 | writing file bytes never changes a block number |
| `BlockTree.WordOfSetWord` | 2017_ELE3021/xv6-public/fs.c:372-376 | entries of an indirect block are independent 32-bit words |
| `BlockTree.DataLocInjective` | 2017_ELE3021/xv6-public/fs.c:360-402 | different block indices of a file are recorded at different places |
| `BlockTree.DataLocNames` | 2017_ELE3021/xv6-public/fs.c:360-402 | the block recorded for index bn, in terms of addresses and words: addrs[bn], or entry bn - 11 of block addrs[11], or entry (bn - 139) % 128 of the block that entry (bn - 139) / 128 of block addrs[12] names; and no other number is |
| `BlockTree.SetWordBytes` | 2017_ELE3021/xv6-public/fs.c:372-376 | an entry is stored with its least significant byte first, and no other byte changes |
| `FileSystem.FileSystem.constructor` | 2017_ELE3021/xv6-public/mkfs.c:94-111 | an empty image: all files empty, exactly the metadata blocks marked |
| `FileSystem.FileSystem.Balloc` | 2017_ELE3021/xv6-public/fs.c:56-78 | takes the lowest unmarked block, every lower one being marked, and zeroes it; fails only if there is none |
| `FileSystem.FileSystem.Bfree` | 2017_ELE3021/xv6-public/fs.c:81-96 | clears the bit; fails exactly if it is clear |
| `FileSystem.FileSystem.Bmap` | 2017_ELE3021/xv6-public/fs.c:354-405 | returns addrs[bn], or the entry of the indirect or double-indirect tree that bn names; panics if and only if bn is beyond the maximal size or fewer blocks are free than are missing at it and on the way to it; nothing changes if none is missing, else zeroed blocks are added at those places only; unique ownership is kept |
| `FileSystem.FileSystem.Itrunc` | 2017_ELE3021/xv6-public/fs.c:412-461 | never meets "freeing free block"; frees exactly the file's blocks but the double-indirect block, which is the one block lost; other files keep their contents, and no block changes that is not logged |
| `FileSystem.LosesABlock` | 2017_ELE3021/xv6-public/fs.c:440-457 | a run that loses a block: a new image, bmap(0, 139), itrunc(0) |
| `Truncate.OnlyRootLost` | 2017_ELE3021/xv6-public/fs.c:440-457 | after itrunc a block is marked but recorded nowhere if and only if it was so before or was the double-indirect block |
| `Truncate.StillMarked` | 2017_ELE3021/xv6-public/fs.c:90-92 | a block not yet freed is still marked, by uniqueness |
| `Truncate.EmptiedInv` | 2017_ELE3021/xv6-public/fs.c:412-461 | ownership holds after itrunc |
| `FileSystem.EmptiedSound` | 2017_ELE3021/xv6-public/fs.c:412-461 | truncating one file changes no byte of another |
| `FileSystem.FileSystem.Iupdate` | 2017_ELE3021/xv6-public/fs.c:208-224 | the inode on disk becomes the one in memory |
| `FileSystem.FileSystem.Readi` | 2017_ELE3021/xv6-public/fs.c:476-507 | returns the file's bytes from off on, up to its size; fails exactly for off beyond the size or 32-bit overflow; allocates nothing |
| `FileSystem.FileSystem.Writei` | 2017_ELE3021/xv6-public/fs.c:511-541 | the file becomes the old one with the bytes spliced in, no other file changes, no block is lost, the inode on disk is up to date; -1 exactly for off beyond the size or a file too long; the panic exactly if fewer blocks are free than are missing for the range; no block changes that is not logged, and the number logged is that of the cost function |
| `FileBytes.WroteAll` | 2017_ELE3021/xv6-public/fs.c:528-539 | chunks written block by block add up to the splice, for the file and all others |
| `FileBytes.ChunkBytes` | 2017_ELE3021/xv6-public/fs.c:528-534 | one chunk within a block extends what has been written |
| `FileBytes.ChunkFrame` | 2017_ELE3021/xv6-public/fs.c:528-534 | and touches no other file |
| `FileBytes.SpliceReads` | 2017_ELE3021/xv6-public/fs.c:476-541 | the bytes written are read back and the others are as before |
| `FileBytes.SpliceSplice` | 2017_ELE3021/xv6-public/file.c:135-152 | two writes one after the other are one write |
| `FileBytes.ContentNamed` | 2017_ELE3021/xv6-public/fs.c:498-504 | byte o of a file is byte o % 512 of the block so named for index o / 512 |
| `FileIO.File.Filewrite` | 2017_ELE3021/xv6-public/file.c:117-156 | the chunk loop is one write of the whole, with the offset moved along, if and only if the whole fits; otherwise just the chunks that fit are written; "short filewrite" cannot happen; panics if and only if fewer blocks are free than are missing for what fits; some operation logs more than MAXOPBLOCKS blocks if and only if the first does |
| `FileIO.File.Fileread` | 2017_ELE3021/xv6-public/file.c:96-113 | returns the bytes at the offset and moves it by their number |
| `FileIO.ChunkedExactly` | 2017_ELE3021/xv6-public/file.c:133-152 | the chunks add up to all the bytes if and only if the file stays within its maximal size |
| `FileIO.ChunkedStops` | 2017_ELE3021/xv6-public/file.c:133-152 | when they do not, filewrite stops after so many whole chunks of 6656 bytes that the next one would not fit |
| `FileIO.WritesPart` | 2017_ELE3021/xv6-public/file.c:117-156 | a run in which filewrite returns -1 after writing part of the bytes |
| `FileIO.FullChunk` | 2017_ELE3021/xv6-public/file.c:133-137 | the operation for a full chunk logs more than the MAXOPBLOCKS that begin_op reserves, whatever the file and the disk look like |
| `FileIO.DirectCost` | 2017_ELE3021/xv6-public/fs.c:511-541 | n bytes written to an empty file that touch k of the direct blocks, on an image of one bitmap block, log k + 2 blocks |
| `FileIO.LogsTwelve` | 2017_ELE3021/xv6-public/file.c:117-156 | a run in which an operation of filewrite logs more than MAXOPBLOCKS blocks: 5120 bytes to an empty file, twelve by DirectCost |
| `WriteCost.LoggedCount` | 2017_ELE3021/xv6-public/fs.c:47-78 | the number of different blocks logged by one writei is a function of the state before: data blocks touched, index blocks that get an entry, bitmap blocks of the bits that balloc will set, and the inode if the file gets longer |
| `WriteCost.CostBounds` | 2017_ELE3021/xv6-public/fs.c:511-541 | it is at most MAXOPBLOCKS for up to five blocks touched on an image of one bitmap block, and more than that for more than MAXOPBLOCKS |
| `FreeBlocks.BitBlocksAre` | 2017_ELE3021/xv6-public/fs.c:62-72 | which bitmap blocks t calls of balloc write |
| `Growth.MissingSplit` | 2017_ELE3021/xv6-public/fs.c:354-405 | the blocks a range lacks are those for its first part and those still missing for the rest |
| `CrashSafety.AllOrNothing` | 2017_ELE3021/xv6-public/log.c:69-200 | operations between begin_op and end_op change only blocks they log, so after a crash at any block write of the commit and any chain of interrupted recoveries the disk holds the file system as it was before all of them, or as after; the header write decides |
| `CrashSafety.Together` | 2017_ELE3021/xv6-public/log.c:125-172 | several operations collected in one transaction change no block that none of them logs |
| `CrashSafety.WriteOperation` | 2017_ELE3021/xv6-public/file.c:139-146 | one chunk of filewrite: the blocks logged are its own, and across any crash its bytes are all written or none |
| `CrashSafety.TruncateOperation` | 2017_ELE3021/xv6-public/fs.c:412-461 | the same for itrunc: the file is empty or as it was |
| `DiskImage.MkfsGood` | 2017_ELE3021/xv6-public/mkfs.c:20-27 | the layout of mkfs.c and fs.h keeps the blocks of inodes, bitmap and files apart, so the above holds for it |
| `DiskImage.WordsDetermine` | 2017_ELE3021/xv6-public/fs.h:24-37 | the words stored determine the bytes of a block |
| `BufferRing.Bcache.constructor` | 2017_ELE3021/xv6-public/bio.c:38-56 | binit: every buffer is on the ring exactly once, the last one first |
| `BufferRing.Bcache.Bget` | 2017_ELE3021/xv6-public/bio.c:60-93 | the most recently used buffer of the block, or else the least recently used one that is neither referenced nor dirty, or else the panic |
| `BufferRing.GotIs` | 2017_ELE3021/xv6-public/bio.c:67-92 | in terms of the buffers alone: a buffer of the block gains a reference; else one neither referenced nor dirty is given to the block; the panic comes exactly when there is neither |
| `BufferRing.Bcache.Brelse` | 2017_ELE3021/xv6-public/bio.c:128-138 | one reference fewer; a buffer without references moves to the front |
| `BufferRing.UnlinkLinked` | 2017_ELE3021/xv6-public/bio.c:132-133 | taking a buffer off keeps next and prev inverse and the order of the others |
| `BufferRing.PushLinked` | 2017_ELE3021/xv6-public/bio.c:134-137 | so does putting it at the front |
| `BufferRing.ToFrontFull` | 2017_ELE3021/xv6-public/bio.c:130-138 | the ring still visits every buffer once |
| `BufferCache.EveryRun` | 2017_ELE3021/xv6-public/bio.c:60-141 | over every run, no two buffers carry the same block of a device other than 0, and a valid clean buffer equals its disk block, unless its holder has changed it and not yet called log_write |
| `BufferCache.Transparent` | 2017_ELE3021/xv6-public/bio.c:60-141 | recycling, reading, writing back and moving buffers never change what is seen of any block |
| `BufferCache.ChangeSeen` | 2017_ELE3021/xv6-public/log.c:205-231 | what a holder writes is what is seen from then on |
| `BufferCache.HolderSees` | 2017_ELE3021/xv6-public/bio.c:95-105 | a buffer in use is of the block asked for, has its current contents and is in use by one process only |
| `BufferCache.NotRecycled` | 2017_ELE3021/xv6-public/bio.c:81-91 | a buffer dirty, held or waited for keeps its block |
| `BufferCache.DirtyExactlyWhen` | 2017_ELE3021/xv6-public/bio.c:109-116 | over every run a buffer is dirty if and only if log_write has marked it since it was last written to the disk |
| `BufferCache.LeastRecentlyUsed` | 2017_ELE3021/xv6-public/bio.c:78-91 | over every run, of the buffers that could be recycled the one whose last user released it first is taken; those never used come before, in array order |
| `BufferCache.RingByTime` | 2017_ELE3021/xv6-public/bio.c:128-138 | over every run the ring lists the buffers by the time their last user released them |
| `BufferCache.StepInv` | 2017_ELE3021/xv6-public/bio.c:60-141 | each step keeps uniqueness, reference counts and cleanness |
| `VirtualMemory.Memory.Kalloc` | 2017_ELE3021/xv6-public/kalloc.c:82-95 | takes the first frame of the list threaded through word 0 of the free frames |
| `VirtualMemory.Memory.Kfree` | 2017_ELE3021/xv6-public/kalloc.c:59-77 | fills the frame with ones, links it in front by its word 0; fails exactly outside the managed range |
| `VirtualMemory.Memory.constructor` | 2017_ELE3021/xv6-public/kalloc.c:30-52 | kinit: all frames of the range are free, each once |
| `VirtualMemory.Memory.Walkpgdir` | 2017_ELE3021/xv6-public/vm.c:44-64 | finds the page table, or adds a zeroed one whose directory entry is its frame with PTE_P, PTE_W and PTE_U, changing no translation |
| `VirtualMemory.Memory.Mappages` | 2017_ELE3021/xv6-public/vm.c:69-89 | maps exactly the pages asked for, user or kernel; out of memory it has mapped the pages before and costs exactly their page tables; remap panics on a page present |
| `VirtualMemory.Memory.Allocuvm` | 2017_ELE3021/xv6-public/vm.c:227-255 | exact in every case: panics if and only if memory lasts up to a page already present; succeeds if and only if no page of the range is present and the free frames suffice for pages and page tables, adding exactly those pages, each backed by a zeroed frame of its own; else unmaps and frees what stood in the range and loses no frame |
| `VirtualMemory.Memory.Deallocuvm` | 2017_ELE3021/xv6-public/vm.c:261-285 | for oldsz up to KERNBASE, unmaps and frees exactly the present pages of the range: the jump over an absent page table skips none |
| `VirtualMemory.Memory.Freevm` | 2017_ELE3021/xv6-public/vm.c:289-304 | all that the directory held is free again and nothing else changes |
| `VirtualMemory.Memory.Setupkvm` | 2017_ELE3021/xv6-public/vm.c:127-143 | fails if and only if fewer frames are free than 1 + the kernel's page tables, and then exactly the frames that were free are lost; else a new directory with exactly the kernel's mappings, nothing else changed |
| `VirtualMemory.Memory.Copyuvm` | 2017_ELE3021/xv6-public/vm.c:321-349 | exact in every case: succeeds if and only if the parent's pages are all present and the free frames suffice for directory, kernel tables, pages and user tables, and then every page of the child has the parent's flags and contents in a new frame; without room for the directory and the kernel's half all free frames are lost; out of memory after that, one frame is lost, the last free one, if and only if the shortage falls on a page table, and otherwise none |
| `PageWalk.WalkFinds` | 2017_ELE3021/xv6-public/vm.c:44-64 | what a walk of directory and table in physical memory finds is the entry that the theorems speak of |
| `PageWalk.MappedWalk` | 2017_ELE3021/xv6-public/vm.c:69-90 | after mappages page v + k has the word 4096 (pa + k) + perm + PTE_P |
| `PageWalk.GrownWalk` | 2017_ELE3021/xv6-public/vm.c:236-252 | after allocuvm each new page has a frame of its own from the free list, zeroed, present, writable and open to the user |
| `PageWalk.ShrunkWalk` | 2017_ELE3021/xv6-public/vm.c:262-288 | after deallocuvm no page of the range is present and the words of the others are as before |
| `PageWalk.CopiedWalk` | 2017_ELE3021/xv6-public/vm.c:330-343 | after copyuvm each page of the child has the bytes and the flags of the parent's, and the parent's pages are as before |
| `PageWalk.StoresApart` | 2017_ELE3021/xv6-public/vm.c:228-349 | in every state kept by the operations a store through one user page is seen through no other page of any process and moves no page |
| `VirtualMemory.LosesAFrame` | 2017_ELE3021/xv6-public/vm.c:342-349 | a run that loses a frame: 133 frames, setupkvm, allocuvm of one page, copyuvm |
| `VirtualMemory.LosesAllFrames` | 2017_ELE3021/xv6-public/vm.c:127-143 | a run in which setupkvm fails and every frame is lost |
| `FrameCounts.Xv6Tables` | 2017_ELE3021/xv6-public/vm.c:113-123 | the kernel's mappings take 64 page tables, wherever its data begin |
| `Mappings.CopyThenFree` | 2017_ELE3021/xv6-public/vm.c:290-349 | copying and then freeing the copy gives back the same set of free frames, none listed twice |
| `Mappings.CopyDisjoint` | 2017_ELE3021/xv6-public/vm.c:331-343 | parent and child share no frame |
| `Mappings.UndoGrowth` | 2017_ELE3021/xv6-public/vm.c:241-252 | deallocuvm on the way out of a failed allocuvm leaves the user pages outside the range as they were and those of the range absent |
| `Mappings.ClearedRestored` | 2017_ELE3021/xv6-public/vm.c:241-252 | so if no page of the range was present, all user pages, frames and contents are as before |
| `Mappings.ShrunkPage` | 2017_ELE3021/xv6-public/vm.c:275-282 | freeing one page unmaps that page only |
| `Mappings.ShrunkSkip` | 2017_ELE3021/xv6-public/vm.c:272-274 | no page is mapped where there is no page table |
| `PageTables.TableAdded` | 2017_ELE3021/xv6-public/vm.c:54-62 | a new page table changes no translation |
| `PageTables.PageMapped` | 2017_ELE3021/xv6-public/vm.c:82-82 | setting an entry gives the frame one holder |
| `PageTables.PageUnmapped` | 2017_ELE3021/xv6-public/vm.c:275-282 | clearing an entry leaves its frame without holder |
| `PageTables.SameFreeSet` | 2017_ELE3021/xv6-public/kalloc.c:59-95 | equal holders and equal losses mean equal free lists, up to order |
| `FreeList.EveryRun` | 2017_ELE3021/xv6-public/umalloc.c:24-90 | over every run of malloc and free: the free list is ascending, without overlaps or adjacent blocks; live blocks lie apart from it and from each other; together they are exactly the units obtained |
| `FreeList.HistoryIndependent` | 2017_ELE3021/xv6-public/umalloc.c:24-44 | two runs that leave the same blocks live in the same space leave the same free list, whatever the order of the calls |
| `FreeList.FreeListUnique` | 2017_ELE3021/xv6-public/umalloc.c:24-44 | the free list is determined by the free units |
| `FreeList.AllFreed` | 2017_ELE3021/xv6-public/umalloc.c:24-44 | when everything is freed and sbrk's pieces are contiguous, one block is left |
| `FreeList.FreeUndoesMalloc` | 2017_ELE3021/xv6-public/umalloc.c:24-90 | free of what malloc gave restores the free list, unless the heap grew |
| `FreeList.MallocGives` | 2017_ELE3021/xv6-public/umalloc.c:63-90 | success makes one new live block of the size needed, apart from all others; failure changes nothing |
| `FreeList.MallocGrows` | 2017_ELE3021/xv6-public/umalloc.c:74-88 | sbrk is asked only if no free block fits, and then for one piece |
| `FreeList.MallocTakes` | 2017_ELE3021/xv6-public/umalloc.c:74-85 | next fit: the first block behind the rover with enough units gives its last ones, or goes if it has no more; address, free list, live blocks and rover after it |
| `FreeList.FreeMovesRover` | 2017_ELE3021/xv6-public/umalloc.c:30-43 | free leaves the rover before the block given back or on the one it joined |
| `FreeList.HeapCutExactlyWhen` | 2017_ELE3021/xv6-public/umalloc.c:46-61 | sbrk gets an argument that is not positive, so that the heap does not grow, if and only if 2^31 - 15 <= nbytes <= 2^32 - 8 |
| `FreeList.Units` | 2017_ELE3021/xv6-public/umalloc.c:69-69 | the units hold nbytes bytes if and only if nbytes + 7 does not overflow, and then with less than one unit to spare |
| `FreeList.SearchFirst` | 2017_ELE3021/xv6-public/umalloc.c:74-89 | the block found is the first that fits on the way round |
| `FreeList.GrownSearch` | 2017_ELE3021/xv6-public/umalloc.c:86-89 | after morecore a fit is found on the next round |
| `FreeList.InsertCovers` | 2017_ELE3021/xv6-public/umalloc.c:33-42 | joining with the neighbours adds exactly the block freed |
| `FreeList.InsertOrdered` | 2017_ELE3021/xv6-public/umalloc.c:33-42 | and keeps the list ascending without adjacent blocks |
| `FreeList.ShrunkCovers` | 2017_ELE3021/xv6-public/umalloc.c:75-82 | carving off the tail removes exactly the block given |
| `Umalloc.Allocator.Free` | 2017_ELE3021/xv6-public/umalloc.c:24-44 | the linked list in memory changes as the list of blocks does, by insertion with joining |
| `Umalloc.Allocator.Find` | 2017_ELE3021/xv6-public/umalloc.c:30-32 | the search around the ring ends, at the block after which the freed one belongs |
| `Umalloc.Allocator.Relink` | 2017_ELE3021/xv6-public/umalloc.c:33-43 | the four ways of joining |
| `Umalloc.Allocator.MoreCore` | 2017_ELE3021/xv6-public/umalloc.c:46-61 | the space from sbrk becomes a free block |
| `Umalloc.Allocator.Malloc` | 2017_ELE3021/xv6-public/umalloc.c:63-90 | result and memory are those of the specification |
| `Umalloc.Allocator.Allocate` | 2017_ELE3021/xv6-public/umalloc.c:74-89 | the loop ends after at most one morecore |
| `Umalloc.Allocator.Take` | 2017_ELE3021/xv6-public/umalloc.c:75-84 | all of the block, unlinked, or its tail |
| `SleepLock.MutualExclusion` | 2017_ELE3021/xv6-public/sleeplock.c:22-42 | over every interleaving at most one process is between acquiresleep and releasesleep, and locked and pid say so |
| `SleepLock.SleepersWaitForHolder` | 2017_ELE3021/xv6-public/sleeplock.c:22-42 | no lost wakeup: while the inner spinlock is free, a process asleep means another one holds the lock |
| `SleepLock.SomeoneCanStep` | 2017_ELE3021/xv6-public/proc.c:499-552 | no deadlock: while any process is busy with the lock, one of them can take a step |
| `SleepLock.OnlyFreeLockTaken` | 2017_ELE3021/xv6-public/sleeplock.c:26-30 | also after a spurious wakeup the lock is taken only when free |
| `SleepLock.StepInv` | 2017_ELE3021/xv6-public/sleeplock.c:22-42 | each statement of each process keeps spinlock ownership, lock ownership and the promise to wake |
| `ProcTable.Ptable.Wakeup1` | 2017_ELE3021/xv6-public/proc.c:537-544 | afterwards no one sleeps on the channel; who did is runnable and otherwise as before, and all other entries are unchanged |
| `ProcTable.Ptable.ExitSection` | 2017_ELE3021/xv6-public/proc.c:334-351 | parent woken, children passed to init, init woken if one is a zombie, zombie state last |
| `ProcTable.ExitedAt` | 2017_ELE3021/xv6-public/proc.c:337-350 | what exit leaves of each entry: children get init for a parent, the sleepers on the parent's channel are woken, and those on init's if there is a zombie child, the process is a zombie, and nothing else changes |
| `ProcTable.PassOne` | 2017_ELE3021/xv6-public/proc.c:340-346 | one turn of exit's loop |
| `ProcTable.Ptable.ScanChildren` | 2017_ELE3021/xv6-public/proc.c:363-385 | the first zombie that may be reaped, or whether there is a child at all |
| `ProcTable.Ptable.Kill` | 2017_ELE3021/xv6-public/proc.c:558-576 | marks the first entry with the pid and wakes it |
| `ProcTable.KilledAt` | 2017_ELE3021/xv6-public/proc.c:559-576 | what kill does to each entry: the first with the number is marked and woken if asleep, the others are unchanged |
| `ProcTable.Ptable.Alloc` | 2017_ELE3021/xv6-public/proc.c:41-52 | the first unused entry |
| `ParentWait.WaitersMissNothing` | 2017_ELE3021/xv6-public/proc.c:356-396 | over every interleaving, with ptable.lock free, a process asleep in wait has no zombie child process, and a living one whose exit will wake it |
| `ParentWait.JoinersMissNothing` | 2017_ELE3021/xv6-public/proc.c:195-233 | one asleep in join(tid) has no zombie thread tid |
| `ParentWait.ZombiesHaveParents` | 2017_ELE3021/xv6-public/proc.c:312-352 | every zombie has a living parent other than itself, init at last; no one has a zombie for a parent |
| `ParentWait.WakeUpWakes` | 2017_ELE3021/xv6-public/proc.c:537-552 | after wakeup(address) no one sleeps on the address; who did is runnable, and all else is unchanged |
| `ParentWait.WokenExactlyWhen` | 2017_ELE3021/xv6-public/proc.c:337-576 | a sleeper on any channel is woken by the wakeup of its channel, the exit of its child or, for init, one that leaves it a zombie, or a kill that hits it, and by no other step |
| `ParentWait.JoinHangs` | 2017_ELE3021/xv6-public/proc.c:226-231 | join of a tid that none of the caller's threads has, while it has others, returns in no continuation in which it is not killed |
| `ParentWait.JoinCanHang` | 2017_ELE3021/xv6-public/proc.c:226-231 | a run that gets there |
| `ParentWait.JoinCanReturn` | 2017_ELE3021/xv6-public/proc.c:195-233 | with a thread of that tid running, join can return |
| `KillAndJoin.JoinReturnsExactlyWhen` | 2017_ELE3021/xv6-public/proc.c:195-233 | over every run: one asleep in join(tid), other than init, can return in a continuation in which it is not killed if and only if it has a thread tid, whatever that thread is doing |
| `KillAndJoin.OrphanStays` | 2017_ELE3021/xv6-public/proc.c:362-373 | a zombie whose parent is init, and that is a thread or whose parent is in join, stays in every continuation in which init does not call join |
| `KillAndJoin.ReapedExactlyWhen` | 2017_ELE3021/xv6-public/proc.c:195-396 | over every run: a zombie can come to be reaped in a continuation in which init does not call join, as it never does, if and only if it is not such an orphan; its parent may be asleep, forking, waiting or joining |
| `KillAndJoin.OrphanLeft` | 2017_ELE3021/xv6-public/proc.c:312-352 | a run without kills that leaves an orphan: a process ends after its thread has |
| `KillAndJoin.KillHitsUnusedExactlyWhen` | 2017_ELE3021/xv6-public/proc.c:558-576 | over every run: kill(p) marks an entry that is not in use if and only if p is 0 and an entry has no number, or p is the number of an unfinished or abandoned fork or clone |
| `KillAndJoin.UnusedNumbers` | 2017_ELE3021/xv6-public/proc.c:41-62 | an entry not in use has a number p other than 0 if and only if it was allocated with p in the run and neither published nor allocated again since |
| `KillAndJoin.KilledIsHit` | 2017_ELE3021/xv6-public/proc.c:558-576 | an entry is marked if and only if a kill has hit it since it was last cleared |
| `KillAndJoin.BornKilledExactlyWhen` | 2017_ELE3021/xv6-public/proc.c:41-62 | since allocproc does not clear the mark, a process is born killed if and only if a kill has hit its entry since the entry was last cleared |
| `KillAndJoin.BornKilled` | 2017_ELE3021/xv6-public/proc.c:558-576 | a run with a failed fork, after which a process is born killed by a number not its own |
| `KillAndJoin.BornKilledByZero` | 2017_ELE3021/xv6-public/proc.c:558-576 | a run in which kill(0) does it, with no fork failing |
| `ParentWait.StepInv` | 2017_ELE3021/xv6-public/proc.c:146-396 | each section of fork, clone, exit, thexit, wait, join, kill keeps the invariant |
| `Pipe.PipeBuffer.PipeWrite` | 2017_ELE3021/xv6-public/pipe.c:84-97 | a stretch appends the bytes that fit to those waiting, across counter wrap, all of them or up to 512 in the pipe; it fails exactly if some are left and no one reads or the writer is killed; readers are woken unless it fails |
| `Pipe.PipeBuffer.PipeRead` | 2017_ELE3021/xv6-public/pipe.c:106-120 | a stretch that is done returns the first bytes waiting, n of them or all; it is done exactly if one waits or the writing end is closed, and fails exactly if neither holds and the reader is killed |
| `Pipe.PipeBuffer.PipeClose` | 2017_ELE3021/xv6-public/pipe.c:60-75 | the end is closed and the other side woken; the buffer is freed when both are closed |
| `Pipe.Put` | 2017_ELE3021/xv6-public/pipe.c:93-93 | the byte goes to the slot behind those waiting |
| `Pipe.Get` | 2017_ELE3021/xv6-public/pipe.c:116-116 | the first byte waiting is taken |
| `PipeRuns.Fifo` | 2017_ELE3021/xv6-public/pipe.c:78-121 | over every interleaving the bytes delivered, then those waiting, are the bytes accepted; never more than 512 wait |
| `PipeRuns.ReadDelivers` | 2017_ELE3021/xv6-public/pipe.c:106-120 | a read of n bytes returns exactly if a byte waits, the writing end is closed or the reader is killed; the bytes delivered grow by n or nothing is left waiting, and no writer sleeps afterwards |
| `PipeRuns.WriteAccepts` | 2017_ELE3021/xv6-public/pipe.c:84-97 | a write puts all its bytes in and returns, or fills the pipe and then fails or sleeps; one that returns with the pipe open and its writer alive has put in all |
| `PipeRuns.KilledDoNotSleep` | 2017_ELE3021/xv6-public/pipe.c:86-111 | over every run a killed process does not sleep in the pipe |
| `PipeRuns.MissedExactlyWhen` | 2017_ELE3021/xv6-public/pipe.c:84-97 | a write makes a sleeping reader miss its wakeup if and only if the writer is killed and has just filled the pipe |
| `PipeRuns.ReadersMissNothing` | 2017_ELE3021/xv6-public/pipe.c:100-121 | otherwise a reader sleeps only on an empty pipe open for writing, and readers and writers never sleep together |
| `PipeRuns.WritersMissNothing` | 2017_ELE3021/xv6-public/pipe.c:78-98 | a writer sleeps only on a full pipe open for reading |
| `PipeRuns.ReaderForgotten` | 2017_ELE3021/xv6-public/pipe.c:86-88 | a run that leaves a reader asleep beside 512 bytes |
| `Crc.ChecksumIsRemainder` | 2017_ITE3003/udp#3/chatcli.c:51-63 | the CRC is the remainder of the polynomial division of the message followed by 32 zeros, the first 32 bits complemented, itself complemented |
| `Crc.FeedDivides` | 2017_ITE3003/udp#3/chatcli.c:51-63 | shifting bits into the register is long division by the generator |
| `Crc.RemainderExactly` | 2017_ITE3003/udp#3/chatcli.c:51-63 | that remainder is the one word that, added to a carry-free multiple of x^32 + generator, gives the dividend |
| `Crc.CrcTable.constructor` | 2017_ITE3003/udp#3/chatcli.c:34-50 | crcInit: entry d is d followed by 24 zeros, shifted 8 times |
| `Crc.CrcTable.CrcCompute` | 2017_ITE3003/udp#3/chatcli.c:51-63 | the table-driven loop computes the bit-by-bit checksum |
| `Crc.TableStep` | 2017_ITE3003/udp#3/chatcli.c:57-60 | one table lookup takes in eight bits |
| `Crc.BurstDetected` | 2017_ITE3003/udp#3/chatcli.c:51-63 | messages of equal length that differ only within 32 consecutive bits have different checksums |
| `Crc.BurstSurvives` | 2017_ITE3003/udp#3/chatcli.c:34-50 | a burst leaves the register nonzero, since a shift loses nothing |
| `Crc.ShiftNInjective` | 2017_ITE3003/udp#3/chatcli.c:40-45 | shifting is injective |
| `Crc.FeedLinear` | 2017_ITE3003/udp#3/chatcli.c:51-63 | the register is linear in its contents and the bits |
| `Crc.CrcTable.CheckFrame` | 2017_ITE3003/udp#3/chatcli.c:181-187 | a received message is accepted if and only if it is the frame of some payload; one of fewer than four bytes gives a negative length |
| `Crc.FieldNumber` | 2017_ITE3003/udp#3/chatcli.c:181-181 | the four bytes of the field are those of the number, least significant first |
| `Crc.DamageAbandoned` | 2017_ITE3003/udp#3/chatcli.c:181-187 | a frame hit by one burst of at most 32 bits in front of the CRC field, or changed in the field alone, is abandoned |
| `Crc.DamageAcceptedExactlyWhen` | 2017_ITE3003/udp#3/chatcli.c:181-187 | for damage of any kind that keeps the length: accepted if and only if the remainder of the change of the payload is the change of the field |
| `Crc.BorderBurstMissed` | 2017_ITE3003/udp#3/chatcli.c:181-187 | a burst of 31 bits across the border of payload and field that is accepted, for every payload, because the field has its bytes in reverse order |
| `Crc.PolynomialValue` | 2017_ITE3003/udp#3/udp.h:13-13 | the generator is the constant 0x04C11DB7 |
| `Regex.Match` | 2017_ELE3021/xv6-public/grep.c:72-82 | returns 1 if and only if some part of the text, from the start after ^, up to the end before $, is in the language of the pattern |
| `Regex.MatchHere` | 2017_ELE3021/xv6-public/grep.c:85-96 | the same at the beginning of the text |
| `Regex.MatchStar` | 2017_ELE3021/xv6-public/grep.c:99-106 | the same for a starred character and the rest |
| `Regex.BeginsOne` | 2017_ELE3021/xv6-public/grep.c:93-94 | a plain character takes one character of the text |
| `Regex.BeginsMany` | 2017_ELE3021/xv6-public/grep.c:99-106 | a starred one any number |
| `Regex.FoundSomewhere` | 2017_ELE3021/xv6-public/grep.c:77-81 | trying every start finds every part |
| `Regex.PlainFound` | 2017_ELE3021/xv6-public/grep.c:72-96 | a pattern without special characters is found exactly where it stands in the text: anywhere, at the start after ^, at the end before $, or as the whole between both |
| `Regex.StarFound` | 2017_ELE3021/xv6-public/grep.c:85-106 | ^c*$ is found exactly in texts of c only, or in any text if c is a dot; ^c$ in texts of that one character |
| `Grep.Buffer.Grep` | 2017_ELE3021/xv6-public/grep.c:10-36 | what is printed, for any results of read |
| `Grep.Buffer.PrintLines` | 2017_ELE3021/xv6-public/grep.c:20-28 | the matching lines of the buffer, each with its newline, and the rest in place |
| `Grep.PrintedLines` | 2017_ELE3021/xv6-public/grep.c:20-28 | of a text given as lines the matching ones are printed, in order, each with its newline |
| `Grep.GrepOnFile` | 2017_ELE3021/xv6-public/grep.c:10-36 | on a file with lines shorter than the buffer, read in full, exactly the matching lines are printed |
| `Grep.PrintsExactlyWhen` | 2017_ELE3021/xv6-public/grep.c:10-36 | for any reads of text without NUL: the output is exactly the matching lines, for every pattern, if and only if no buffer without a newline is followed by one later |
| `Grep.NothingCutPrints` | 2017_ELE3021/xv6-public/grep.c:16-34 | then every pattern prints exactly its lines |
| `Grep.CutIsMissing` | 2017_ELE3021/xv6-public/grep.c:29-30 | else the pattern that matches every line misses some |
| `Grep.ShortReadLosesLine` | 2017_ELE3021/xv6-public/grep.c:29-30 | after a short read without newline the beginning of the line is lost |
| `ShellParser.Parsecmd` | 2017_ELE3021/xv6-public/sh.c:327-342 | panics if and only if the grammar rejects the tokens; else the tree is the grammar's, and each of its words, read as a C string in the buffer left behind, is exactly the word of the line |
| `ShellParser.Nulterminate` | 2017_ELE3021/xv6-public/sh.c:449-493 | writes behind the words and nowhere else |
| `ShellParser.ReadsSpelled` | 2017_ELE3021/xv6-public/sh.c:449-493 | no word is damaged by the ends of others |
| `ShellParser.Parser.Gettoken` | 2017_ELE3021/xv6-public/sh.c:265-308 | the next token, as a maximal run of word characters or a symbol |
| `ShellParser.Parser.Peek` | 2017_ELE3021/xv6-public/sh.c:310-320 | skips blanks only |
| `ShellParser.Parser.Parseline` | 2017_ELE3021/xv6-public/sh.c:344-359 | parses as the grammar says |
| `ShellParser.Parser.Parsepipe` | 2017_ELE3021/xv6-public/sh.c:361-372 | parses as the grammar says |
| `ShellParser.Parser.Parseredirs` | 2017_ELE3021/xv6-public/sh.c:374-397 | parses as the grammar says, whose redirections RedirectedText states |
| `ShellParser.Parser.Parseblock` | 2017_ELE3021/xv6-public/sh.c:399-413 | parses as the grammar says |
| `ShellParser.Parser.Parseexec` | 2017_ELE3021/xv6-public/sh.c:415-446 | parses as the grammar says |
| `ShellSyntax.RoundTrip` | 2017_ELE3021/xv6-public/sh.c:344-446 | every command tree that can be typed is what its text, with parentheses only where needed, parses to |
| `ShellSyntax.LineTrip` | 2017_ELE3021/xv6-public/sh.c:344-359 | the same on tokens, before the end or a closing parenthesis |
| `ShellSyntax.TextTrip` | 2017_ELE3021/xv6-public/sh.c:265-308 | tokens spelled out are read as the same tokens |
| `ShellSyntax.SpacedTrip` | 2017_ELE3021/xv6-public/sh.c:262-308 | the tokens are the same however many of the five blank characters stand between them, none being needed except between two words or two > that would join |
| `ShellSyntax.OperatorText` | 2017_ELE3021/xv6-public/sh.c:344-413 | what a line with a pipe, a semicolon, an ampersand or parentheses between texts of commands parses to |
| `ShellSyntax.RedirectedText` | 2017_ELE3021/xv6-public/sh.c:384-393 | a command followed by < file opens it for reading as descriptor 0; by > file or >> file, for writing and creating as descriptor 1 |
| `ShellSyntax.AppendIsWrite` | 2017_ELE3021/xv6-public/sh.c:387-393 | a line parses to the same tree with every >> replaced by > |
| `ShellSyntax.ParsedHasText` | 2017_ELE3021/xv6-public/sh.c:327-342 | whatever parses is a tree that can be typed, so it has such a text |

## Left out

- TmMachine.TM.Steps: the `go` command is not modelled, because it need not end; `step n` for every n is.
- BlockTree.AllocateAt: the packing of bitmap bits into bytes of bitmap blocks is not modelled.
- CrashSafety.WriteOperation: the data committed are what the blocks hold when the last operation ends, as the cache has them then; type, device and link count of inodes are not modelled, and stand as 0 on the disk.
- VirtualMemory.Memory.Deallocuvm: oldsz is at most KERNBASE, as in every call (proc.c:128, vm.c:243, 249 and 296); above it the loop would free frames the kernel maps.
- Crc.DamageAbandoned: bursts across the border of payload and CRC field, which are not all detected (DamageAcceptedExactlyWhen says which are).
- ParentWait.WaitersMissNothing: RUNNING and RUNNABLE are one state, wrap-around of process numbers is not modelled, and `chan` is not cleared after a wakeup, which no one can observe.
- PipeRuns.ReadersMissNothing: holds for runs without a killed writer's silent return, which is the exact exception.
- Umalloc.Allocator.Malloc: sbrk hands out addresses above all earlier ones and programs free only what is live; headers are not overwritten by the program.
- ShellParser.Parser.Parseargs: the arguments are added to the exec node inside the redirections by rebuilding the node rather than through a pointer.
- Printing and parsing of TM code as text, comments and tracing of the code generator, and the other TM commands.
- The TINY scanner, parser, symbol table and type checker, and the Bison grammar.
- Inode allocation and caching, directories and path names, device inodes, links.
- Page protection beyond the flags carried along, loaduvm, copyout, exec, and threads that share a page directory.
- The scheduler's choice of process, context switches, interrupts, and spinlocks themselves.
- Running shell commands; only their parsing is modelled.
- Sockets, threads and timeouts of the chat programs.
- Boot code, drivers, system call decoding, user programs other than grep and sh, and the repository's coursework in other languages.
