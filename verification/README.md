# Verified models of xv6-rosco-r2, xv6 on the Rosco m68k

This project models the parts of the system whose correctness is hardest to see by
reading: the write-ahead log and buffer caches, the file system's block trees, `diff`,
the text tools and the coordination of processes. Every module is Dafny 4.11 and the whole
is checked by `dafny verify dfyconfig.toml`.

| files | what they model |
|---|---|
| `Params` | the sizes that several parts share |
| `DiskLog`, `CacheModel`, `LogMachine`, `LogSessions` | the redo log of the host-side file system (`32xvfs`): writes, crashes, recovery, the write-through cache that pins logged blocks, the running machine, and whole lives of a disk over many crashes |
| `KernCache` | the kernel's deferred-write cache, its log and `sync` |
| `FsTree`, `FsFile`, `FsTrunc`, `BlockAlloc`, `FsKernel` | the doubly-indirect block tree as a byte sequence, block ownership, truncation, both block allocators |
| `VfsFile`, `VfsBound` | `filewrite` of 32xvfs: the bytes of the file, the blocks it takes, when it runs out of them, and how many blocks one chunk can log |
| `DiffMatch`, `DiffTable`, `DiffPipeline`, `DiffHunks`, `DiffScript`, `DiffMinimal` | `diff`: table, longest common subsequence, match vector, edit scripts, and that these are shortest |
| `LineBuffer`, `UndoLog` | the editor's line list and its undo records |
| `GrepPattern`, `GrepMatch`, `GrepCompile`, `GrepGrammar`, `GrepLaws` | `grep`: meaning of patterns, matcher, compiler, the grammar of patterns, and what they select |
| `FgrepSearch`, `FgrepLines` | `fgrep`: Boyer-Moore search and line selection with cached matches |
| `PipeRing`, `ProcTable`, `ProcLaws`, `ProcMachine`, `Frames` | pipes, sleep and wakeup, wait and exit, process ids, memory frames |

How to read it. Code that changes things in place is a class or a method over arrays, with
a contract that ties the new state to a specification; the specification is stated apart
from the code (`Apply` of a list of disk writes, `File` as a byte sequence, `IsChain` for
common subsequences, `Matches` for patterns, `Wanted` for lines, `Inv` for the process
table), and lemmas say what it guarantees. A panic in the source sets `halted` (or a
similar flag), and contracts say exactly when that happens.

## What the models found

Where a promise fails, the code is modelled as it is, an input is given and the exact condition
is proved.

- **The allocation hint can go astray.** In the last, short group of the free map `balloc`
  does not compare its first probe with `sb.size`, and its wrap may never meet the hint
  again (kern/fs.c:59-104). `BlockAlloc.Search` proves exactly when. For the shipped size of
  9000 blocks, `BlockAlloc.HintIsSet` and `BlockAlloc.HintGoesAstray` are two searches in a
  row of which the second returns block 9092.
- **32xvfs files.** `writei` checks the kernel's `MAXFILE`, but the singly-indirect `bmap`
  panics beyond `NDIRECT + NINDIRECT` blocks (32xvfs/fs.c:351-379, 461-462).
  `VfsBound.Vfs.Writei` and `VfsBound.Vfs.FileWrite` say, from the state before the call, when
  that happens: the write starts within the file, ends beyond what `bmap` can address, and the
  free blocks suffice up to there. `VfsBound.OneByteTooFar` writes one byte too many to an empty
  file.
- **exec of an empty program.** With `a_total_size` 0, or so large that rounding up wraps,
  `allocframes` is asked for no frames; if only the last frame is free it returns -1 but has
  already freed the caller's frames (kern/frames.c:44-119). `Frames.Memory.Exec` gives the
  exact condition, `Frames.ExecLosesFrame` an instance.
- **fgrep strings of 256 bytes.** The length test admits them, but the skip distance 256 does
  not fit a byte, absent bytes get 0, and the last byte is then not compared
  (cmds/simple/fgrep.c:176-185, 280-290). `FgrepSearch.LongIsRight` says exactly when the
  search is right all the same; `FgrepSearch.FalseMatch` finds a string that is not there.
- **Editor line numbers.** `b_replace` copies the line before it checks the number
  (cmds/s/Bman.c:299-301); the walk goes round the ring of lines, and where it ends at the
  head there is no text. `UndoLog.Bman.Replace` states when that is, and that other improper
  numbers are reported and harm nothing; `UndoLog.ReplaceBeyond` has one of each.
- **grep.** A class that breaks off after a dash is read past the end of the pattern
  (cmds/simple/grep.c:224-235); the model reports it as `Overrun`, and
  `GrepPattern.OpenRange` is the pattern `[a-`.
- **diff.** For files of no lines `sort` starts with an uninitialised gap
  (cmds/simple/diff.c:156-162); `DiffTable.Sort` holds for every value of it, negative ones
  too, which the wraparound test catches.
- **The log interface admits one block too many.** `log_write` panics at `nlog - 1` blocks
  while `begin_op` admits operations up to `LOGSIZE`; mkfs makes `nlog == LOGSIZE`
  (32xvfs/log.c:136-147, 213-222). `LogMachine.OverCommit` is a run of ten overlapping
  operations that panics with credit left. 32xvfs runs one operation at a time, and there
  `LogMachine.Machine.Transact` rules it out for every call whose blocks fit the log, as
  those of each chunk of `filewrite` do (`VfsBound.Vfs.Writei`).
- **A latent lost wakeup.** No wakeup is ever lost in this kernel: `ProcTable.KernelRuns`.
  `pipewrite` has a path that would lose one, returning -1 as a killed process without waking
  readers (kern/pipe.c:109-112), but nothing sets `killed`: `kill` (kern/proc.c:134-148) has
  no entry in the system call table (kern/asmcode.s:378-406) and no caller.
  `ProcTable.RunsLoseNone` and `ProcTable.WakeupIsLost` say what would happen if it had. A
  killed `piperead` would return `EPIPE`, a positive number that looks like a count
  (kern/pipe.c:128-130).

## Model

| member | source | states |
|---|---|---|
| `DiskLog.CommitIsAtomic` | 32xvfs/log.c:177-202 | after any number of the writes of a commit, the disk stands for the state before it or the state with all its blocks, and for the new one exactly from the first header write on |
| `DiskLog.CommitRunsToEnd` | 32xvfs/log.c:192-202 | a commit that finishes leaves an empty header and every logged block in its home |
| `DiskLog.CrashAfterHeader` | 32xvfs/log.c:79-92 | between the two header writes the transaction stays committed however many home blocks are installed |
| `DiskLog.RecoveryInstallsMeaning` | 32xvfs/log.c:125-132 | one recovery makes every home block what the disk stood for and empties the header |
| `DiskLog.PartRecoveryKeepsMeaning` | 32xvfs/log.c:79-132 | a crash inside recovery changes the meaning of no block |
| `DiskLog.RecoveryIsIdempotent` | 32xvfs/log.c:79-132 | recovery cut short any number of times ends with the home blocks of one uninterrupted recovery |
| `DiskLog.TransactionAllOrNothing` | 32xvfs/log.c:152-202 | a transaction with any crash point and any recovery attempts is all or nothing |
| `DiskLog.RunsAreAtomic` | 32xvfs/log.c:79-202 | after any run of transactions and crashes each block holds what the committed ones left there |
| `CacheModel.FetchKeepsCoherent` | 32xvfs/bio.c:54-80 | recycling an idle buffer keeps valid buffers right, blocks unique and pinned blocks cached |
| `CacheModel.WriteThroughCoherent` | 32xvfs/blk.c:26-45 | writing a buffer through unpins its block and nothing else |
| `CacheModel.PinKeepsCoherent` | 32xvfs/log.c:213-233 | log_write pins the block and leaves the disk alone |
| `CacheModel.RoomToRecycle` | 32xvfs/bio.c:67-78 | with no references and fewer pinned blocks than buffers there is one to recycle |
| `CacheModel.MoveToFrontListed` | 32xvfs/bio.c:106-118 | relinking at the front keeps every buffer on the list exactly once |
| `CacheModel.MoveToFrontOrder` | 32xvfs/bio.c:106-118 | the buffer comes first and the others keep their order |
| `LogMachine.Machine.ReadIn` | 32xvfs/blk.c:38-44 | filling a buffer gives it the stored contents of its block |
| `LogMachine.Machine.WriteOut` | 32xvfs/bio.c:95-101 | an edit and bwrite is one disk write of exactly that block |
| `LogMachine.Machine.FindCached` | 32xvfs/bio.c:59-65 | the cached buffer of a block, or none has it |
| `LogMachine.Machine.FindIdle` | 32xvfs/bio.c:67-78 | the least recently used buffer that is neither referenced nor DIRTY, or all are busy |
| `LogMachine.Machine.Bget` | 32xvfs/bio.c:54-80 | never recycles a DIRTY buffer; panics only if all are busy |
| `LogMachine.Machine.Bread` | 32xvfs/bio.c:83-93 | a referenced buffer with the contents callers last stored; disk unchanged |
| `LogMachine.Machine.Brelse` | 32xvfs/bio.c:105-118 | drops one reference and moves an unreferenced buffer to the front |
| `LogMachine.Machine.WriteLog` | 32xvfs/log.c:177-190 | copies all pinned blocks to the log area in order, home blocks untouched |
| `LogMachine.Machine.WriteHead` | 32xvfs/log.c:111-123 | one write of the header |
| `LogMachine.Machine.InstallTrans` | 32xvfs/log.c:79-92 | logged copies go to their homes in order, and the blocks become clean |
| `LogMachine.Machine.Commit` | 32xvfs/log.c:192-202 | its writes are exactly those of the commit specification, or a prefix if it stops |
| `LogMachine.Machine.BeginOp` | 32xvfs/log.c:135-147 | admits an operation exactly if every operation in progress can still log MAXOPBLOCKS |
| `LogMachine.Machine.LogWrite` | 32xvfs/log.c:213-233 | absorbs repeats, pins the block, writes nothing; panics exactly when too big or outside an operation |
| `LogMachine.Machine.EndOp` | 32xvfs/log.c:151-174 | the last operation commits; stopping at any write leaves the old or the whole new state; then no buffer is DIRTY |
| `LogMachine.Machine.constructor` | 32xvfs/bio.c:35-49 | an empty cache over any disk satisfies the invariant |
| `LogMachine.Machine.ReadHead` | 32xvfs/log.c:95-106 | the in-memory header is the one on disk |
| `LogMachine.Machine.RecoverFromLog` | 32xvfs/log.c:125-132 | its writes are those of the recovery specification |
| `LogMachine.Machine.InitLog` | 32xvfs/log.c:65-76 | afterwards every home block holds what the disk stood for |
| `LogMachine.Machine.Transact` | 32xvfs/log.c:135-233 | a call of any number of edits of blocks that together fit the log never panics and is atomic under a crash at any write |
| `LogMachine.CommitCrashSafe` | 32xvfs/log.c:177-202 | every prefix of the machine's actual writes stands for the old or the new state |
| `LogMachine.Boot` | 32xvfs/log.c:65-76 | power-up on any crash disk yields a valid machine with the meaning of that disk |
| `LogMachine.OverCommit` | 32xvfs/log.c:135-233 | ten overlapping operations on a log of LOGSIZE blocks: log_write panics with one block of credit unused |
| `LogSessions.OneCall` | 32xvfs/log.c:135-233 | one more call keeps every earlier crash point and adds its own, none of which shows a part of a call |
| `LogSessions.Session` | 32xvfs/log.c:65-233 | power-up and any calls on the machine: a crash at any write, recovery included, leaves a whole number of calls, at least those done |
| `LogSessions.LivesAreAtomic` | 32xvfs/log.c:65-233 | over any number of sessions and crashes the disk stands for a prefix of each session's calls in order, containing all that were done |
| `LogSessions.Live` | 32xvfs/log.c:65-233 | booting the machine for each session on the disk that is there and cutting its writes anywhere is such a life |
| `LogSessions.RecoveredView` | 32xvfs/file.c:102-140 | what is read from the blocks after a crash and recovery is what was read between two calls, so of filewrite a whole number of chunks |
| `KernCache.LogicalContent` | kern/bio.c:54-105 | a block's content is its valid buffer, else the disk |
| `KernCache.Kernel.constructor` | kern/bio.c:35-49 | binit satisfies the invariant |
| `KernCache.Kernel.Blkrw` | kern/usbblk.c:83-96 | afterwards the buffer is valid, clean and right |
| `KernCache.Kernel.FindUnused` | kern/bio.c:67-88 | a clean unreferenced buffer if there is one, else a DIRTY one, else none |
| `KernCache.Kernel.Bget` | kern/bio.c:54-92 | evicting a DIRTY buffer changes no logical content; panics exactly if all are referenced |
| `KernCache.Kernel.Bread` | kern/bio.c:95-105 | a referenced buffer with the logical content |
| `KernCache.Kernel.Bwrite` | kern/bio.c:108-118 | only the edited block's content changes |
| `KernCache.Kernel.Brelse` | kern/bio.c:122-135 | no content changes |
| `KernCache.Kernel.Bflush` | kern/bio.c:137-145 | afterwards the disk equals the logical store everywhere |
| `KernCache.Kernel.WriteLog` | kern/log.c:174-187 | the writes are those of the log specification: the contents of the listed blocks, in order, in the log area |
| `KernCache.Kernel.InstallTrans` | kern/log.c:76-89 | the writes are those of the home blocks; the identity once the copies are in the log area |
| `KernCache.Kernel.WriteHead` | kern/log.c:108-120 | only the header block changes |
| `KernCache.Kernel.Commit` | kern/log.c:189-199 | the writes together are those of the commit specification, and the header ends empty; the identity on every block outside the log |
| `KernCache.Kernel.LogWrite` | kern/log.c:210-230 | records the block once; panics exactly when too big or outside an operation |
| `KernCache.Kernel.BeginOp` | kern/log.c:132-144 | admits an operation exactly if the log can still take MAXOPBLOCKS of each |
| `KernCache.Kernel.EndOp` | kern/log.c:148-171 | the last operation commits; no block outside the log changes |
| `KernCache.Kernel.TransactAndSync` | kern/log.c:132-230 | a call of any edits that fit the log, followed by sync, puts exactly those edits on the disk |
| `FsTree.WordPut` | kern/fs.c:398-420 | writing one pointer of an indirect block changes that pointer only |
| `FsTree.WordBytes` | kern/fs.c:398-420 | pointers are stored with the high byte first |
| `FsTree.GrowLinks` | kern/fs.c:380-427 | giving a fresh block to an empty slot changes that pointer only and keeps every block owned once and marked |
| `FsTree.GrowExtends` | kern/fs.c:380-427 | growing keeps every existing pointer and byte; new data blocks are zero |
| `FsFile.DataSlotInjective` | kern/fs.c:380-427 | different block numbers use different slots |
| `FsFile.DataSlotAt` | kern/fs.c:380-427 | direct blocks come first, then those below each second-level block in the order of its pointers |
| `FsFile.BlockPtrInjective` | kern/fs.c:380-427 | different blocks of one file or of two lie in different disk blocks |
| `FsFile.StoreBytes` | kern/fs.c:525-532 | storing into one data block changes exactly those bytes of that file |
| `FsFile.WroteStep` | kern/fs.c:525-532 | one round of writei extends the written prefix and keeps every other byte of every file |
| `FsFile.WroteAll` | kern/fs.c:514-539 | when the loop ends the content is the old one overwritten at off |
| `FsFile.OverwrittenAt` | kern/fs.c:514-539 | overwriting puts src at off, byte by byte, and keeps the others |
| `FsTrunc.FreeStep` | kern/fs.c:434-474 | each block freed is owned by the inode and still marked |
| `FsTrunc.AllIsAll` | kern/fs.c:434-474 | the walk passes every slot of the inode: what it frees in all is what the inode owned |
| `FsTrunc.TruncatedOwned` | kern/fs.c:434-474 | after truncation ownership still holds |
| `FsTrunc.TruncatedFiles` | kern/fs.c:434-474 | the file is empty and all other files are unchanged |
| `BlockAlloc.ScanGroup` | kern/fs.c:67-94 | the wrap-round scan of one bitmap block: which bit it finds, and when it leaves the group or never ends |
| `BlockAlloc.Search` | kern/fs.c:49-107 | the first free block in its order, none free, or astray, the last exactly under a stated condition on hint and bitmap, and then which block or that it never ends |
| `BlockAlloc.HintedSearchIsComplete` | kern/fs.c:49-107 | with a hint inside every group it finds a block exactly when one is free |
| `BlockAlloc.HintIsSet` | kern/fs.c:49-107 | on a 9000-block disk with only block 900 and the last group free, the search finds block 900 |
| `BlockAlloc.HintGoesAstray` | kern/fs.c:49-107 | and the next search returns block 9092, beyond the end |
| `BlockAlloc.StraightScan` | 32xvfs/fs.c:56-79 | the first free block, or all bits are set |
| `FsKernel.FileSystem.Balloc` | kern/fs.c:49-107 | a zeroed block that was free, only its bit changes; fails exactly when none is free or the hint goes astray |
| `FsKernel.FileSystem.Fill` | kern/fs.c:386-424 | one level of bmap: an existing pointer is kept, an empty slot gets a new block; it stops exactly if a block is wanted and balloc finds none |
| `FsKernel.FileSystem.Bmap` | kern/fs.c:380-427 | ownership kept, existing blocks stay, a block that exists is found without change; it stops only out of range or where balloc finds no block |
| `FsKernel.FileSystem.Readi` | kern/fs.c:491-509 | the slice of the content, cut at the end; changes nothing, so never allocates |
| `FsKernel.FileSystem.Writei` | kern/fs.c:514-539 | replaces content[off..off+n), extends the size, leaves other files; exact error condition; stops only where balloc finds no block, with a prefix written |
| `FsKernel.FileSystem.Bfree` | kern/fs.c:110-124 | clears one bit; panics exactly if it was clear |
| `FsKernel.FileSystem.Itrunc` | kern/fs.c:429-474 | clears exactly the bits of the blocks that some slot of the inode pointed at, each once; bfree's panic is unreachable |
| `FsKernel.FileSystem.FileWrite` | kern/file.c:114-154 | the chunks together are one write of what was accepted; stops only where balloc finds no block |
| `FsKernel.OverwriteTwice` | kern/file.c:128-148 | adjoining writes compose to one |
| `FsKernel.FileSystem.constructor` | kern/fs.c:216-237 | a file system of empty inodes has sound ownership and empty files |
| `VfsBound.Vfs.LogWrite` | 32xvfs/log.c:213-233 | the log holds distinct, accounted blocks; too big exactly at the limits |
| `VfsBound.Vfs.FindFree` | 32xvfs/fs.c:56-79 | the block found was free and is zeroed, only its bit changes; it panics exactly if no bit is clear |
| `VfsFile.IndirectGrown` | 32xvfs/fs.c:363-368 | allocating the indirect block changes no pointer of the file and costs one free block |
| `VfsFile.BlockGrown` | 32xvfs/fs.c:356-372 | filling in a pointer changes that pointer only, keeps every block used once, and costs one free block |
| `VfsFile.WroteStep` | 32xvfs/fs.c:465-471 | one round of writei extends the written prefix and changes no other byte of any file |
| `VfsFile.WroteAll` | 32xvfs/fs.c:453-477 | when the loop ends the content is the old one overwritten at off |
| `VfsFile.KeptTrans` | 32xvfs/file.c:118-135 | chunks that take only free blocks and leave other files alone do so together |
| `VfsBound.Vfs.Bmap` | 32xvfs/fs.c:350-379 | the block is there, zeroed if new, all else as it was, and every block logged is accounted for; out of range exactly beyond NDIRECT + NINDIRECT, out of blocks only where the file could not be filled in further |
| `VfsBound.Vfs.WriteRound` | 32xvfs/fs.c:465-471 | one round stores its bytes in one block and logs at most one data block and, for a new one, a bitmap block; every block, bitmap bit and indirect pointer that it changes is in the log |
| `VfsBound.CoveredTrans` | 32xvfs/fs.c:465-471 | rounds whose changes are all logged have them all logged together |
| `VfsBound.NewMeansLonger` | 32xvfs/fs.c:473-476 | in a file without holes, a pointer of the inode changes only if the file gets longer, so that logging the inode for its length covers it |
| `VfsBound.Vfs.Writei` | 32xvfs/fs.c:453-477 | a chunk logs at most MAXOPBLOCKS blocks and is never too big; src replaces the bytes at off and no other file changes; everything that changed is in the log: blocks, bitmap blocks, the indirect block, and the inode block if length or pointers changed; refusal, running out of blocks and going out of range exactly, from the state before |
| `VfsBound.Vfs.FileWrite` | 32xvfs/file.c:102-140 | no transaction is too big; the chunks together are one write; every commit on the way shows a whole number of chunks; refusal, running out of blocks and going out of range exactly, from the state before |
| `VfsBound.OneByteTooFar` | 32xvfs/file.c:102-140 | writing one byte more than bmap can address to an empty file panics in bmap |
| `VfsBound.Vfs.constructor` | 32xvfs/fs.c:191-211 | an empty file satisfies the invariant |
| `Params.CountDistinct` | 32xvfs/log.c:213-233 | distinct logged blocks are no more than the blocks they are taken from |
| `DiffTable.Sort` | cmds/simple/diff.c:153-182 | in order by value and serial, and a rearrangement of the input, whatever integer the gap starts as |
| `DiffTable.Pass` | cmds/simple/diff.c:162-181 | one gap's pass rearranges; the pass with gap 1 sorts |
| `DiffTable.Sift` | cmds/simple/diff.c:165-179 | sifting one element keeps the sorted part sorted; a negative gap leaves at once |
| `DiffTable.Classify` | cmds/simple/diff.c:316-329 | each line of file 0 gets the first equal line of sorted file 1, or 0 exactly if there is none |
| `DiffTable.Members` | cmds/simple/diff.c:330-340 | the table of class members with negated heads |
| `DiffTable.Unsort` | cmds/simple/diff.c:184-194 | classes return to file order |
| `DiffTable.RunIsRow` | cmds/simple/diff.c:316-340 | the class of a line lists exactly its equal lines of file 1 in increasing order |
| `DiffMatch.Search` | cmds/simple/diff.c:354-372 | the level a new y belongs to among increasing thresholds |
| `DiffMatch.RowOptimal` | cmds/simple/diff.c:386-422 | a row done for all its matches keeps the thresholds least possible |
| `DiffMatch.Row` | cmds/simple/diff.c:394-420 | one row of stone keeps the invariant on candidates and thresholds |
| `DiffMatch.Stone` | cmds/simple/diff.c:386-422 | k is the length of a longest common subsequence, and every c[l] ends one of length l that ends as early as any |
| `DiffMatch.LeastEnd` | cmds/simple/diff.c:386-422 | clist[c[l]].y is the least end of a common subsequence of length l, and it is attained |
| `DiffMatch.CandidateChain` | cmds/simple/diff.c:342-352 | the predecessors of a candidate spell out a common subsequence of its level |
| `DiffPipeline.Prune` | cmds/simple/diff.c:300-314 | the longest common prefix, then the longest common suffix of the rest |
| `DiffPipeline.PruneBound` | cmds/simple/diff.c:300-314 | pruning loses no length of a common subsequence |
| `DiffPipeline.BuildTable` | cmds/simple/diff.c:316-340 | sort, equiv and unsort give the match table: class 0 exactly for a line without an equal, else the run of its equals |
| `DiffPipeline.Unravel` | cmds/simple/diff.c:374-383 | J is strictly increasing, pairs equal lines and has one pair per candidate and pruned line |
| `DiffPipeline.MatchFiles` | cmds/simple/diff.c:300-422 | J is a matching of maximum size over the hash values |
| `DiffScript.Forward` | cmds/simple/diff.c:540-561 | the forward hunks, in file order, turn file 0 into file 1; they delete exactly the lines of file 0 without a match in J and insert exactly those of file 1, and a matched line stands between any two |
| `DiffScript.Backward` | cmds/simple/diff.c:562-576 | the -e commands, applied one after another as emitted, turn file 0 into file 1; they touch exactly the lines without a match in J |
| `DiffScript.EdAppend` | cmds/simple/diff.c:515-538 | running one more ed command |
| `DiffHunks.SettledHunk` | cmds/simple/diff.c:545-561 | one round of the loop: the new hunk holds the unmatched lines up to the next match, in both files, and no other |
| `DiffHunks.SettledDownHunk` | cmds/simple/diff.c:562-573 | the same from the end of the files |
| `DiffMinimal.ScriptKeepsChain` | cmds/simple/diff.c:515-538 | what any correct script does not delete is a common subsequence of the files |
| `DiffMinimal.ExactDeleted` | cmds/simple/diff.c:540-561 | a script of J deletes as many lines as J leaves unmatched |
| `DiffMinimal.ScriptIsShortest` | cmds/simple/diff.c:300-576 | no script that turns file 0 into file 1 deletes or inserts fewer lines than the one of a maximum matching |
| `DiffMinimal.Diff` | cmds/simple/diff.c:300-576 | from the two files of hash values to the report: it turns file 0 into file 1 and is a shortest script |
| `DiffMinimal.PatchIsEd` | cmds/simple/diff.c:540-576 | reading a script by the numbers of the original file is running its hunks in ed from the last to the first |
| `LineBuffer.Buffer.Reference` | cmds/s/buffer.c:157-167 | the moving reference ends at number n from either side, going round the ring if need be |
| `LineBuffer.Buffer.Gets` | cmds/s/buffer.c:91-98 | the line that number k comes to, or that it is the head of the ring |
| `LineBuffer.Buffer.LinkIn` | cmds/s/buffer.c:132-136 | the four link updates keep the ring well linked with p in place |
| `LineBuffer.Buffer.Insert` | cmds/s/buffer.c:117-138 | s becomes line k, with the next id |
| `LineBuffer.Buffer.Replace` | cmds/s/buffer.c:140-155 | line k becomes s, with the next id |
| `LineBuffer.Buffer.Unlink` | cmds/s/buffer.c:72-79 | unlinking keeps the ring well linked and the reference on the next line |
| `LineBuffer.Buffer.Delete` | cmds/s/buffer.c:64-80 | lines from..to are gone |
| `UndoLog.RecordExact` | cmds/s/Bman.c:402-436 | the records still restore the text when add_rec drops one |
| `UndoLog.RevertInsert` | cmds/s/Bman.c:356-400 | undoing an insertion |
| `UndoLog.RevertReplace` | cmds/s/Bman.c:356-400 | undoing a replacement |
| `UndoLog.RevertDelete` | cmds/s/Bman.c:356-400 | undoing a deletion |
| `UndoLog.Bman.Insert` | cmds/s/Bman.c:232-245 | inserts in range and keeps the records exact |
| `UndoLog.Bman.Delete` | cmds/s/Bman.c:163-183 | deletes a proper range, records every line, and keeps the records exact |
| `UndoLog.Bman.Replace` | cmds/s/Bman.c:292-304 | replaces an existing line and keeps the records exact; reports any other number, unless the walk ends at the head of the ring, where there is no text to copy |
| `UndoLog.ReplaceBeyond` | cmds/s/Bman.c:292-304 | line 0 has no text to copy, line 3 of one line is reported |
| `UndoLog.Bman.NewCmd` | cmds/s/Bman.c:264-290 | a command that changed the text becomes the previous change |
| `UndoLog.Bman.Undo` | cmds/s/Bman.c:355-400 | the text before the last change, an empty one becoming one empty line |
| `UndoLog.Bman.UndoTwice` | cmds/s/Bman.c:264-400 | undo, a new command and undo bring back a non-empty text |
| `GrepCompile.CompileMembers` | cmds/simple/grep.c:213-243 | a class bitmap has exactly the members' bits |
| `GrepCompile.CompileAtom` | cmds/simple/grep.c:194-291 | one item of the pattern becomes its code, or the error it is; what the item is, is stated by the grammar |
| `GrepCompile.Compile` | cmds/simple/grep.c:166-295 | the code encodes exactly the items the pattern stands for; errors iff the pattern is in error |
| `GrepMatch.Backtrack` | cmds/simple/grep.c:448-468 | backing off from the longest run misses no match of the rest |
| `GrepMatch.Advance` | cmds/simple/grep.c:361-468 | terminates, and succeeds exactly if some substring here matches the items |
| `GrepMatch.FindMatch` | cmds/simple/grep.c:328-350 | the search loop with its first-character shortcut finds a match exactly if there is one |
| `GrepCompile.Grep` | cmds/simple/grep.c:166-350 | compile then search selects a line exactly if the pattern's meaning does |
| `GrepPattern.OpenRange` | cmds/simple/grep.c:224-235 | the pattern [a- is read past its end |
| `GrepGrammar.ParseShow` | cmds/simple/grep.c:166-295 | a pattern written by the grammar (anchor, leading stars, literals, escapes, dots, classes with ranges and chained ranges, stars, final $, and every way of ending in error) is read as what the grammar says it stands for |
| `GrepGrammar.EveryPattern` | cmds/simple/grep.c:166-295 | every string is written by the grammar |
| `GrepGrammar.ParseIsGrammar` | cmds/simple/grep.c:166-295 | a pattern has a meaning if and only if the grammar writes it without error, and then that of the grammar |
| `GrepGrammar.ListedMeans` | cmds/simple/grep.c:213-236 | the members of a class are its characters and the ranges between them |
| `GrepLaws.EscapeIsLiteral` | cmds/simple/grep.c:249-290 | an escaped character stands for itself |
| `GrepLaws.RangeIsInterval` | cmds/simple/grep.c:213-243 | [x-y] accepts exactly x..y, [^x-y] exactly the others, and stars after it star it |
| `GrepLaws.MatchesIsCut` | cmds/simple/grep.c:361-468 | items match at a place if and only if the line can be cut from there into pieces that they spell one by one |
| `GrepLaws.QuotedSelects` | cmds/simple/grep.c:166-350 | a text with its special characters escaped selects exactly the lines that contain it, with ^ those that start with it, with $ those that end with it |
| `FgrepSearch.AddString` | cmds/simple/fgrep.c:169-190 | each byte's entry is its distance from the end of the string, and for absent bytes the length modulo 256; which strings are ignored or refused |
| `FgrepSearch.SkipIsSafe` | cmds/simple/fgrep.c:278-282 | nothing the search would stop at ends in the bytes that are skipped |
| `FgrepSearch.TestStr.Compare` | cmds/simple/fgrep.c:283-290 | the comparison from the end succeeds exactly on a match, for 256 bytes also where the last byte is absent from the string |
| `FgrepSearch.TestStr.SearchStr` | cmds/simple/fgrep.c:273-294 | the leftmost match at or after input, or a position beyond the text; for 256 bytes the leftmost place the comparison accepts |
| `FgrepSearch.ShortIsRight` | cmds/simple/fgrep.c:273-294 | up to 255 bytes what the search stops at is the leftmost match |
| `FgrepSearch.LongIsRight` | cmds/simple/fgrep.c:273-294 | for 256 bytes it is so if and only if no false hit comes before the first match |
| `FgrepSearch.FalseMatch` | cmds/simple/fgrep.c:169-190 | a string of 256 bytes that is found where it is not |
| `FgrepLines.Scanner.TryString` | cmds/simple/fgrep.c:317-322 | a cached match is reused only where it is the leftmost |
| `FgrepLines.Scanner.FirstMatch` | cmds/simple/fgrep.c:313-323 | the first match of any string, all caches good afterwards |
| `FgrepLines.Scanner.NextNumbered` | cmds/simple/fgrep.c:332-339 | walks to the line of the match counting every line |
| `FgrepLines.Scanner.NextUnmatched` | cmds/simple/fgrep.c:327-331 | with -v the next line is returned exactly if it contains no string |
| `FgrepLines.Scanner.NextMatched` | cmds/simple/fgrep.c:340-345 | the line around the match |
| `FgrepLines.MatchInLine` | cmds/simple/fgrep.c:300-351 | a string without newline is in a line exactly if it starts there |
| `FgrepLines.Scanner.GetLine` | cmds/simple/fgrep.c:296-351 | the next wanted line, the rest still to come, and the line number |
| `FgrepLines.Scanner.AllLines` | cmds/simple/fgrep.c:125-141 | a buffer-full yields exactly the lines with (or with -v without) one of the strings, in order |
| `PipeRing.WrapIndex` | kern/pipe.c:116-136 | the ring slot of a wrapped counter is that of the true count |
| `PipeRing.WrapCompare` | kern/pipe.c:109-134 | wrapped counters compare equal, or a pipe's length apart, exactly if the counts do |
| `PipeRing.Ring.Put` | kern/pipe.c:116 | one more byte accepted, none overwritten |
| `PipeRing.Ring.Get` | kern/pipe.c:136 | the oldest byte not yet returned |
| `PipeRing.Ring.Write` | kern/pipe.c:103-120 | a step of pipewrite on the ring is the step on a bounded queue; the bytes accepted are the next ones of the call, and all but those left if it sleeps; bytes returned stay a prefix of bytes accepted |
| `PipeRing.Ring.Read` | kern/pipe.c:122-140 | a step of piperead on the ring is the step on the queue |
| `PipeRing.WriteLaw` | kern/pipe.c:103-120 | a step adds the next bytes of the call until all are in or the pipe is full; it returns their number exactly if all are in, fails exactly without reader or if killed, and else sleeps with the rest |
| `PipeRing.ReadLaw` | kern/pipe.c:122-140 | a step sleeps exactly on an empty pipe that can be written; else it returns the first min(n, length) bytes and leaves the others |
| `PipeRing.CallAddsPrefix` | kern/pipe.c:103-120 | through any number of sleeps a call adds a prefix of its bytes, each once, and all of them if it returns their number |
| `ProcTable.WriteKeeps` | kern/pipe.c:103-120 | a pipewrite step keeps the invariant |
| `ProcTable.WriteReaders` | kern/pipe.c:103-120 | it leaves a reader asleep beside a byte if and only if it is the killed writer returning -1 |
| `ProcTable.ReadKeeps` | kern/pipe.c:122-140 | a piperead step keeps the invariant |
| `ProcTable.CloseKeeps` | kern/pipe.c:87-100 | closing an end keeps it |
| `ProcTable.PipeAllocKeeps` | kern/pipe.c:30-85 | reusing a free pipe keeps it |
| `ProcTable.NeverBothAsleep` | kern/pipe.c:103-140 | where no wakeup is lost, readers and writers never sleep on one pipe at once |
| `ProcTable.KillKeeps` | kern/proc.c:130-148 | kill keeps the invariant |
| `ProcTable.ForkKeeps` | kern/proc.c:331-385 | fork keeps it, with or without memory for the child |
| `ProcTable.WaitKeeps` | kern/proc.c:201-239 | wait keeps it: a sleeper has a child and no zombie child |
| `ProcTable.ExitKeeps` | kern/proc.c:150-199 | exit keeps it: no orphan, no waiting parent of a zombie |
| `ProcTable.ScheduleKeeps` | kern/proc.c:58-87 | picking the first runnable process keeps it |
| `ProcTable.StartInv` | kern/proc.c:17-56 | the system starts with the invariant, no reader missed and nobody killed |
| `ProcTable.StepKeeps` | kern/proc.c:58-239 | every step keeps the invariant: live parents, waiters with a child and no zombie child, writers asleep on a full pipe with its reader, open ends, bounded pipes |
| `ProcTable.StepReaders` | kern/pipe.c:87-140 | a step leaves a reader asleep beside a byte if and only if it is the losing pipewrite |
| `ProcTable.StepKillsNone` | kern/asmcode.s:378-406 | no system call sets killed, and without it no step loses a wakeup |
| `ProcTable.RunsKeep` | kern/proc.c:58-239 | the invariant holds in every state of every run |
| `ProcTable.KernelRuns` | kern/asmcode.s:378-406 | in every run of the kernel, where no action is kill, no wakeup is ever lost |
| `ProcTable.RunsLoseNone` | kern/pipe.c:103-140 | with kill, a run loses no wakeup if and only if pipewrite never took the losing path |
| `ProcTable.WakeupIsLost` | kern/pipe.c:109-112 | if a process could call kill: a run in which a reader sleeps on a full pipe |
| `ProcLaws.ScheduleLaw` | kern/proc.c:63-87 | the first runnable process runs, nothing else changes, and none runs exactly if none is runnable |
| `ProcLaws.SleepLaw` | kern/proc.c:97-110 | the process is asleep on its channel in its call, and another runs |
| `ProcLaws.WriteRunLaw` | kern/pipe.c:103-120 | the pipe gets the bytes of the step; the process returns its value or sleeps with the bytes left; others are only woken |
| `ProcLaws.ReadRunLaw` | kern/pipe.c:122-140 | the process gets the bytes of the step or sleeps; others are only woken |
| `ProcLaws.CloseLaw` | kern/pipe.c:87-100 | that end is closed and no other, the bytes stay, and nobody is left asleep at the other end |
| `ProcLaws.PipeLaw` | kern/pipe.c:30-85 | a pipe that nobody had open becomes an empty one open at both ends; nothing changes if there is none |
| `ProcLaws.ForkLaw` | kern/proc.c:331-385 | a free entry becomes a runnable child with a new id, the parent gets that id and the child 0; or -1 exactly without entry or memory |
| `ProcLaws.KillLaw` | kern/proc.c:130-148 | one process of that id is marked and does not go on sleeping; no other changes |
| `ProcLaws.WaitLaw` | kern/proc.c:201-239 | a zombie child is collected and its id returned if there is one, -1 is returned exactly without children, else the process sleeps |
| `ProcLaws.ExitLaw` | kern/proc.c:150-199 | the process is a zombie with its id and parent, its children are those of init, and all others keep id, parent and call |
| `ProcLaws.ExitThenWait` | kern/proc.c:150-239 | after exit the parent is live, is not asleep in wait, and its next wait has a zombie to collect |
| `ProcLaws.RunsKeepPids` | kern/proc.c:29-42 | in every run no two processes share an id |
| `ProcLaws.StepZombie` | kern/proc.c:201-239 | a step leaves a zombie as it is, or is a wait by its parent that returns its id |
| `ProcLaws.ZombieIsCollected` | kern/proc.c:150-239 | in every run a zombie stays one, with its id, until its parent's wait returns that id |
| `ProcLaws.StepWork` | kern/proc.c:58-239 | a step leaves every process but the running one in the call it is in |
| `ProcLaws.WriteInRun` | kern/pipe.c:103-120 | in every run, whatever others do between its turns: what a process in pipewrite has put into the pipe and what it has left are together its bytes; it returns their number with all of them in, and -1 with the first of them in |
| `ProcMachine.Machine.Wakeup` | kern/proc.c:112-121 | exactly the sleepers on the channel become runnable |
| `ProcMachine.Machine.Scheduler` | kern/proc.c:63-87 | the table loop is the Schedule step |
| `ProcMachine.Machine.SleepOn` | kern/proc.c:97-110 | sleep is the Sleep step |
| `ProcMachine.Machine.Fork` | kern/proc.c:29-42 | allocproc and the table updates of fork are the RunFork step |
| `ProcMachine.Machine.Kill` | kern/proc.c:130-148 | the table loop is the RunKill step |
| `ProcMachine.Machine.SysWait` | kern/proc.c:201-239 | the scan for zombies is the RunWait step |
| `ProcMachine.Machine.HandOver` | kern/proc.c:186-193 | all children go to init, which is woken exactly if one is a zombie |
| `ProcMachine.Machine.SysExit` | kern/proc.c:183-197 | exit is the RunExit step |
| `ProcMachine.Machine.PipeWrite` | kern/pipe.c:103-120 | pipewrite on the ring with its wakeups is the RunWrite step |
| `ProcMachine.Machine.PipeRead` | kern/pipe.c:122-140 | piperead on the ring with its wakeup is the RunRead step |
| `ProcMachine.Machine.PipeClose` | kern/pipe.c:87-100 | pipeclose is the RunClose step |
| `Frames.FrameList.FreeFrames` | kern/frames.c:23-32 | exactly the frames of pid become free |
| `Frames.FrameList.BiggestRun` | kern/frames.c:68-106 | the tracking loop finds the leftmost longest run, except that it does not record a single free last frame |
| `Frames.FrameList.AllocFrames` | kern/frames.c:34-119 | succeeds exactly if a run of free or own frames is long enough; then pid owns precisely that interval; failure restores the list |
| `Frames.LiveApart` | kern/frames.c:1-4 | live processes hold disjoint intervals |
| `Frames.Memory.Fork` | kern/proc.c:350-361 | the child gets as many frames as its parent, exactly if there is a run, and the table matches the frames |
| `Frames.Memory.Exec` | kern/exec.c:67-77 | the new size's frames or the old ones; ownership matches the table exactly under a stated condition on the size |
| `Frames.Memory.Exit` | kern/proc.c:171-172 | exactly the frames of the process become free |
| `Frames.NoFrames` | kern/exec.c:71 | which header sizes come to no frames in 32-bit arithmetic |
| `Frames.ExecLosesFrame` | kern/frames.c:34-119 | an instance in which a failed exec loses the caller's frame |

## Left out

- Crash atomicity of the kernel's own log: its cache defers writes and evicts DIRTY buffers, so it offers none (kern/bio.c:78-88, 113-117).
- The buffer list's `next`/`prev` pointers: both caches keep the order as a sequence of buffer numbers; relinking is `MoveToFront`.
- Block number 0 is never requested of a cache, since buffers start with it; the superblock lies at 1.
- A caller's edit of a buffer and the `log_write` or `bwrite` that follows are one call in both caches.
- LogMachine.Machine.BeginOp: is one test of the loop of `begin_op`, which has no way to wait: if the test fails it goes round for ever.
- LogMachine.Machine.InitLog: the superblock is given (`Geometry`), not read from the disk.
- FsKernel.FileSystem.Balloc: outside the hint condition the model stops (`halted`) instead of returning a block beyond the file system or looping for ever.
- FsKernel.FileSystem.Fill: pointers are read from and written to the block store directly; caching, `log_write` and `iupdate` of the in-memory inode are those of the cache models.
- LogSessions.RecoveredView: the layout of inodes, free map and indirect blocks within disk blocks is not modelled, so the bytes of a file are a parameter of the statement; `VfsBound.Vfs.FileWrite` gives their values at each commit.
- KernCache.Kernel.BeginOp: is one test of the loop of `begin_op`, which goes round for ever if it fails.
- VfsBound.Vfs.Writei: one file is modelled; the in-memory inode and its copy on disk are one.
- Directories, path names, link counts and inode references, `ialloc`, `lseek`, `sync` as a system call: references are known not to balance (kern/proc.c:175-180, kern/sysfile.c:460-468, 590-604).
- diff's hashing, file reading, `check` for hash collisions, printing, and the overlay of `class` and `member` on the line arrays; the arrays are separate here.
- DiffPipeline.MatchFiles: equality is equality of the non-zero hash values that the program compares.
- The editor's cursor, mark, screen, commands, fixed-size line buffers and running out of memory.
- GrepCompile.Compile: `\(`, `\)`, `\<`, `\>`, back-references, 8-bit text and the size of `expbuf` are not modelled; such patterns give `NotModelled`.
- fgrep's `fill_buffer`, option handling and output; `Scanner` works on one buffer-full of whole lines and at least one string, for `get_line` follows the list without testing it for being empty.
- FgrepLines.Scanner.GetLine: strings of 1 to 255 bytes without newline; what the search does with 256 bytes is stated on `SearchStr`.
- File descriptors: a pipe end is closed as one step, when no call on it is in progress; `sys_exit` closes its files in such steps before.
- ProcLaws.WaitLaw: the exit status and the names of processes are not modelled.
- ProcMachine.Machine.Scheduler: one pass over the table; where nothing is runnable the kernel loops for ever and the model has no running process.
- `copyaddrspace`, `forkret`, `swtch`, base registers, `brk` and the argument copying of exec: machine code and raw addresses.
- Process ids that wrap round: ids are unbounded in the process table, and `Frames.Memory.Fork` requires one that no live process has.
- The CH375 and SD drivers, console, clock, terminal control and the remaining commands.
