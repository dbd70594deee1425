/** The on-disk redo log of the 32-bit file system (32xvfs/log.c), as seen by the disk:
    a disk is changed only by single-block writes, and a crash may fall between any two
    of them.  This module says what a commit and a recovery write, and proves that
    recovery from any crash point yields either all of a transaction or none of it. */
module DiskLog {
  import opened Params

  // A header is an array of 32-bit words laid over a block.
  const BLOCK_WORDS: nat := BSIZE / 4

  // A disk block, viewed as 32-bit words.
  type Block = b: seq<int> | |b| == BLOCK_WORDS witness seq(BLOCK_WORDS, i => 0)
  type Disk = seq<Block>

  /** One atomic disk write: the block number and what is stored there. */
  datatype Write = Write(at: nat, data: Block)

  /** Superblock fields used by the log: block `start` is the header,
      blocks `start+1 .. start+nlog-1` hold logged copies. */
  datatype Geometry = Geometry(size: nat, start: nat, nlog: nat) {
    predicate Valid() {
      0 < start && 0 < nlog && start + nlog <= size
    }

    predicate InLog(b: int) {
      start <= b < start + nlog
    }

    // A block outside the log that file-system code may address.
    predicate Home(b: int) {
      0 < b < size && !InLog(b)
    }

    predicate Fits(n: int) {
      0 <= n <= LOGSIZE && n < nlog
    }
  }

  // ----- header block ---------------------------------------------------------------

  function HeaderCount(h: Block): int {
    h[0]
  }

  function HeaderEntries(h: Block, n: nat): (r: seq<int>)
    requires n <= LOGSIZE
  {
    h[1..1 + n]
  }

  /** write_head's edit of the cached header block: the count and the first n entries
      change, the rest of the block keeps whatever it held. */
  function SetHeader(h: Block, blocks: seq<int>): (r: Block)
    requires |blocks| <= LOGSIZE
    ensures HeaderCount(r) == |blocks| && HeaderEntries(r, |blocks|) == blocks
  {
    [|blocks|] + blocks + h[1 + |blocks|..]
  }

  /** A set of block numbers that a header may list. */
  predicate Loggable(g: Geometry, blocks: seq<int>) {
    && g.Fits(|blocks|)
    && Distinct(blocks)
    && forall i :: 0 <= i < |blocks| ==> g.Home(blocks[i])
  }

  predicate HeaderOk(g: Geometry, d: Disk) {
    && g.Valid() && |d| == g.size
    && g.Fits(HeaderCount(d[g.start]))
    && Loggable(g, HeaderEntries(d[g.start], HeaderCount(d[g.start])))
  }

  function Entries(g: Geometry, d: Disk): seq<int>
    requires HeaderOk(g, d)
  {
    HeaderEntries(d[g.start], HeaderCount(d[g.start]))
  }

  // ----- disks and writes -----------------------------------------------------------

  predicate InRange(d: Disk, ws: seq<Write>) {
    forall i :: 0 <= i < |ws| ==> ws[i].at < |d|
  }

  /** The blocks that a list of writes names, however often. */
  ghost function Touched(ws: seq<Write>): set<int> {
    set i | 0 <= i < |ws| :: ws[i].at
  }

  /** The log has room for the blocks of one operation, whatever the number of its log_writes. */
  ghost predicate FitsLog(g: Geometry, ws: seq<Write>) {
    && |Touched(ws)| < LOGSIZE && |Touched(ws)| < g.nlog - 1
    && forall i :: 0 <= i < |ws| ==> g.Home(ws[i].at)
  }

  lemma EditTouches(g: Geometry, ws: seq<Write>, i: nat)
    requires FitsLog(g, ws) && i < |ws|
    ensures g.Home(ws[i].at) && ws[i].at in Touched(ws)
  {
  }

  // The blocks logged so far leave room for another.
  lemma LogHasRoom(g: Geometry, ws: seq<Write>, lh: seq<int>)
    requires FitsLog(g, ws) && Distinct(lh) && forall i :: 0 <= i < |lh| ==> lh[i] in Touched(ws)
    ensures |lh| <= |Touched(ws)| && |lh| < LOGSIZE && |lh| < g.nlog - 1
  {
    CountDistinct(lh, Touched(ws));
  }

  function Apply(d: Disk, ws: seq<Write>): (r: Disk)
    requires InRange(d, ws)
    ensures |r| == |d|
  {
    if ws == [] then d
    else
      var w := ws[|ws| - 1];
      Apply(d, ws[..|ws| - 1])[w.at := w.data]
  }

  lemma ApplyNothing(d: Disk)
    ensures Apply(d, []) == d
  {
  }

  lemma ApplyOne(d: Disk, ws: seq<Write>, w: Write)
    requires InRange(d, ws) && w.at < |d|
    ensures Apply(d, ws + [w]) == Apply(d, ws)[w.at := w.data]
  {
    assert (ws + [w])[..|ws|] == ws;
  }

  lemma {:induction false} ApplyConcat(d: Disk, a: seq<Write>, b: seq<Write>)
    requires InRange(d, a) && InRange(d, b)
    ensures Apply(d, a + b) == Apply(Apply(d, a), b)
  {
    if b == [] {
      assert a + b == a;
    } else {
      var b' := b[..|b| - 1];
      ApplyConcat(d, a, b');
      assert (a + b)[..|a + b| - 1] == a + b';
    }
  }

  /** A block that no write names keeps its contents. */
  lemma {:induction false} ApplyFrame(d: Disk, ws: seq<Write>, b: nat)
    requires InRange(d, ws) && b < |d|
    requires forall i :: 0 <= i < |ws| ==> ws[i].at != b
    ensures Apply(d, ws)[b] == d[b]
  {
    if ws != [] {
      ApplyFrame(d, ws[..|ws| - 1], b);
    }
  }

  /** A block written exactly once holds what that write stored. */
  lemma {:induction false} ApplyOnce(d: Disk, ws: seq<Write>, k: nat)
    requires InRange(d, ws) && k < |ws|
    requires forall i :: 0 <= i < |ws| && i != k ==> ws[i].at != ws[k].at
    ensures Apply(d, ws)[ws[k].at] == ws[k].data
  {
    if k < |ws| - 1 {
      ApplyOnce(d, ws[..|ws| - 1], k);
    }
  }

  // What the blocks of a transaction hold in the store.
  ghost function CopiesOf(store: Disk, blocks: seq<int>): (r: seq<Block>)
    requires forall i :: 0 <= i < |blocks| ==> 0 <= blocks[i] < |store|
    ensures |r| == |blocks|
  {
    seq(|blocks|, i requires 0 <= i < |blocks| => store[blocks[i]])
  }

  // ----- what commit and recovery write ---------------------------------------------

  // write_log: copies of the modified blocks go to the log area.
  function LogWrites(g: Geometry, copies: seq<Block>): seq<Write>
  {
    seq(|copies|, i requires 0 <= i < |copies| => Write(g.start + 1 + i, copies[i]))
  }

  // install_trans: copies go to their home blocks.
  function HomeWrites(blocks: seq<int>, copies: seq<Block>): seq<Write>
    requires |blocks| == |copies| && forall i :: 0 <= i < |blocks| ==> 0 <= blocks[i]
  {
    seq(|copies|, i requires 0 <= i < |copies| => Write(blocks[i], copies[i]))
  }

  function HeadWrite(g: Geometry, old_head: Block, blocks: seq<int>): seq<Write>
    requires |blocks| <= LOGSIZE
  {
    [Write(g.start, SetHeader(old_head, blocks))]
  }

  /** Every write of one commit, in order: log copies, header, home blocks, empty header. */
  function CommitWrites(g: Geometry, head: Block, blocks: seq<int>, copies: seq<Block>): seq<Write>
    requires Loggable(g, blocks) && |copies| == |blocks|
  {
    LogWrites(g, copies) + HeadWrite(g, head, blocks) + HomeWrites(blocks, copies)
    + HeadWrite(g, SetHeader(head, blocks), [])
  }

  // The logged copies that the disk holds for a header of n entries.
  function LoggedCopies(g: Geometry, d: Disk, n: nat): seq<Block>
    requires g.Valid() && |d| == g.size && n < g.nlog
  {
    seq(n, i requires 0 <= i < n => d[g.start + 1 + i])
  }

  /** Every write of one recovery, in order: home blocks, empty header. */
  function RecoveryWrites(g: Geometry, d: Disk): seq<Write>
    requires HeaderOk(g, d)
  {
    HomeWrites(Entries(g, d), LoggedCopies(g, d, |Entries(g, d)|)) + HeadWrite(g, d[g.start], [])
  }

  function Recover(g: Geometry, d: Disk): (r: Disk)
    requires HeaderOk(g, d)
  {
    RecoveryWritesInRange(g, d);
    Apply(d, RecoveryWrites(g, d))
  }

  lemma RecoveryWritesInRange(g: Geometry, d: Disk)
    requires HeaderOk(g, d)
    ensures InRange(d, RecoveryWrites(g, d))
  {
  }

  // ----- the meaning of a disk ------------------------------------------------------

  function IndexOf(s: seq<int>, x: int): (i: nat)
    requires x in s
    ensures i < |s| && s[i] == x
  {
    if s[0] == x then 0 else 1 + IndexOf(s[1..], x)
  }

  /** What a home block stands for on a disk that may hold a committed transaction:
      its logged copy if the header lists it, and its own contents otherwise. */
  function Meaning(g: Geometry, d: Disk, b: int): Block
    requires HeaderOk(g, d) && g.Home(b)
  {
    var e := Entries(g, d);
    if b in e then d[g.start + 1 + IndexOf(e, b)] else d[b]
  }

  ghost predicate SameMeaning(g: Geometry, d: Disk, d': Disk)
    requires HeaderOk(g, d) && HeaderOk(g, d')
  {
    forall b :: g.Home(b) ==> Meaning(g, d, b) == Meaning(g, d', b)
  }

  // The state a transaction is meant to produce at block b.
  function Updated(blocks: seq<int>, copies: seq<Block>, b: int, before: Block): Block
    requires |blocks| == |copies|
  {
    if b in blocks then copies[IndexOf(blocks, b)] else before
  }

  predicate LogEmpty(g: Geometry, d: Disk) {
    g.Valid() && |d| == g.size && HeaderCount(d[g.start]) == 0
  }

  // ----- the three shapes a disk can have around a commit ---------------------------

  /** The header lists `blocks`, the log area holds `copies`, and every other home block
      is as in `base`; the home blocks in `blocks` may hold anything. */
  ghost predicate Committed(g: Geometry, d: Disk, blocks: seq<int>, copies: seq<Block>, base: Disk)
    requires g.Valid() && |base| == g.size && Loggable(g, blocks) && |copies| == |blocks|
  {
    && |d| == g.size
    && HeaderCount(d[g.start]) == |blocks| && HeaderEntries(d[g.start], |blocks|) == blocks
    && (forall i :: 0 <= i < |blocks| ==> d[g.start + 1 + i] == copies[i])
    && (forall b :: g.Home(b) && b !in blocks ==> d[b] == base[b])
  }

  lemma CommittedMeaning(g: Geometry, d: Disk, blocks: seq<int>, copies: seq<Block>, base: Disk, b: int)
    requires g.Valid() && |base| == g.size && Loggable(g, blocks) && |copies| == |blocks|
    requires Committed(g, d, blocks, copies, base) && g.Home(b)
    ensures HeaderOk(g, d) && Meaning(g, d, b) == Updated(blocks, copies, b, base[b])
  {
    assert Entries(g, d) == blocks;
  }

  // Before the header is written only log blocks have changed.
  lemma LoggingKeepsHome(g: Geometry, d: Disk, copies: seq<Block>, k: nat, b: nat)
    requires LogEmpty(g, d) && g.Fits(|copies|) && k <= |copies|
    requires b < g.size && (b == g.start || !g.InLog(b))
    ensures InRange(d, LogWrites(g, copies)[..k])
    ensures Apply(d, LogWrites(g, copies)[..k])[b] == d[b]
  {
    ApplyFrame(d, LogWrites(g, copies)[..k], b);
  }

  // Writing the header turns the logged copies into a committed transaction.
  lemma HeaderCommits(g: Geometry, d: Disk, blocks: seq<int>, copies: seq<Block>)
    requires LogEmpty(g, d) && Loggable(g, blocks) && |copies| == |blocks|
    ensures InRange(d, LogWrites(g, copies) + HeadWrite(g, d[g.start], blocks))
    ensures Committed(g, Apply(d, LogWrites(g, copies) + HeadWrite(g, d[g.start], blocks)), blocks, copies, d)
  {
    var lw := LogWrites(g, copies);
    var d1 := Apply(d, lw);
    ApplyOne(d, lw, HeadWrite(g, d[g.start], blocks)[0]);
    forall i | 0 <= i < |blocks| ensures d1[g.start + 1 + i] == copies[i] {
      ApplyOnce(d, lw, i);
    }
    forall b | g.Home(b) ensures d1[b] == d[b] {
      ApplyFrame(d, lw, b);
    }
  }

  // Installing any number of blocks leaves the transaction committed.
  lemma InstallKeepsCommitted(g: Geometry, d: Disk, blocks: seq<int>, copies: seq<Block>, base: Disk, j: nat)
    requires g.Valid() && |base| == g.size && Loggable(g, blocks) && |copies| == |blocks| && j <= |blocks|
    requires Committed(g, d, blocks, copies, base)
    ensures InRange(d, HomeWrites(blocks, copies)[..j])
    ensures Committed(g, Apply(d, HomeWrites(blocks, copies)[..j]), blocks, copies, base)
  {
    hide Apply, Distinct;
    var hw := HomeWrites(blocks, copies)[..j];
    assert forall i :: 0 <= i < |hw| ==> hw[i].at == blocks[i] && g.Home(hw[i].at);
    ApplyFrame(d, hw, g.start);
    forall i | 0 <= i < |blocks| ensures Apply(d, hw)[g.start + 1 + i] == copies[i] {
      ApplyFrame(d, hw, g.start + 1 + i);
    }
    forall b | g.Home(b) && b !in blocks ensures Apply(d, hw)[b] == base[b] {
      ApplyFrame(d, hw, b);
    }
  }

  // Once everything is installed and the header erased, the home blocks are the new state.
  lemma InstallAndClear(g: Geometry, d: Disk, head: Block, blocks: seq<int>, copies: seq<Block>, base: Disk)
    requires g.Valid() && |base| == g.size && Loggable(g, blocks) && |copies| == |blocks|
    requires Committed(g, d, blocks, copies, base)
    ensures InRange(d, HomeWrites(blocks, copies) + HeadWrite(g, head, []))
    ensures var e := Apply(d, HomeWrites(blocks, copies) + HeadWrite(g, head, []));
            LogEmpty(g, e) && forall b :: g.Home(b) ==> e[b] == Updated(blocks, copies, b, base[b])
  {
    hide Apply;
    var hw := HomeWrites(blocks, copies);
    ApplyOne(d, hw, HeadWrite(g, head, [])[0]);
    var e := Apply(d, hw + HeadWrite(g, head, []));
    forall b | g.Home(b) ensures e[b] == Updated(blocks, copies, b, base[b]) {
      if b in blocks {
        ApplyOnce(d, hw, IndexOf(blocks, b));
      } else {
        ApplyFrame(d, hw, b);
      }
    }
  }

  // ----- crash atomicity of one commit ----------------------------------------------

  ghost predicate AtomicResult(g: Geometry, d: Disk, d': Disk, blocks: seq<int>, copies: seq<Block>, done: bool)
    requires |d| == g.size && |copies| == |blocks|
  {
    && HeaderOk(g, d')
    && forall b :: g.Home(b) ==>
         Meaning(g, d', b) == if done then Updated(blocks, copies, b, d[b]) else d[b]
  }

  /** The disk after the first k writes of a commit. */
  function CrashDisk(g: Geometry, d: Disk, blocks: seq<int>, copies: seq<Block>, k: nat): Disk
    requires LogEmpty(g, d) && Loggable(g, blocks) && |copies| == |blocks|
    requires k <= 2 * |blocks| + 2
  {
    var ws := CommitWrites(g, d[g.start], blocks, copies)[..k];
    Apply(d, ws)
  }

  lemma CrashBeforeHeader(g: Geometry, d: Disk, blocks: seq<int>, copies: seq<Block>, k: nat)
    requires LogEmpty(g, d) && Loggable(g, blocks) && |copies| == |blocks|
    requires k <= |blocks|
    ensures AtomicResult(g, d, CrashDisk(g, d, blocks, copies, k), blocks, copies, false)
  {
    var lw := LogWrites(g, copies);
    assert CommitWrites(g, d[g.start], blocks, copies)[..k] == lw[..k];
    LoggingKeepsHome(g, d, copies, k, g.start);
    forall b | g.Home(b) ensures Apply(d, lw[..k])[b] == d[b] {
      LoggingKeepsHome(g, d, copies, k, b);
    }
  }

  lemma CrashAfterHeader(g: Geometry, d: Disk, blocks: seq<int>, copies: seq<Block>, k: nat)
    requires LogEmpty(g, d) && Loggable(g, blocks) && |copies| == |blocks|
    requires |blocks| < k <= 2 * |blocks| + 1
    ensures Committed(g, CrashDisk(g, d, blocks, copies, k), blocks, copies, d)
  {
    var n := |blocks|;
    var first := LogWrites(g, copies) + HeadWrite(g, d[g.start], blocks);
    var hw := HomeWrites(blocks, copies);
    assert CommitWrites(g, d[g.start], blocks, copies)[..k] == first + hw[..k - n - 1];
    HeaderCommits(g, d, blocks, copies);
    InstallKeepsCommitted(g, Apply(d, first), blocks, copies, d, k - n - 1);
    ApplyConcat(d, first, hw[..k - n - 1]);
  }

  lemma CommitRunsToEnd(g: Geometry, d: Disk, blocks: seq<int>, copies: seq<Block>)
    requires LogEmpty(g, d) && Loggable(g, blocks) && |copies| == |blocks|
    ensures var e := CrashDisk(g, d, blocks, copies, 2 * |blocks| + 2);
            LogEmpty(g, e) && forall b :: g.Home(b) ==> e[b] == Updated(blocks, copies, b, d[b])
  {
    var first := LogWrites(g, copies) + HeadWrite(g, d[g.start], blocks);
    var rest := HomeWrites(blocks, copies) + HeadWrite(g, SetHeader(d[g.start], blocks), []);
    var ws := CommitWrites(g, d[g.start], blocks, copies);
    assert ws[..2 * |blocks| + 2] == ws == first + rest;
    HeaderCommits(g, d, blocks, copies);
    InstallAndClear(g, Apply(d, first), SetHeader(d[g.start], blocks), blocks, copies, d);
    ApplyConcat(d, first, rest);
  }

  /** Crash atomicity: whatever write of a commit the crash follows, the disk stands for
      the state before the transaction or the state with all of its blocks, and it is the
      new state exactly when the header write, number |blocks| + 1, reached the disk. */
  lemma CommitIsAtomic(g: Geometry, d: Disk, blocks: seq<int>, copies: seq<Block>, k: nat)
    requires LogEmpty(g, d) && Loggable(g, blocks) && |copies| == |blocks|
    requires k <= 2 * |blocks| + 2
    ensures AtomicResult(g, d, CrashDisk(g, d, blocks, copies, k), blocks, copies, k > |blocks|)
  {
    if k <= |blocks| {
      CrashBeforeHeader(g, d, blocks, copies, k);
    } else if k <= 2 * |blocks| + 1 {
      CrashAfterHeader(g, d, blocks, copies, k);
      var c := CrashDisk(g, d, blocks, copies, k);
      CommittedHeader(g, c, blocks, copies, d);
      forall b | g.Home(b) ensures Meaning(g, c, b) == Updated(blocks, copies, b, d[b]) {
        CommittedMeaning(g, c, blocks, copies, d, b);
      }
    } else {
      CommitRunsToEnd(g, d, blocks, copies);
    }
  }

  lemma CommittedHeader(g: Geometry, d: Disk, blocks: seq<int>, copies: seq<Block>, base: Disk)
    requires g.Valid() && |base| == g.size && Loggable(g, blocks) && |copies| == |blocks|
    requires Committed(g, d, blocks, copies, base)
    ensures HeaderOk(g, d) && Entries(g, d) == blocks
  {
  }

  // ----- recovery -------------------------------------------------------------------

  lemma DiskIsCommitted(g: Geometry, d: Disk)
    requires HeaderOk(g, d)
    ensures Committed(g, d, Entries(g, d), LoggedCopies(g, d, |Entries(g, d)|), d)
  {
  }

  /** An uninterrupted recovery turns the meaning of every home block into its contents
      and leaves an empty header. */
  lemma RecoveryInstallsMeaning(g: Geometry, d: Disk)
    requires HeaderOk(g, d)
    ensures var r := Recover(g, d);
            LogEmpty(g, r) && forall b :: g.Home(b) ==> r[b] == Meaning(g, d, b)
  {
    var e, c := Entries(g, d), LoggedCopies(g, d, |Entries(g, d)|);
    DiskIsCommitted(g, d);
    InstallAndClear(g, d, d[g.start], e, c, d);
  }

  /** Recovery cut short after k of its writes. */
  function PartRecovery(g: Geometry, d: Disk, k: nat): Disk
    requires HeaderOk(g, d) && k <= |RecoveryWrites(g, d)|
  {
    RecoveryWritesInRange(g, d);
    Apply(d, RecoveryWrites(g, d)[..k])
  }

  /** A crash during recovery changes the meaning of no home block. */
  lemma PartRecoveryKeepsMeaning(g: Geometry, d: Disk, k: nat)
    requires HeaderOk(g, d) && k <= |RecoveryWrites(g, d)|
    ensures HeaderOk(g, PartRecovery(g, d, k))
    ensures SameMeaning(g, d, PartRecovery(g, d, k))
  {
    var e, c := Entries(g, d), LoggedCopies(g, d, |Entries(g, d)|);
    var ws := RecoveryWrites(g, d);
    if k == |ws| {
      assert ws[..k] == ws;
      RecoveryInstallsMeaning(g, d);
    } else {
      assert ws[..k] == HomeWrites(e, c)[..k];
      DiskIsCommitted(g, d);
      InstallKeepsCommitted(g, d, e, c, d, k);
      CommittedHeader(g, PartRecovery(g, d, k), e, c, d);
      forall b | g.Home(b) ensures Meaning(g, d, b) == Meaning(g, PartRecovery(g, d, k), b) {
        CommittedMeaning(g, PartRecovery(g, d, k), e, c, d, b);
        CommittedMeaning(g, d, e, c, d, b);
      }
    }
  }

  /** A boot in which recovery itself crashes |cuts| times: attempt i gets cuts[i] of its
      writes to the disk (all of them, if cuts[i] is larger). */
  function Interrupted(g: Geometry, d: Disk, cuts: seq<nat>): (r: Disk)
    requires HeaderOk(g, d)
    ensures HeaderOk(g, r) && SameMeaning(g, d, r)
    decreases |cuts|
  {
    if cuts == [] then d
    else
      var all := |RecoveryWrites(g, d)|;
      var k := if cuts[0] < all then cuts[0] else all;
      PartRecoveryKeepsMeaning(g, d, k);
      Interrupted(g, PartRecovery(g, d, k), cuts[1..])
  }

  /** However often recovery is cut short, once it completes the home blocks are those of
      a single uninterrupted recovery, and the header is empty. */
  lemma RecoveryIsIdempotent(g: Geometry, d: Disk, cuts: seq<nat>)
    requires HeaderOk(g, d)
    ensures var r := Recover(g, Interrupted(g, d, cuts));
            LogEmpty(g, r) && forall b :: g.Home(b) ==> r[b] == Recover(g, d)[b]
  {
    RecoveryInstallsMeaning(g, d);
    RecoveryInstallsMeaning(g, Interrupted(g, d, cuts));
  }

  // ----- whole runs -----------------------------------------------------------------

  /** One transaction: the blocks it logged and their new contents; `crash` tells after how
      many of its disk writes the machine stops, and in how many pieces recovery then runs. */
  datatype Outcome = Finishes | Crashes(writes: nat, cuts: seq<nat>)
  datatype Transaction = Transaction(blocks: seq<int>, copies: seq<Block>, outcome: Outcome) {
    predicate Valid(g: Geometry) {
      && Loggable(g, blocks) && |copies| == |blocks|
      && (outcome.Crashes? ==> outcome.writes <= 2 * |blocks| + 2)
    }

    // Did the first header write reach the disk?
    predicate HeaderReachedDisk() {
      outcome.Finishes? || outcome.writes > |blocks|
    }
  }

  predicate ValidRun(g: Geometry, ts: seq<Transaction>) {
    forall i :: 0 <= i < |ts| ==> ts[i].Valid(g)
  }

  /** The disk after one transaction, a possible crash, and the recovery that follows it. */
  function AfterTransaction(g: Geometry, d: Disk, t: Transaction): (r: Disk)
    requires LogEmpty(g, d) && t.Valid(g)
  {
    match t.outcome
    case Finishes => CrashDisk(g, d, t.blocks, t.copies, 2 * |t.blocks| + 2)
    case Crashes(writes, cuts) =>
      CommitIsAtomic(g, d, t.blocks, t.copies, writes);
      Recover(g, Interrupted(g, CrashDisk(g, d, t.blocks, t.copies, writes), cuts))
  }

  lemma TransactionAllOrNothing(g: Geometry, d: Disk, t: Transaction)
    requires LogEmpty(g, d) && t.Valid(g)
    ensures var r := AfterTransaction(g, d, t);
            LogEmpty(g, r) && forall b :: g.Home(b) ==>
              r[b] == if t.HeaderReachedDisk() then Updated(t.blocks, t.copies, b, d[b]) else d[b]
  {
    match t.outcome
    case Finishes => CommitRunsToEnd(g, d, t.blocks, t.copies);
    case Crashes(writes, cuts) =>
      CommitIsAtomic(g, d, t.blocks, t.copies, writes);
      var c := CrashDisk(g, d, t.blocks, t.copies, writes);
      RecoveryInstallsMeaning(g, c);
      RecoveryIsIdempotent(g, c, cuts);
  }

  function RunDisk(g: Geometry, d: Disk, ts: seq<Transaction>): (r: Disk)
    requires LogEmpty(g, d) && ValidRun(g, ts)
    ensures LogEmpty(g, r)
  {
    if ts == [] then d
    else
      var before := RunDisk(g, d, ts[..|ts| - 1]);
      TransactionAllOrNothing(g, before, ts[|ts| - 1]);
      AfterTransaction(g, before, ts[|ts| - 1])
  }

  /** The specification of a run: block b after the transactions that committed. */
  function Expected(ts: seq<Transaction>, b: int, initial: Block): Block
    requires forall i :: 0 <= i < |ts| ==> |ts[i].blocks| == |ts[i].copies|
  {
    if ts == [] then initial
    else
      var t := ts[|ts| - 1];
      var before := Expected(ts[..|ts| - 1], b, initial);
      if t.HeaderReachedDisk() then Updated(t.blocks, t.copies, b, before) else before
  }

  /** Safety of whole runs: after any sequence of transactions, each of which may crash at
      any write and be recovered in any number of attempts, every home block holds exactly
      what the committed transactions left there. */
  lemma {:induction false} RunsAreAtomic(g: Geometry, d: Disk, ts: seq<Transaction>, b: int)
    requires LogEmpty(g, d) && ValidRun(g, ts) && g.Home(b)
    ensures RunDisk(g, d, ts)[b] == Expected(ts, b, d[b])
  {
    if ts != [] {
      var ts' := ts[..|ts| - 1];
      RunsAreAtomic(g, d, ts', b);
      TransactionAllOrNothing(g, RunDisk(g, d, ts'), ts[|ts| - 1]);
    }
  }
}
