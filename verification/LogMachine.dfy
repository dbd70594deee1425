/** The running 32-bit file system below the inode layer: bcache, the log and the disk. */
module LogMachine {
  import opened Params
  import opened DiskLog
  import opened CacheModel

  ghost predicate SameHome(g: Geometry, a: Disk, b: Disk)
    requires |a| == |b| == g.size
  {
    forall x :: g.Home(x) ==> a[x] == b[x]
  }

  // Recovery from disk d yields the home blocks of `state`.
  ghost predicate StandsFor(g: Geometry, d: Disk, state: Disk)
    requires |state| == g.size
  {
    HeaderOk(g, d) && forall b :: g.Home(b) ==> Meaning(g, d, b) == state[b]
  }

  /** Stopping after any of the writes numbered lo..hi leaves a disk that stands for
      `before` or, once more than n of them have happened, for `after`. */
  ghost predicate CrashSafe(g: Geometry, booted: Disk, writes: seq<Write>, lo: nat, n: nat, before: Disk, after: Disk)
    requires |booted| == |before| == |after| == g.size && InRange(booted, writes)
  {
    forall k :: lo <= k <= |writes| ==>
      StandsFor(g, Apply(booted, writes[..k]), if k - lo > n then after else before)
  }

  lemma CommitShape(g: Geometry, d: Disk, blocks: seq<int>, copies: seq<Block>)
    requires g.Valid() && |d| == g.size && Loggable(g, blocks) && |copies| == |blocks|
    ensures var ws := CommitWrites(g, d[g.start], blocks, copies);
            InRange(d, ws) && |ws| == 2 * |blocks| + 2
  {
  }

  /** After writes w0 the disk is d, the log is empty, the transaction pins `blocks`, and
      `ws` are the writes of its commit. */
  ghost predicate Committing(g: Geometry, booted: Disk, w0: seq<Write>, d: Disk, store: Disk, blocks: seq<int>,
                             ws: seq<Write>) {
    && |booted| == |d| == |store| == g.size && InRange(booted, w0) && d == Apply(booted, w0)
    && LogEmpty(g, d) && Loggable(g, blocks)
    && ws == CommitWrites(g, d[g.start], blocks, CopiesOf(store, blocks))
    && forall x :: g.Home(x) && x !in blocks ==> d[x] == store[x]
  }

  lemma CommitPrefixSafe(g: Geometry, booted: Disk, w0: seq<Write>, ws: seq<Write>, d: Disk, store: Disk,
                         blocks: seq<int>, k: nat)
    requires Committing(g, booted, w0, d, store, blocks, ws) && k <= |ws|
    ensures |booted| == |store| == |d| == g.size && InRange(booted, w0 + ws[..k])
    ensures StandsFor(g, Apply(booted, w0 + ws[..k]), if k > |blocks| then store else d)
  {
    hide CommitWrites, Apply, HeaderOk, Distinct, Meaning;
    CommitShape(g, d, blocks, CopiesOf(store, blocks));
    CommitIsAtomic(g, d, blocks, CopiesOf(store, blocks), k);
    ApplyConcat(booted, w0, ws[..k]);
    assert InRange(booted, w0 + ws[..k]);
  }

  lemma PrefixSlice(w0: seq<Write>, w: seq<Write>, ws: seq<Write>, k: nat)
    requires w0 <= w <= w0 + ws && |w0| <= k <= |w|
    ensures w[..k] == w0 + ws[..k - |w0|]
  {
    assert w[..k] == (w0 + ws)[..k];
  }

  lemma CommitCrashSafe(g: Geometry, booted: Disk, w0: seq<Write>, w: seq<Write>, d: Disk, store: Disk,
                        blocks: seq<int>, ws: seq<Write>)
    requires Committing(g, booted, w0, d, store, blocks, ws) && w0 <= w <= w0 + ws
    ensures |booted| == |store| == |d| == g.size && InRange(booted, w)
    ensures CrashSafe(g, booted, w, |w0|, |blocks|, d, store)
  {
    hide Committing, Apply, StandsFor;
    PrefixSlice(w0, w, ws, |w|);
    CommitPrefixSafe(g, booted, w0, ws, d, store, blocks, |w| - |w0|);
    assert w[..|w|] == w;
    forall k | |w0| <= k <= |w|
      ensures StandsFor(g, Apply(booted, w[..k]), if k - |w0| > |blocks| then store else d)
    {
      PrefixSlice(w0, w, ws, k);
      CommitPrefixSafe(g, booted, w0, ws, d, store, blocks, k - |w0|);
    }
  }

  lemma CommitDone(g: Geometry, booted: Disk, w0: seq<Write>, d: Disk, store: Disk, blocks: seq<int>, ws: seq<Write>)
    requires Committing(g, booted, w0, d, store, blocks, ws)
    ensures |booted| == |store| == g.size && InRange(booted, w0 + ws)
    ensures SameHome(g, Apply(booted, w0 + ws), store)
  {
    CommitRunsToEnd(g, d, blocks, CopiesOf(store, blocks));
    assert ws[..2 * |blocks| + 2] == ws;
    ApplyConcat(booted, w0, ws);
  }

  lemma InstallShape(g: Geometry, store: Disk, blocks: seq<int>)
    requires g.Valid() && |store| == g.size && Loggable(g, blocks)
    ensures |LoggedCopies(g, store, |blocks|)| == |blocks|
    ensures var hw := HomeWrites(blocks, LoggedCopies(g, store, |blocks|));
            |hw| == |blocks| && forall i :: 0 <= i < |blocks| ==> hw[i] == Write(blocks[i], store[g.start + 1 + i])
  {
  }

  lemma TailWithout(s: seq<int>, t: nat)
    requires Distinct(s) && t < |s|
    ensures |s[t..]| <= |s| && s[t] in s[t..] && forall x :: x in s[t + 1..] <==> x in s[t..] && x != s[t]
  {
    assert s[t..] == [s[t]] + s[t + 1..];
  }

  lemma LoggableExtends(g: Geometry, blocks: seq<int>, b: int)
    requires Loggable(g, blocks) && g.Home(b) && b !in blocks && g.Fits(|blocks| + 1)
    ensures Loggable(g, blocks + [b])
  {
  }

  class Machine {
    const g: Geometry
    var disk: Disk
    var bufs: seq<Buf>        // bcache.buf
    var mru: seq<nat>         // bcache.head, followed through next
    var lh: seq<int>          // log.lh.block[0..n)
    var outstanding: int
    var committing: bool
    var halted: bool          // a panic stopped the machine
    ghost var store: Disk     // what callers see through bread
    var booted: Disk          // the disk when the machine started
    var writes: seq<Write>    // every disk write since then: what a crash cuts short
    ghost var credit: nat     // log blocks reserved by begin_op and not yet used

    /** The invariant while the blocks in `pinned` are DIRTY. */
    ghost predicate Sound(pinned: seq<int>)
      reads this
    {
      && g.Valid() && |disk| == |store| == g.size
      && Listed(mru, |bufs|)
      && Coherent(bufs, disk, store, pinned)
      && |booted| == |disk| && InRange(booted, writes) && disk == Apply(booted, writes)
    }

    /** The state between operations: the DIRTY buffers are exactly the logged blocks and
        the header on disk is empty. */
    ghost predicate Valid()
      reads this
    {
      && Sound(lh) && Loggable(g, lh) && LogEmpty(g, disk) && !halted
      && !committing && 0 <= outstanding
      && |lh| + credit <= LOGSIZE && credit <= outstanding * MAXOPBLOCKS
    }

    // ----- 32xvfs/blk.c ---------------------------------------------------------------

    /** blkrw on a buffer that is not DIRTY: fill it from the disk. */
    method ReadIn(h: nat, ghost pinned: seq<int>)
      requires Sound(pinned) && h < |bufs| && 0 < bufs[h].blockno < g.size && !bufs[h].valid
      modifies `bufs
      ensures Sound(pinned)
      ensures bufs == old(bufs)[h := old(bufs[h]).(data := store[old(bufs[h].blockno)], valid := true)]
    {
      FillKeepsCoherent(bufs, disk, store, pinned, h);
      bufs := bufs[h := bufs[h].(data := disk[bufs[h].blockno], valid := true)];
    }

    /** The caller's edit of a buffer followed by bwrite, hence by blkrw on a DIRTY buffer. */
    method WriteOut(h: nat, data: Block, ghost pinned: seq<int>, ghost pinned': seq<int>)
      requires Sound(pinned) && h < |bufs| && bufs[h].valid
      requires forall x :: x in pinned' <==> x in pinned && x != bufs[h].blockno
      modifies `bufs, `disk, `store, `writes
      ensures Sound(pinned')
      ensures var b := old(bufs[h].blockno);
              && writes == old(writes) + [Write(b, data)]
              && disk == old(disk)[b := data] && store == old(store)[b := data]
      ensures bufs == old(bufs)[h := old(bufs[h]).(data := data, dirty := false)]
    {
      WriteThroughCoherent(bufs, disk, store, pinned, h, data, pinned');
      var b := bufs[h].blockno;
      ApplyOne(booted, writes, Write(b, data));
      bufs := bufs[h := bufs[h].(data := data, dirty := true)];
      store := store[b := data];
      disk := disk[b := bufs[h].data];
      writes := writes + [Write(b, data)];
      bufs := bufs[h := bufs[h].(dirty := false, valid := true)];
      assert bufs == old(bufs)[h := old(bufs[h]).(data := data, dirty := false)];
    }

    // ----- 32xvfs/bio.c ---------------------------------------------------------------

    /** The first scan of bget, from the most recently used buffer. */
    method FindCached(b: nat) returns (h: int)
      requires Listed(mru, |bufs|)
      ensures -1 <= h < |bufs|
      ensures h >= 0 ==> bufs[h].blockno == b
      ensures h < 0 ==> forall i :: 0 <= i < |bufs| ==> bufs[i].blockno != b
    {
      var p := 0;
      while p < |mru|
        invariant 0 <= p <= |mru|
        invariant forall q :: 0 <= q < p ==> bufs[mru[q]].blockno != b
      {
        if bufs[mru[p]].blockno == b { return mru[p]; }
        p := p + 1;
      }
      forall i | 0 <= i < |bufs| ensures bufs[i].blockno != b { assert i in mru; }
      return -1;
    }

    /** The second scan of bget, from the least recently used buffer. */
    method FindIdle() returns (h: int)
      requires Listed(mru, |bufs|)
      ensures -1 <= h < |bufs|
      ensures h >= 0 ==> !bufs[h].Busy()
      ensures h >= 0 ==> exists p :: 0 <= p < |mru| && mru[p] == h && forall q :: p < q < |mru| ==> bufs[mru[q]].Busy()
      ensures h < 0 ==> forall i :: 0 <= i < |bufs| ==> bufs[i].Busy()
    {
      var p := |mru|;
      while p > 0
        invariant 0 <= p <= |mru|
        invariant forall q :: p <= q < |mru| ==> bufs[mru[q]].Busy()
      {
        p := p - 1;
        if !bufs[mru[p]].Busy() { return mru[p]; }
      }
      forall i | 0 <= i < |bufs| ensures bufs[i].Busy() { assert i in mru; }
      return -1;
    }

    /** A DIRTY buffer is never recycled; with no buffer to recycle the machine panics. */
    method Bget(b: nat, ghost pinned: seq<int>) returns (h: nat)
      requires Sound(pinned) && 0 < b < g.size && !halted
      modifies `bufs, `halted
      ensures Sound(pinned)
      ensures halted ==> bufs == old(bufs) && forall i :: 0 <= i < |bufs| ==> bufs[i].Busy() && bufs[i].blockno != b
      ensures !halted ==> h < |bufs| && bufs[h].blockno == b && bufs == Fetched(old(bufs), h, b)
      ensures !halted && old(bufs[h].blockno) != b ==> !old(bufs[h]).Busy()
    {
      var i := FindCached(b);
      if i < 0 {
        i := FindIdle();
        if i < 0 {
          halted := true;
          return 0;
        }
      }
      FetchKeepsCoherent(bufs, disk, store, pinned, i, b);
      h := i;
      bufs := Fetched(bufs, h, b);
    }

    /** Return a referenced buffer holding the stored contents of block b. */
    method Bread(b: nat, ghost pinned: seq<int>) returns (h: nat)
      requires Sound(pinned) && 0 < b < g.size && !halted
      modifies `bufs, `halted
      ensures Sound(pinned)
      ensures halted ==> bufs == old(bufs) && forall i :: 0 <= i < |bufs| ==> bufs[i].Busy() && bufs[i].blockno != b
      ensures !halted ==>
                && h < |bufs| && |bufs| == |old(bufs)|
                && bufs[h].blockno == b && bufs[h].valid && bufs[h].data == store[b]
                && bufs[h].refcnt == 1 + (if old(bufs[h].blockno) == b then old(bufs[h].refcnt) else 0)
                && (old(bufs[h].blockno) != b ==> !old(bufs[h]).Busy())
                && forall i :: 0 <= i < |bufs| && i != h ==> bufs[i] == old(bufs[i])
    {
      h := Bget(b, pinned);
      if !halted && !bufs[h].valid {
        ReadIn(h, pinned);
      }
    }

    method Brelse(h: nat, ghost pinned: seq<int>)
      requires Sound(pinned) && h < |bufs| && bufs[h].refcnt > 0
      modifies `bufs, `mru
      ensures Sound(pinned)
      ensures bufs == old(bufs)[h := old(bufs[h]).(refcnt := old(bufs[h].refcnt) - 1)]
      ensures mru == if old(bufs[h].refcnt) == 1 then MoveToFront(old(mru), h) else old(mru)
    {
      RefcountKeepsCoherent(bufs, disk, store, pinned, h, bufs[h].refcnt - 1);
      MoveToFrontListed(mru, |bufs|, h);
      bufs := bufs[h := bufs[h].(refcnt := bufs[h].refcnt - 1)];
      if bufs[h].refcnt == 0 {
        mru := MoveToFront(mru, h);
      }
    }

    // ----- 32xvfs/log.c ---------------------------------------------------------------

    // Copy one buffer to another, write that one out and release both.
    method CopyOver(src: nat, dst: nat, ghost pinned: seq<int>, ghost pinned': seq<int>)
      requires Sound(pinned) && src < |bufs| && dst < |bufs| && src != dst && bufs[dst].valid
      requires bufs[src].refcnt > 0 && bufs[dst].refcnt > 0
      requires forall x :: x in pinned' <==> x in pinned && x != bufs[dst].blockno
      modifies `bufs, `mru, `disk, `store, `writes
      ensures Sound(pinned') && |bufs| == |old(bufs)|
      ensures var at, data := old(bufs[dst].blockno), old(bufs[src].data);
              && writes == old(writes) + [Write(at, data)]
              && disk == old(disk)[at := data] && store == old(store)[at := data]
      ensures forall i :: 0 <= i < |bufs| ==>
              bufs[i].refcnt == old(bufs)[i].refcnt - (if i == src || i == dst then 1 else 0)
    {
      hide Coherent, Listed, Apply, Distinct;
      WriteOut(dst, bufs[src].data, pinned, pinned');
      Brelse(src, pinned');
      Brelse(dst, pinned');
    }

    /** One round of write_log: copy a pinned block to its place in the log area. */
    method LogOne(tail: nat)
      requires Sound(lh) && Loggable(g, lh) && tail < |lh| && !halted
      modifies `bufs, `mru, `disk, `store, `writes, `halted
      ensures Sound(lh) && |bufs| == |old(bufs)|
      ensures halted ==> writes == old(writes) && store == old(store) && disk == old(disk)
      ensures !halted ==>
                var at, data := g.start + 1 + tail, old(store)[lh[tail]];
                && writes == old(writes) + [Write(at, data)]
                && disk == old(disk)[at := data] && store == old(store)[at := data]
      ensures Idle(old(bufs)) && |lh| < |bufs| ==> !halted && Idle(bufs)
    {
      hide Coherent, Listed, Apply, Distinct;
      var to, from := ReadPair(tail, lh);
      if halted { return; }
      CopyOver(from, to, lh, lh);
    }

    /** write_log: copy every pinned block to the log area. */
    method WriteLog()
      requires Sound(lh) && Loggable(g, lh) && !halted
      modifies `bufs, `mru, `disk, `store, `writes, `halted
      ensures Sound(lh) && |bufs| == |old(bufs)|
      ensures SameHome(g, old(store), store) && disk[g.start] == old(disk[g.start])
      ensures old(writes) <= writes <= old(writes) + LogWrites(g, CopiesOf(old(store), lh))
      ensures !halted ==> writes == old(writes) + LogWrites(g, CopiesOf(old(store), lh))
      ensures !halted ==> forall i :: 0 <= i < |lh| ==> store[g.start + 1 + i] == old(store)[lh[i]]
      ensures Idle(old(bufs)) && |lh| < |bufs| ==> !halted && Idle(bufs)
    {
      hide Coherent, Listed, Apply;
      ghost var lw := LogWrites(g, CopiesOf(store, lh));
      var tail := 0;
      while tail < |lh|
        invariant 0 <= tail <= |lh| && !halted
        invariant Sound(lh) && |bufs| == |old(bufs)|
        invariant SameHome(g, old(store), store) && disk[g.start] == old(disk[g.start])
        invariant writes == old(writes) + lw[..tail]
        invariant forall i :: 0 <= i < tail ==> store[g.start + 1 + i] == old(store)[lh[i]]
        invariant Idle(old(bufs)) && |lh| < |bufs| ==> Idle(bufs)
      {
        assert lw[..tail + 1] == lw[..tail] + [lw[tail]];
        LogOne(tail);
        if halted { return; }
        tail := tail + 1;
      }
      assert lw[..tail] == lw;
    }

    /** write_head: store the in-memory header on disk; the first of these in commit is
        the commit point. */
    method WriteHead(ghost pinned: seq<int>)
      requires Sound(pinned) && !halted && |lh| <= LOGSIZE && g.start !in pinned
      modifies `bufs, `mru, `disk, `store, `writes, `halted
      ensures Sound(pinned) && |bufs| == |old(bufs)|
      ensures halted ==> writes == old(writes) && store == old(store) && disk == old(disk)
      ensures !halted ==>
                && writes == old(writes) + HeadWrite(g, old(store[g.start]), lh)
                && store == old(store)[g.start := SetHeader(old(store[g.start]), lh)]
                && disk == old(disk)[g.start := SetHeader(old(store[g.start]), lh)]
      ensures Idle(old(bufs)) && |pinned| < |bufs| ==> !halted && Idle(bufs)
    {
      hide Coherent, Listed, Apply;
      if Idle(bufs) && |pinned| < |bufs| { RoomToRecycle(bufs, disk, store, pinned); }
      var buf := Bread(g.start, pinned);
      if halted { return; }
      WriteOut(buf, SetHeader(bufs[buf].data, lh), pinned, pinned);
      Brelse(buf, pinned);
    }

    // The two reads at the head of each round of install_trans.
    method ReadPair(tail: nat, ghost pinned: seq<int>) returns (lbuf: nat, dbuf: nat)
      requires Sound(pinned) && Loggable(g, lh) && tail < |lh| && !halted
      modifies `bufs, `halted
      ensures Sound(pinned) && |bufs| == |old(bufs)|
      ensures !halted ==>
                && lbuf < |bufs| && bufs[lbuf].refcnt > 0 && bufs[lbuf].blockno == g.start + 1 + tail
                && bufs[lbuf].valid
                && dbuf < |bufs| && bufs[dbuf].refcnt > 0 && bufs[dbuf].blockno == lh[tail] && bufs[dbuf].valid
                && bufs[lbuf].data == store[g.start + 1 + tail] && bufs[dbuf].data == store[lh[tail]]
                && lbuf != dbuf
      ensures Idle(old(bufs)) && |pinned| < |bufs| && (lh[tail] in pinned || (pinned == [] && 2 <= |bufs|)) ==>
                && !halted && bufs[lbuf].refcnt == 1 && bufs[dbuf].refcnt == 1
                && forall i :: 0 <= i < |bufs| && i != lbuf && i != dbuf ==> bufs[i].refcnt == 0
    {
      hide Coherent, Listed, Apply;
      dbuf := 0;
      if Idle(bufs) && |pinned| < |bufs| { RoomToRecycle(bufs, disk, store, pinned); }
      lbuf := Bread(g.start + tail + 1, pinned);
      if halted { return; }
      if lh[tail] in pinned {
        ghost var k :| 0 <= k < |pinned| && pinned[k] == lh[tail];
        PinnedIsCached(bufs, disk, store, pinned, k);
      } else if pinned == [] && 2 <= |bufs| && Idle(old(bufs)) {
        SecondRoom(bufs, disk, store, lbuf);
      }
      dbuf := Bread(lh[tail], pinned);
    }

    /** One round of install_trans: copy a logged block to its home and unpin it.
        In commit the home buffer is still pinned; in recovery nothing is. */
    method InstallOne(tail: nat, ghost pinned: seq<int>, ghost pinned': seq<int>)
      requires Sound(pinned) && Loggable(g, lh) && tail < |lh| && !halted
      requires forall x :: x in pinned' <==> x in pinned && x != lh[tail]
      modifies `bufs, `mru, `disk, `store, `writes, `halted
      ensures Sound(if halted then pinned else pinned') && |bufs| == |old(bufs)|
      ensures halted ==> writes == old(writes) && store == old(store) && disk == old(disk)
      ensures !halted ==>
                var at, data := lh[tail], old(store)[g.start + 1 + tail];
                && writes == old(writes) + [Write(at, data)]
                && disk == old(disk)[at := data] && store == old(store)[at := data]
      ensures Idle(old(bufs)) && |pinned| < |bufs| && (lh[tail] in pinned || (pinned == [] && 2 <= |bufs|)) ==>
                !halted && Idle(bufs)
    {
      hide Coherent, Listed, Apply, Distinct;
      var lbuf, dbuf := ReadPair(tail, pinned);
      if halted { return; }
      CopyOver(lbuf, dbuf, pinned, pinned');
    }

    /** install_trans in commit: every pinned block reaches its home and loses its pin. */
    method InstallTrans(ghost pinned: bool)
      requires Sound(if pinned then lh else []) && Loggable(g, lh) && !halted
      modifies `bufs, `mru, `disk, `store, `writes, `halted
      ensures exists rest :: Sound(rest)
      ensures !halted ==> Sound([])
      ensures |bufs| == |old(bufs)|
      ensures forall x :: g.InLog(x) ==> store[x] == old(store)[x]
      ensures var hw := HomeWrites(lh, LoggedCopies(g, old(store), |lh|));
              && old(writes) <= writes <= old(writes) + hw
              && (!halted ==> writes == old(writes) + hw)
      ensures Idle(old(bufs)) && (if pinned then |lh| else 1) < |bufs| ==> !halted && Idle(bufs)
    {
      hide Coherent, Listed, Apply, Distinct, HomeWrites, LoggedCopies;
      InstallShape(g, store, lh);
      ghost var hw := HomeWrites(lh, LoggedCopies(g, store, |lh|));
      ghost var store0, writes0, bufs0 := store, writes, bufs;
      assert hw[..0] == [];
      var tail: nat := 0;
      while tail < |lh|
        invariant tail <= |lh| && Installing(pinned, tail, store0, writes0, bufs0, hw)
      {
        InstallNext(pinned, tail, store0, writes0, bufs0, hw);
        if halted { return; }
        tail := tail + 1;
      }
      assert hw[..tail] == hw;
    }

    // The state of install_trans when the first `tail` blocks are installed.
    ghost predicate Installing(pinned: bool, tail: nat, store0: Disk, writes0: seq<Write>, bufs0: seq<Buf>,
                               hw: seq<Write>)
      reads this
    {
      && tail <= |lh| == |hw| && !halted && Loggable(g, lh) && |bufs| == |bufs0| && |store0| == g.size
      && Sound(if pinned then lh[tail..] else [])
      && (forall x :: g.InLog(x) ==> store[x] == store0[x])
      && writes == writes0 + hw[..tail]
      && (forall i :: 0 <= i < |lh| ==> hw[i] == Write(lh[i], store0[g.start + 1 + i]))
      && (Idle(bufs0) && (if pinned then |lh| else 1) < |bufs| ==> Idle(bufs))
    }

    method InstallNext(ghost pinned: bool, tail: nat, ghost store0: Disk, ghost writes0: seq<Write>,
                       ghost bufs0: seq<Buf>, ghost hw: seq<Write>)
      requires Installing(pinned, tail, store0, writes0, bufs0, hw) && tail < |lh|
      modifies `bufs, `mru, `disk, `store, `writes, `halted
      ensures if halted then writes == old(writes) && store == old(store) && Sound(if pinned then lh[tail..] else [])
              else Installing(pinned, tail + 1, store0, writes0, bufs0, hw)
      ensures |bufs| == |bufs0|
      ensures Idle(bufs0) && (if pinned then |lh| else 1) < |bufs| ==> !halted
    {
      hide Coherent, Listed, Apply, Distinct;
      assert hw[..tail + 1] == hw[..tail] + [hw[tail]];
      TailWithout(lh, tail);
      InstallOne(tail, if pinned then lh[tail..] else [], if pinned then lh[tail + 1..] else []);
    }

    // The first half of commit: after it the transaction is committed.
    method PublishLog()
      requires Sound(lh) && Loggable(g, lh) && !halted
      modifies `bufs, `mru, `disk, `store, `writes, `halted
      ensures Sound(lh) && |bufs| == |old(bufs)|
      ensures var ws := LogWrites(g, CopiesOf(old(store), lh)) + HeadWrite(g, old(disk[g.start]), lh);
              && old(writes) <= writes <= old(writes) + ws
              && (!halted ==> writes == old(writes) + ws)
      ensures !halted ==> LoggedCopies(g, store, |lh|) == CopiesOf(old(store), lh)
      ensures !halted ==> store[g.start] == SetHeader(old(disk[g.start]), lh)
      ensures Idle(old(bufs)) && |lh| < |bufs| ==> !halted && Idle(bufs)
    {
      hide Coherent, Listed, Apply, Distinct;
      WriteLog();
      HeaderInStore(lh);
      if halted { return; }
      WriteHead(lh);
    }

    // The second half of commit, which is also all of recovery after read_head.
    method EraseLog(ghost pinned: bool)
      requires Sound(if pinned then lh else []) && Loggable(g, lh) && !halted
      modifies `bufs, `mru, `disk, `store, `writes, `halted, `lh
      ensures exists rest :: Sound(rest)
      ensures !halted ==> Sound([]) && lh == [] && LogEmpty(g, disk)
      ensures var ws := HomeWrites(old(lh), LoggedCopies(g, old(store), |old(lh)|))
              + HeadWrite(g, old(store[g.start]), []);
              && old(writes) <= writes <= old(writes) + ws
              && (!halted ==> writes == old(writes) + ws)
      ensures |bufs| == |old(bufs)|
      ensures Idle(old(bufs)) && (if pinned then |old(lh)| else 1) < |bufs| ==> !halted && Idle(bufs)
    {
      hide Coherent, Listed, Apply, Distinct;
      InstallTrans(pinned);
      if halted { return; }
      assert g.InLog(g.start);
      lh := [];
      WriteHead([]);
    }

    /** commit: log copies, header, home blocks, empty header. */
    method Commit()
      requires Sound(lh) && Loggable(g, lh) && !halted && LogEmpty(g, disk)
      modifies `bufs, `mru, `disk, `store, `writes, `halted, `lh
      ensures exists rest :: Sound(rest)
      ensures !halted ==> Sound([]) && lh == [] && LogEmpty(g, disk)
      ensures var ws := CommitWrites(g, old(disk[g.start]), old(lh), CopiesOf(old(store), old(lh)));
              && old(writes) <= writes <= old(writes) + ws
              && (!halted && old(lh) != [] ==> writes == old(writes) + ws)
      ensures old(lh) == [] ==> writes == old(writes) && store == old(store) && disk == old(disk)
      ensures |bufs| == |old(bufs)|
      ensures Idle(old(bufs)) && |old(lh)| < |bufs| ==> !halted && Idle(bufs)
    {
      hide Coherent, Listed, Apply, Distinct, LogWrites, HomeWrites, HeadWrite;
      if |lh| > 0 {
        PublishLog();
        if halted { return; }
        EraseLog(true);
      }
    }

    lemma HeaderInStore(pinned: seq<int>)
      requires Sound(pinned) && Loggable(g, pinned)
      ensures g.start !in pinned && store[g.start] == disk[g.start]
    {
    }

    /** One test of begin_op's loop: admit the operation if the log can still take
        MAXOPBLOCKS blocks of every operation in progress. */
    method BeginOp() returns (admitted: bool)
      requires Valid()
      modifies `outstanding, `credit
      ensures Valid()
      ensures admitted <==> |lh| + (old(outstanding) + 1) * MAXOPBLOCKS <= LOGSIZE
      ensures outstanding == old(outstanding) + (if admitted then 1 else 0)
      ensures credit == old(credit) + (if admitted then MAXOPBLOCKS else 0)
    {
      admitted := |lh| + (outstanding + 1) * MAXOPBLOCKS <= LOGSIZE;
      if admitted {
        outstanding := outstanding + 1;
        credit := credit + MAXOPBLOCKS;
      }
    }

    // The absorption scan of log_write.
    method FindLogged(b: int) returns (i: nat)
      ensures i <= |lh| && (i < |lh| <==> b in lh) && (i < |lh| ==> lh[i] == b)
    {
      i := 0;
      while i < |lh| && lh[i] != b
        invariant 0 <= i <= |lh| && forall j :: 0 <= j < i ==> lh[j] != b
      {
        i := i + 1;
      }
    }

    /** The caller's edit of a referenced buffer and log_write on it.  The block becomes
        part of the transaction and nothing reaches the disk. */
    method LogWrite(h: nat, data: Block)
      requires Valid() && h < |bufs| && bufs[h].valid && bufs[h].refcnt > 0 && g.Home(bufs[h].blockno)
      modifies `bufs, `store, `lh, `halted, `credit
      ensures halted <==> |old(lh)| >= LOGSIZE || |old(lh)| >= g.nlog - 1 || outstanding < 1
      ensures !halted ==> Valid()
      ensures !halted ==> var b := old(bufs[h].blockno);
                && store == old(store)[b := data]
                && lh == (if b in old(lh) then old(lh) else old(lh) + [b])
                && bufs == old(bufs)[h := old(bufs[h]).(data := data, dirty := true)]
      ensures old(credit) > 0 && g.nlog > LOGSIZE ==> !halted
      ensures credit == if lh == old(lh) || old(credit) == 0 then old(credit) else old(credit) - 1
    {
      hide Listed, Apply, Coherent, Distinct;
      if |lh| >= LOGSIZE || |lh| >= g.nlog - 1 || outstanding < 1 {
        halted := true;
        return;
      }
      var b := bufs[h].blockno;
      var i := FindLogged(b);
      PinKeepsCoherent(bufs, disk, store, lh, h, data, if b in lh then lh else lh + [b]);
      if i == |lh| {
        LoggableExtends(g, lh, b);
        lh := lh + [b];
        credit := if credit > 0 then credit - 1 else 0;
      }
      bufs := bufs[h := bufs[h].(data := data, dirty := true)];
      store := store[b := data];
    }

    // The commit that ends the last operation in progress.
    method CommitAll()
      requires Sound(lh) && Loggable(g, lh) && !halted && LogEmpty(g, disk)
      modifies `bufs, `mru, `disk, `store, `writes, `halted, `lh
      ensures !halted ==> Sound([]) && lh == [] && LogEmpty(g, disk)
      ensures !halted ==> SameHome(g, store, old(store))
      ensures InRange(booted, writes) && |booted| == g.size && old(writes) <= writes
      ensures CrashSafe(g, booted, writes, |old(writes)|, |old(lh)|, old(disk), old(store))
      ensures |bufs| == |old(bufs)|
      ensures Idle(old(bufs)) && |old(lh)| < |bufs| ==> !halted && Idle(bufs)
    {
      CleanIsStored(lh);
      hide Coherent, Listed, Apply, Loggable, CommitWrites, CrashSafe, CopiesOf;
      ghost var ws := CommitWrites(g, disk[g.start], lh, CopiesOf(store, lh));
      assert Committing(g, booted, writes, disk, store, lh, ws);
      Commit();
      CommitCrashSafe(g, booted, old(writes), writes, old(disk), old(store), old(lh), ws);
      if !halted && old(lh) != [] {
        NothingPinned();
        CommitDone(g, booted, old(writes), old(disk), old(store), old(lh), ws);
      }
    }

    lemma CleanIsStored(pinned: seq<int>)
      requires Sound(pinned)
      ensures forall x :: g.Home(x) && x !in pinned ==> disk[x] == store[x]
    {
    }

    lemma NothingPinned()
      requires Sound([])
      ensures disk == store
      ensures forall i :: 0 <= i < |bufs| ==> !bufs[i].dirty
    {
    }

    /** end_op: the last operation in progress commits.  A crash, or a panic, at any write
        leaves a disk that stands for the state before the transaction until the header is
        written, and from then on for everything the operations stored. */
    method EndOp(ghost unused: nat)
      requires Valid() && 1 <= outstanding
      requires unused <= credit && credit - unused <= (outstanding - 1) * MAXOPBLOCKS
      modifies `bufs, `mru, `disk, `store, `writes, `halted, `lh, `outstanding, `committing, `credit
      ensures !halted ==> Valid() && outstanding == old(outstanding) - 1 && credit == old(credit) - unused
      ensures old(outstanding) > 1 ==>
                && !halted && writes == old(writes) && store == old(store) && disk == old(disk)
                && lh == old(lh) && bufs == old(bufs)
      ensures InRange(booted, writes) && |booted| == g.size && old(writes) <= writes
      ensures CrashSafe(g, booted, writes, |old(writes)|, |old(lh)|, old(disk), old(store))
              || old(outstanding) > 1
      ensures !halted && old(outstanding) == 1 ==>
                && lh == [] && SameHome(g, store, old(store)) && disk == store
                && forall i :: 0 <= i < |bufs| ==> !bufs[i].dirty
      ensures |bufs| == |old(bufs)|
      ensures Idle(old(bufs)) && |old(lh)| < |bufs| ==> !halted && Idle(bufs)
    {
      hide Coherent, Listed, Apply, CrashSafe, SameHome;
      outstanding := outstanding - 1;
      credit := credit - unused;
      if outstanding == 0 {
        committing := true;
        CommitAll();
        if halted { return; }
        NothingPinned();
        committing := false;
      }
    }

    // ----- booting --------------------------------------------------------------------

    /** binit on a machine whose disk is d: empty cache, nothing logged. */
    constructor (g: Geometry, d: Disk, nbuf: nat)
      requires g.Valid() && |d| == g.size
      ensures this.g == g && disk == d && booted == d && writes == [] && !halted
      ensures Sound([]) && Idle(bufs) && |bufs| == nbuf
      ensures outstanding == 0 && credit == 0 && !committing && lh == []
    {
      var mru0: seq<nat> := seq(nbuf, i requires 0 <= i < nbuf => nbuf - 1 - i);
      this.g := g;
      disk, store, booted, writes := d, d, d, [];
      bufs := seq(nbuf, i => Buf(0, false, false, 0, seq(BLOCK_WORDS, j => 0)));
      mru := mru0;
      lh, outstanding, committing, halted, credit := [], 0, false, false, 0;
      forall i | 0 <= i < nbuf ensures i in mru0 { assert mru0[nbuf - 1 - i] == i; }
    }

    // The loop of read_head.
    static method CopyHead(head: Block) returns (blocks: seq<int>)
      requires 0 <= HeaderCount(head) <= LOGSIZE
      ensures blocks == HeaderEntries(head, HeaderCount(head))
    {
      blocks := [];
      while |blocks| < HeaderCount(head)
        invariant |blocks| <= HeaderCount(head) && blocks == HeaderEntries(head, |blocks|)
      {
        blocks := blocks + [head[1 + |blocks|]];
      }
    }

    /** read_head: the header on disk becomes the header in memory. */
    method ReadHead()
      requires Sound([]) && HeaderOk(g, disk) && !halted
      modifies `bufs, `mru, `halted, `lh
      ensures Sound([]) && |bufs| == |old(bufs)|
      ensures !halted ==> lh == Entries(g, disk)
      ensures Idle(old(bufs)) && 1 <= |bufs| ==> !halted && Idle(bufs)
    {
      NothingPinned();
      hide Coherent, Listed, Apply, Distinct;
      if Idle(bufs) && 1 <= |bufs| { RoomToRecycle(bufs, disk, store, []); }
      var buf := Bread(g.start, []);
      if halted { return; }
      lh := CopyHead(bufs[buf].data);
      Brelse(buf, []);
    }

    /** recover_from_log: redo a committed transaction and erase it.  The writes it gets
        to the disk before stopping are a prefix of those of a full recovery. */
    method RecoverFromLog()
      requires Sound([]) && HeaderOk(g, disk) && !halted
      modifies `bufs, `mru, `disk, `store, `writes, `halted, `lh
      ensures old(writes) <= writes <= old(writes) + RecoveryWrites(g, old(disk))
      ensures !halted ==> writes == old(writes) + RecoveryWrites(g, old(disk))
      ensures !halted ==> Sound([]) && lh == [] && LogEmpty(g, disk)
      ensures |bufs| == |old(bufs)|
      ensures Idle(old(bufs)) && 2 <= |bufs| ==> !halted && Idle(bufs)
    {
      NothingPinned();
      hide Coherent, Listed, Apply, Distinct, HomeWrites, HeadWrite;
      ReadHead();
      if halted { return; }
      NothingPinned();
      EraseLog(false);
    }

    /** initlog on a freshly booted machine: every home block of the disk now holds what
        the disk stood for. */
    method InitLog()
      requires Sound([]) && HeaderOk(g, disk) && !halted
      requires outstanding == 0 && credit == 0 && !committing
      modifies `bufs, `mru, `disk, `store, `writes, `halted, `lh
      ensures old(writes) <= writes <= old(writes) + RecoveryWrites(g, old(disk))
      ensures !halted ==> writes == old(writes) + RecoveryWrites(g, old(disk))
      ensures !halted ==> Valid() && lh == [] && disk == store
      ensures !halted ==> forall b :: g.Home(b) ==> disk[b] == Meaning(g, old(disk), b)
      ensures |bufs| == |old(bufs)|
      ensures Idle(old(bufs)) && 2 <= |bufs| ==> !halted && Idle(bufs)
    {
      hide Coherent, Listed, Apply, RecoveryWrites, HeaderOk, Meaning;
      RecoverFromLog();
      if halted { return; }
      NothingPinned();
      RecoveryInstallsMeaning(g, old(disk));
      RecoveryWritesInRange(g, old(disk));
      ApplyConcat(booted, old(writes), RecoveryWrites(g, old(disk)));
    }

    /** The typical use of the log (bread, edit, log_write, brelse) inside a transaction. */
    method Edit(b: nat, data: Block)
      requires Valid() && g.Home(b)
      modifies `bufs, `mru, `store, `lh, `halted, `credit
      ensures !halted ==>
                && Valid() && store == old(store)[b := data] && |bufs| == |old(bufs)|
                && lh == (if b in old(lh) then old(lh) else old(lh) + [b])
                && credit == (if b in old(lh) || old(credit) == 0 then old(credit) else old(credit) - 1)
      ensures Idle(old(bufs)) && |old(lh)| < |old(bufs)| ==>
                && (halted <==> |old(lh)| >= LOGSIZE || |old(lh)| >= g.nlog - 1 || outstanding < 1)
                && (!halted ==> Idle(bufs))
    {
      hide Coherent, Listed, Apply, Distinct;
      if Idle(bufs) && |lh| < |bufs| { RoomToRecycle(bufs, disk, store, lh); }
      var h := Bread(b, lh);
      if halted { return; }
      LogWrite(h, data);
      if halted { return; }
      Brelse(h, lh);
    }

    /** One file-system call: begin_op, any number of edits of blocks that fit the log, end_op.
        It never panics, its edits reach the disk together, and a crash at any of its writes leaves
        a disk that stands for all of them or for none. */
    method Transact(edits: seq<Write>)
      requires Valid() && outstanding == 0 && lh == [] && Idle(bufs)
      requires FitsLog(g, edits) && |Touched(edits)| < |bufs|
      modifies this
      ensures Valid() && outstanding == 0 && lh == [] && Idle(bufs) && |bufs| == |old(bufs)|
      ensures booted == old(booted) && InRange(old(disk), edits) && InRange(booted, writes) && old(writes) <= writes
      ensures SameHome(g, disk, Apply(old(disk), edits))
      ensures exists n: nat ::
                && n <= |Touched(edits)|
                && CrashSafe(g, booted, writes, |old(writes)|, n, old(disk), Apply(old(disk), edits))
    {
      hide Coherent, Listed, Apply, CrashSafe, SameHome, Touched, FitsLog, Distinct;
      NothingPinned();
      var admitted := BeginOp();
      var i := 0;
      ghost var d := disk;
      EditsInRange(g, d, edits);
      assert edits[..0] == [] && Apply(d, []) == d by { ApplyNothing(d); }
      while i < |edits|
        invariant 0 <= i <= |edits| && Valid() && Idle(bufs) && |bufs| == |old(bufs)| && outstanding == 1
        invariant disk == d && booted == old(booted) && writes == old(writes)
        invariant store == Apply(d, edits[..i])
        invariant forall t :: 0 <= t < |lh| ==> lh[t] in Touched(edits)
      {
        assert edits[..i + 1] == edits[..i] + [edits[i]];
        ApplyOne(d, edits[..i], edits[i]);
        LogHasRoom(g, edits, lh);
        EditTouches(g, edits, i);
        Edit(edits[i].at, edits[i].data);
        i := i + 1;
      }
      assert edits[..i] == edits;
      LogHasRoom(g, edits, lh);
      EndOp(credit);
      assert SameHome(g, disk, Apply(d, edits));
    }
  }

  lemma EditsInRange(g: Geometry, d: Disk, edits: seq<Write>)
    requires FitsLog(g, edits) && |d| == g.size
    ensures InRange(d, edits)
  {
  }

  /** What overlapping operations could do to a log of LOGSIZE blocks: ten of them are admitted,
      each for MAXOPBLOCKS blocks, and log_write panics with one block of that credit unused. */
  method OverCommit(m: Machine, blocks: seq<nat>) returns (ghost spare: nat)
    requires m.Valid() && m.outstanding == 0 && m.credit == 0 && m.lh == [] && Idle(m.bufs) && |m.bufs| > LOGSIZE
    requires m.g.nlog == LOGSIZE
    requires |blocks| == LOGSIZE && Distinct(blocks) && forall i :: 0 <= i < |blocks| ==> m.g.Home(blocks[i])
    modifies m
    ensures m.halted && spare == 1
  {
    hide Coherent, Listed, Apply, Loggable, Machine.Sound;
    var ops := 0;
    while ops < 10
      invariant 0 <= ops <= 10 && m.Valid() && Idle(m.bufs) && |m.bufs| > LOGSIZE && m.lh == []
      invariant m.outstanding == ops && m.credit == ops * MAXOPBLOCKS
    {
      var admitted := m.BeginOp();
      ops := ops + 1;
    }
    var i := 0;
    while i < LOGSIZE - 1
      invariant 0 <= i <= LOGSIZE - 1 && m.Valid() && Idle(m.bufs) && |m.bufs| > LOGSIZE && m.outstanding == 10
      invariant |m.lh| == i && m.credit == LOGSIZE - i && forall t :: 0 <= t < i ==> m.lh[t] == blocks[t]
    {
      m.Edit(blocks[i], seq(BLOCK_WORDS, _ => 0));
      i := i + 1;
    }
    spare := m.credit;
    m.Edit(blocks[i], seq(BLOCK_WORDS, _ => 0));
  }

  /** Power-up on any disk whose header is well formed, in particular on the disk a crash
      left behind: recovery completes and the home blocks are what the disk stood for. */
  method Boot(g: Geometry, d: Disk, nbuf: nat) returns (m: Machine)
    requires HeaderOk(g, d) && 2 <= nbuf
    ensures fresh(m) && m.g == g && m.Valid() && m.lh == [] && Idle(m.bufs) && |m.bufs| == nbuf
    ensures m.booted == d && m.writes == RecoveryWrites(g, d) && m.disk == m.store && m.outstanding == 0
    ensures forall b :: g.Home(b) ==> m.disk[b] == Meaning(g, d, b)
  {
    hide Coherent, Listed, Apply, RecoveryWrites;
    m := new Machine(g, d, nbuf);
    m.InitLog();
  }
}
