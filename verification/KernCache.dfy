/** The kernel's buffer cache and log (kern/bio.c, kern/log.c, blkrw of kern/usbblk.c).  Here
    bwrite only marks a buffer DIRTY, and bget may evict a DIRTY buffer by writing it out: the
    log gives no crash atomicity, but the cache agrees with a flat block store. */
module KernCache {
  import opened Params
  import opened DiskLog
  import opened CacheModel

  /** The cache and the disk together hold `store`: a valid buffer has the stored contents,
      a DIRTY buffer is valid, and a block without a DIRTY buffer is up to date on disk. */
  ghost predicate Agrees(bufs: seq<Buf>, disk: Disk, store: Disk) {
    && |store| == |disk| && UniqueBlocks(bufs)
    && (forall i :: 0 <= i < |bufs| && bufs[i].valid ==>
          0 < bufs[i].blockno < |disk| && bufs[i].data == store[bufs[i].blockno])
    && (forall i :: 0 <= i < |bufs| && bufs[i].dirty ==> bufs[i].valid)
    && (forall b :: 0 <= b < |disk| && disk[b] != store[b] ==> HoldsDirty(bufs, b))
  }

  /** The logical content of a block: its valid buffer if there is one, else the disk. */
  lemma LogicalContent(bufs: seq<Buf>, disk: Disk, store: Disk, b: nat)
    requires Agrees(bufs, disk, store) && b < |disk|
    ensures forall i :: 0 <= i < |bufs| && bufs[i].valid && bufs[i].blockno == b ==> bufs[i].data == store[b]
    ensures (forall i :: 0 <= i < |bufs| && bufs[i].valid ==> bufs[i].blockno != b) ==> disk[b] == store[b]
  {
    if disk[b] != store[b] {
      assert HoldsDirty(bufs, b);
    }
  }

  lemma RefAgrees(bufs: seq<Buf>, disk: Disk, store: Disk, h: nat, n: nat)
    requires Agrees(bufs, disk, store) && h < |bufs|
    ensures Agrees(bufs[h := bufs[h].(refcnt := n)], disk, store)
  {
    forall b | 0 <= b < |disk| && disk[b] != store[b] ensures HoldsDirty(bufs[h := bufs[h].(refcnt := n)], b) {
      DirtySurvives(bufs, bufs[h := bufs[h].(refcnt := n)], h, b);
    }
  }

  // A clean buffer can be given to a block that is not cached.
  lemma RecycleAgrees(bufs: seq<Buf>, disk: Disk, store: Disk, h: nat, b: nat)
    requires Agrees(bufs, disk, store) && h < |bufs| && !bufs[h].dirty && 0 < b
    requires forall i :: 0 <= i < |bufs| ==> bufs[i].blockno != b
    ensures Agrees(bufs[h := Buf(b, false, false, 1, bufs[h].data)], disk, store)
  {
    var bufs' := bufs[h := Buf(b, false, false, 1, bufs[h].data)];
    forall x | 0 <= x < |disk| && disk[x] != store[x] ensures HoldsDirty(bufs', x) {
      DirtySurvives(bufs, bufs', h, x);
    }
  }

  // Writing a DIRTY buffer out changes the disk but not what is stored.
  lemma WriteOutAgrees(bufs: seq<Buf>, disk: Disk, store: Disk, h: nat)
    requires Agrees(bufs, disk, store) && h < |bufs| && bufs[h].dirty
    ensures bufs[h].blockno < |disk|
    ensures Agrees(bufs[h := bufs[h].(dirty := false, valid := true)], disk[bufs[h].blockno := bufs[h].data], store)
  {
    var bufs' := bufs[h := bufs[h].(dirty := false, valid := true)];
    var disk' := disk[bufs[h].blockno := bufs[h].data];
    forall x | 0 <= x < |disk'| && disk'[x] != store[x] ensures HoldsDirty(bufs', x) {
      DirtySurvives(bufs, bufs', h, x);
    }
  }

  lemma ReadInAgrees(bufs: seq<Buf>, disk: Disk, store: Disk, h: nat)
    requires Agrees(bufs, disk, store) && h < |bufs| && !bufs[h].valid && 0 < bufs[h].blockno < |disk|
    ensures disk[bufs[h].blockno] == store[bufs[h].blockno]
    ensures Agrees(bufs[h := bufs[h].(data := disk[bufs[h].blockno], valid := true)], disk, store)
  {
    var b := bufs[h].blockno;
    var bufs' := bufs[h := bufs[h].(data := disk[b], valid := true)];
    forall x | 0 <= x < |disk| && disk[x] != store[x] ensures HoldsDirty(bufs', x) {
      DirtySurvives(bufs, bufs', h, x);
    }
  }

  // A caller's edit followed by bwrite or log_write.
  lemma EditAgrees(bufs: seq<Buf>, disk: Disk, store: Disk, h: nat, data: Block)
    requires Agrees(bufs, disk, store) && h < |bufs| && bufs[h].valid
    ensures Agrees(bufs[h := bufs[h].(data := data, dirty := true)], disk, store[bufs[h].blockno := data])
  {
    var b := bufs[h].blockno;
    var bufs', store' := bufs[h := bufs[h].(data := data, dirty := true)], store[b := data];
    forall x | 0 <= x < |disk| && disk[x] != store'[x] ensures HoldsDirty(bufs', x) {
      if x == b { assert bufs'[h].dirty && bufs'[h].blockno == x; } else { DirtySurvives(bufs, bufs', h, x); }
    }
  }

  class Kernel {
    const g: Geometry
    var disk: Disk
    var bufs: seq<Buf>
    var mru: seq<nat>
    var lh: seq<int>
    var outstanding: int
    var halted: bool
    ghost var store: Disk

    ghost predicate Valid()
      reads this
    {
      && g.Valid() && |disk| == |store| == g.size
      && Listed(mru, |bufs|) && Agrees(bufs, disk, store) && Loggable(g, lh)
    }

    /** binit: every buffer is empty, clean and numbered 0. */
    constructor (g: Geometry, d: Disk, nbuf: nat)
      requires g.Valid() && |d| == g.size
      ensures Valid() && this.g == g && disk == d && store == d && lh == [] && outstanding == 0 && !halted
      ensures Idle(bufs) && |bufs| == nbuf
    {
      var mru0: seq<nat> := seq(nbuf, i requires 0 <= i < nbuf => nbuf - 1 - i);
      this.g := g;
      disk, store, mru := d, d, mru0;
      bufs := seq(nbuf, i => Buf(0, false, false, 0, seq(BLOCK_WORDS, j => 0)));
      lh, outstanding, halted := [], 0, false;
      forall i | 0 <= i < nbuf ensures i in mru0 { assert mru0[nbuf - 1 - i] == i; }
    }

    /** blkrw: the panic for a buffer that needs neither reading nor writing is unreachable,
        for every caller passes one that is DIRTY or not VALID. */
    method Blkrw(h: nat)
      requires Valid() && h < |bufs| && 0 < bufs[h].blockno < g.size
      requires bufs[h].dirty || !bufs[h].valid
      modifies `bufs, `disk
      ensures Valid() && bufs[h].valid && !bufs[h].dirty && bufs[h].data == store[bufs[h].blockno]
      ensures bufs[h].blockno == old(bufs[h].blockno) && bufs[h].refcnt == old(bufs[h].refcnt) && |bufs| == |old(bufs)|
      ensures forall i :: 0 <= i < |bufs| && i != h ==> bufs[i] == old(bufs[i])
      ensures !old(bufs[h].dirty) ==> disk == old(disk)
    {
      hide Listed, Distinct;
      if bufs[h].dirty {
        WriteOutAgrees(bufs, disk, store, h);
        disk := disk[bufs[h].blockno := bufs[h].data];
        bufs := bufs[h := bufs[h].(dirty := false, valid := true)];
      } else {
        ReadInAgrees(bufs, disk, store, h);
        bufs := bufs[h := bufs[h].(data := disk[bufs[h].blockno], valid := true)];
      }
    }

    // The first scan of bget.
    method FindCached(b: nat) returns (h: int)
      requires Listed(mru, |bufs|)
      ensures -1 <= h < |bufs|
      ensures h >= 0 ==> bufs[h].blockno == b
      ensures h < 0 ==> forall i :: 0 <= i < |bufs| ==> bufs[i].blockno != b
    {
      var p := 0;
      while p < |mru|
        invariant 0 <= p <= |mru|
        invariant forall q :: 0 <= q < p ==> bufs[mru[q]].blockno != b
      {
        if bufs[mru[p]].blockno == b { return mru[p]; }
        p := p + 1;
      }
      forall i | 0 <= i < |bufs| ensures bufs[i].blockno != b { assert i in mru; }
      return -1;
    }

    // The second and third scans: an unreferenced buffer, a clean one if there is any.
    method FindUnused() returns (h: int)
      requires Listed(mru, |bufs|)
      ensures -1 <= h < |bufs|
      ensures h >= 0 ==> bufs[h].refcnt == 0
      ensures h >= 0 && bufs[h].dirty ==> forall i :: 0 <= i < |bufs| ==> bufs[i].Busy()
      ensures h < 0 ==> forall i :: 0 <= i < |bufs| ==> bufs[i].refcnt > 0
    {
      var p := |mru|;
      while p > 0
        invariant 0 <= p <= |mru|
        invariant forall q :: p <= q < |mru| ==> bufs[mru[q]].Busy()
      {
        p := p - 1;
        if bufs[mru[p]].refcnt == 0 && !bufs[mru[p]].dirty { return mru[p]; }
      }
      forall i | 0 <= i < |bufs| ensures bufs[i].Busy() { assert i in mru; }
      p := |mru|;
      while p > 0
        invariant 0 <= p <= |mru|
        invariant forall q :: p <= q < |mru| ==> bufs[mru[q]].refcnt > 0
      {
        p := p - 1;
        if bufs[mru[p]].refcnt == 0 { return mru[p]; }
      }
      forall i | 0 <= i < |bufs| ensures bufs[i].refcnt > 0 { assert i in mru; }
      return -1;
    }

    /** bget: a cached block is found; otherwise an unreferenced buffer is recycled, after its
        contents have been written out if it is DIRTY.  The store does not change. */
    method Bget(b: nat) returns (h: nat)
      requires Valid() && 0 < b < g.size && !halted
      modifies `bufs, `disk, `halted
      ensures Valid() && |bufs| == |old(bufs)|
      ensures halted <==> forall i :: 0 <= i < |old(bufs)| ==> old(bufs)[i].blockno != b && old(bufs)[i].refcnt > 0
      ensures halted ==> bufs == old(bufs) && disk == old(disk)
      ensures !halted ==>
                && h < |bufs| && bufs[h].blockno == b
                && bufs[h].refcnt == 1 + (if old(bufs[h].blockno) == b then old(bufs[h].refcnt) else 0)
                && (old(bufs[h].blockno) != b ==> old(bufs[h].refcnt) == 0)
                && (old(bufs[h].blockno) == b ==> bufs[h] == Held(old(bufs[h])) && disk == old(disk))
                && forall i :: 0 <= i < |bufs| && i != h ==> bufs[i] == old(bufs[i])
    {
      hide Agrees, Listed, Distinct;
      h := 0;
      var i := FindCached(b);
      if i >= 0 {
        RefAgrees(bufs, disk, store, i, bufs[i].refcnt + 1);
        h := i;
        bufs := bufs[h := Held(bufs[h])];
        return;
      }
      i := FindUnused();
      if i < 0 {
        halted := true;
        return;
      }
      h := i;
      if bufs[h].dirty {
        DirtyBlock(bufs, disk, store, h);
        Blkrw(h);
      }
      RecycleAgrees(bufs, disk, store, h, b);
      bufs := bufs[h := Buf(b, false, false, 1, bufs[h].data)];
    }

    /** bread: a referenced buffer with the stored contents of block b. */
    method Bread(b: nat) returns (h: nat)
      requires Valid() && 0 < b < g.size && !halted
      modifies `bufs, `disk, `halted
      ensures Valid() && |bufs| == |old(bufs)|
      ensures halted <==> forall i :: 0 <= i < |old(bufs)| ==> old(bufs)[i].blockno != b && old(bufs)[i].refcnt > 0
      ensures !halted ==>
                && h < |bufs| && bufs[h].blockno == b && bufs[h].valid && bufs[h].data == store[b]
                && bufs[h].refcnt == 1 + (if old(bufs[h].blockno) == b then old(bufs[h].refcnt) else 0)
                && (old(bufs[h].blockno) != b ==> old(bufs[h].refcnt) == 0)
                && forall i :: 0 <= i < |bufs| && i != h ==> bufs[i] == old(bufs[i])
    {
      hide Agrees, Listed, Distinct;
      h := Bget(b);
      if !halted {
        if !bufs[h].valid {
          Blkrw(h);
        } else {
          ValidBlock(bufs, disk, store, h);
        }
      }
    }

    /** A caller's edit of a referenced buffer, followed by bwrite: DIRTY, and that is all. */
    method Bwrite(h: nat, data: Block)
      requires Valid() && h < |bufs| && bufs[h].valid && bufs[h].blockno < g.size
      modifies `bufs, `store
      ensures Valid() && store == old(store)[old(bufs[h].blockno) := data]
      ensures bufs == old(bufs)[h := old(bufs[h]).(data := data, dirty := true)]
    {
      EditAgrees(bufs, disk, store, h, data);
      hide Agrees, Listed, Distinct;
      store := store[bufs[h].blockno := data];
      bufs := bufs[h := bufs[h].(data := data, dirty := true)];
    }

    method Brelse(h: nat)
      requires Valid() && h < |bufs| && bufs[h].refcnt > 0
      modifies `bufs, `mru
      ensures Valid() && bufs == old(bufs)[h := old(bufs[h]).(refcnt := old(bufs[h].refcnt) - 1)]
      ensures mru == if old(bufs[h].refcnt) == 1 then MoveToFront(old(mru), h) else old(mru)
    {
      hide Agrees, Listed, Distinct;
      RefAgrees(bufs, disk, store, h, bufs[h].refcnt - 1);
      MoveToFrontListed(mru, |bufs|, h);
      bufs := bufs[h := bufs[h].(refcnt := bufs[h].refcnt - 1)];
      if bufs[h].refcnt == 0 { mru := MoveToFront(mru, h); }
    }

    /** bflush (sync): afterwards the disk is the store, block for block. */
    method Bflush()
      requires Valid()
      modifies `bufs, `disk
      ensures Valid() && disk == store && |bufs| == |old(bufs)| && (Idle(old(bufs)) ==> Idle(bufs))
      ensures forall i :: 0 <= i < |bufs| ==> !bufs[i].dirty
    {
      hide Agrees, Listed, Distinct;
      var i := 0;
      while i < |bufs|
        invariant 0 <= i <= |bufs| && Valid() && |bufs| == |old(bufs)| && (Idle(old(bufs)) ==> Idle(bufs))
        invariant forall t :: 0 <= t < i ==> !bufs[t].dirty
      {
        if bufs[i].dirty {
          DirtyBlock(bufs, disk, store, i);
          Blkrw(i);
        }
        i := i + 1;
      }
      Flushed(bufs, disk, store);
    }

    // ----- kern/log.c -----------------------------------------------------------------

    // Read log block `tail` and home block lh[tail] together.
    method ReadPair(tail: nat) returns (lbuf: nat, dbuf: nat)
      requires Valid() && tail < |lh| && !halted
      modifies `bufs, `disk, `halted
      ensures Valid() && |bufs| == |old(bufs)|
      ensures !halted ==>
                && lbuf < |bufs| && dbuf < |bufs| && lbuf != dbuf && bufs[lbuf].valid && bufs[dbuf].valid
                && bufs[lbuf].blockno == g.start + 1 + tail && bufs[dbuf].blockno == lh[tail]
                && bufs[lbuf].data == store[g.start + 1 + tail] && bufs[dbuf].data == store[lh[tail]]
                && bufs[lbuf].refcnt > 0 && bufs[dbuf].refcnt > 0
      ensures Idle(old(bufs)) && |bufs| >= 2 ==>
                && !halted && bufs[lbuf].refcnt == 1 && bufs[dbuf].refcnt == 1
                && forall i :: 0 <= i < |bufs| && i != lbuf && i != dbuf ==> bufs[i].refcnt == 0
    {
      hide Agrees, Listed, Distinct;
      dbuf := 0;
      assert Idle(bufs) && |bufs| >= 2 ==> bufs[0].refcnt == 0;
      lbuf := Bread(g.start + tail + 1);
      if halted { return; }
      assert Idle(old(bufs)) && |bufs| >= 2 ==> bufs[if lbuf == 0 then 1 else 0].refcnt == 0;
      dbuf := Bread(lh[tail]);
    }

    method LogOne(tail: nat)
      requires Valid() && !halted && tail < |lh|
      modifies `bufs, `disk, `mru, `store, `halted
      ensures Valid() && |bufs| == |old(bufs)|
      ensures store == if halted then old(store) else old(store)[g.start + 1 + tail := old(store)[lh[tail]]]
      ensures Idle(old(bufs)) && |bufs| >= 2 ==> !halted && Idle(bufs)
    {
      hide Agrees, Listed, Distinct;
      var to, from := ReadPair(tail);
      if halted { return; }
      Bwrite(to, bufs[from].data);
      Brelse(from);
      Brelse(to);
    }

    /** write_log: the logged blocks are copied to the log area, in the cache. */
    method WriteLog()
      requires Valid() && !halted
      modifies `bufs, `disk, `mru, `store, `halted
      ensures Valid() && |bufs| == |old(bufs)|
      ensures forall x :: g.Home(x) ==> store[x] == old(store)[x]
      ensures InRange(old(store), LogWrites(g, CopiesOf(old(store), lh)))
      ensures !halted ==> store == Apply(old(store), LogWrites(g, CopiesOf(old(store), lh)))
      ensures Idle(old(bufs)) && |bufs| >= 2 ==> !halted && Idle(bufs)
    {
      hide Agrees, Listed, Distinct, Apply, LogWrites, CopiesOf;
      ghost var was, lw := store, LogWrites(g, CopiesOf(store, lh));
      var tail: nat := 0;
      LogShape(g, was, lh);
      ApplyNothing(was);
      assert lw[..0] == [];
      while tail < |lh|
        invariant tail <= |lh| && Valid() && !halted && |bufs| == |old(bufs)|
        invariant store == Apply(was, lw[..tail])
        invariant Idle(old(bufs)) && |bufs| >= 2 ==> Idle(bufs)
      {
        LogNext(g, was, lh, tail);
        LogOne(tail);
        if halted {
          LogFrame(g, was, lh, tail);
          return;
        }
        tail := tail + 1;
      }
      LogFrame(g, was, lh, tail);
      assert lw[..tail] == lw;
    }

    method InstallOne(tail: nat)
      requires Valid() && !halted && tail < |lh|
      modifies `bufs, `disk, `mru, `store, `halted
      ensures Valid() && |bufs| == |old(bufs)|
      ensures store == if halted then old(store) else old(store)[lh[tail] := old(store)[g.start + 1 + tail]]
      ensures Idle(old(bufs)) && |bufs| >= 2 ==> !halted && Idle(bufs)
    {
      hide Agrees, Listed, Distinct;
      var lbuf, dbuf := ReadPair(tail);
      if halted { return; }
      Bwrite(dbuf, bufs[lbuf].data);
      Brelse(lbuf);
      Brelse(dbuf);
    }

    /** install_trans: each logged copy goes to its home block, in the cache. */
    method InstallTrans()
      requires Valid() && !halted
      modifies `bufs, `disk, `mru, `store, `halted
      ensures Valid() && |bufs| == |old(bufs)|
      ensures |LoggedCopies(g, old(store), |lh|)| == |lh|
      ensures var hw := HomeWrites(lh, LoggedCopies(g, old(store), |lh|));
              InRange(old(store), hw) && exists k :: 0 <= k <= |hw| && store == Apply(old(store), hw[..k])
      ensures !halted ==> store == Apply(old(store), HomeWrites(lh, LoggedCopies(g, old(store), |lh|)))
      ensures Idle(old(bufs)) && |bufs| >= 2 ==> !halted && Idle(bufs)
    {
      hide Agrees, Listed, Distinct, Apply, HomeWrites, LoggedCopies;
      HomeShape(g, store, lh);
      ghost var was, hw := store, HomeWrites(lh, LoggedCopies(g, store, |lh|));
      var tail: nat := 0;
      ApplyNothing(was);
      assert hw[..0] == [];
      while tail < |lh|
        invariant tail <= |lh| && Valid() && !halted && |bufs| == |old(bufs)|
        invariant store == Apply(was, hw[..tail])
        invariant Idle(old(bufs)) && |bufs| >= 2 ==> Idle(bufs)
      {
        HomeNext(g, was, lh, tail);
        InstallOne(tail);
        if halted { return; }
        tail := tail + 1;
      }
      assert hw[..tail] == hw;
    }

    method WriteHead()
      requires Valid() && !halted
      modifies `bufs, `disk, `mru, `store, `halted
      ensures Valid() && |bufs| == |old(bufs)|
      ensures store == if halted then old(store) else old(store)[g.start := SetHeader(old(store[g.start]), lh)]
      ensures Idle(old(bufs)) && |bufs| >= 2 ==> !halted && Idle(bufs)
    {
      hide Agrees, Listed, Distinct;
      assert Idle(bufs) && |bufs| >= 2 ==> bufs[0].refcnt == 0;
      var buf := Bread(g.start);
      if halted { return; }
      Bwrite(buf, SetHeader(bufs[buf].data, lh));
      Brelse(buf);
    }

    /** commit makes the writes of a commit, in the cache: it is the identity on every block outside
        the log, and leaves an empty header.  With two buffers to spare it cannot run out of them. */
    method Commit()
      requires Valid() && !halted
      modifies `bufs, `disk, `mru, `store, `halted, `lh
      ensures Valid() && |bufs| == |old(bufs)|
      ensures forall x :: g.Home(x) ==> store[x] == old(store)[x]
      ensures !halted ==> lh == []
      ensures old(lh) == [] ==> store == old(store)
      ensures var ws := CommitWrites(g, old(store)[g.start], old(lh), CopiesOf(old(store), old(lh)));
              && InRange(old(store), ws)
              && (!halted && old(lh) != [] ==> store == Apply(old(store), ws) && LogEmpty(g, store))
      ensures Idle(old(bufs)) && |bufs| >= 2 ==> !halted && Idle(bufs)
    {
      hide Agrees, Listed, Apply, LogWrites, HomeWrites, LoggedCopies, CopiesOf, CommitWrites, HeadWrite, Distinct;
      ghost var was, blocks := store, lh;
      CommitInRange(g, was, blocks);
      if |lh| > 0 {
        WriteLog();
        if halted { return; }
        ghost var logged := store;
        WriteHead();
        Published(g, was, blocks, logged);
        if halted { return; }
        ghost var headed := store;
        InstallTrans();
        Installed(g, was, blocks, logged, headed, store);
        if halted { return; }
        NothingLoggable(g);
        lh := [];
        WriteHead();
        if halted { return; }
        CommitComposed(g, was, blocks, logged, headed);
      }
    }

    /** log_write after a caller's edit. */
    method LogWrite(h: nat, data: Block)
      requires Valid() && !halted && h < |bufs| && bufs[h].valid && g.Home(bufs[h].blockno)
      modifies `bufs, `store, `lh, `halted
      ensures Valid()
      ensures halted <==> |old(lh)| >= LOGSIZE || |old(lh)| >= g.nlog - 1 || outstanding < 1
      ensures !halted ==> var b := old(bufs[h].blockno);
                && store == old(store)[b := data] && lh == (if b in old(lh) then old(lh) else old(lh) + [b])
                && bufs == old(bufs)[h := old(bufs[h]).(data := data, dirty := true)]
    {
      hide Agrees, Listed;
      if |lh| >= LOGSIZE || |lh| >= g.nlog - 1 || outstanding < 1 {
        halted := true;
        return;
      }
      var b := bufs[h].blockno;
      var i := 0;
      while i < |lh| && lh[i] != b
        invariant 0 <= i <= |lh| && forall j :: 0 <= j < i ==> lh[j] != b
      {
        i := i + 1;
      }
      if i == |lh| { lh := lh + [b]; }
      Bwrite(h, data);
    }

    /** begin_op: it goes round for ever if the log could not take the operation's blocks. */
    method BeginOp() returns (admitted: bool)
      requires Valid()
      modifies `outstanding
      ensures Valid() && (admitted <==> |lh| + (old(outstanding) + 1) * MAXOPBLOCKS <= LOGSIZE)
      ensures outstanding == old(outstanding) + (if admitted then 1 else 0)
    {
      hide Agrees, Listed, Distinct;
      admitted := |lh| + (outstanding + 1) * MAXOPBLOCKS <= LOGSIZE;
      if admitted { outstanding := outstanding + 1; }
    }

    /** end_op: the last operation in progress commits, and no block outside the log changes. */
    method EndOp()
      requires Valid() && !halted
      modifies `bufs, `disk, `mru, `store, `halted, `lh, `outstanding
      ensures Valid() && |bufs| == |old(bufs)| && outstanding == old(outstanding) - 1
      ensures forall x :: g.Home(x) ==> store[x] == old(store)[x]
      ensures if outstanding == 0 then !halted ==> lh == [] else lh == old(lh) && bufs == old(bufs) && !halted
      ensures Idle(old(bufs)) && |bufs| >= 2 ==> !halted && Idle(bufs)
    {
      hide Agrees, Listed, Distinct;
      outstanding := outstanding - 1;
      if outstanding == 0 { Commit(); }
    }

    // bread, edit, log_write and brelse of one block.
    method Edit(b: nat, data: Block)
      requires Valid() && !halted && g.Home(b) && Idle(bufs) && |bufs| >= 2
      requires |lh| < LOGSIZE && |lh| < g.nlog - 1 && outstanding >= 1
      modifies `bufs, `disk, `mru, `store, `halted, `lh
      ensures Valid() && !halted && Idle(bufs) && |bufs| == |old(bufs)|
      ensures store == old(store)[b := data] && lh == (if b in old(lh) then old(lh) else old(lh) + [b])
    {
      hide Agrees, Listed, Distinct;
      assert bufs[0].refcnt == 0;
      var h := Bread(b);
      LogWrite(h, data);
      Brelse(h);
    }

    /** A file-system call and sync: every edit reaches the store, in order, and then the disk. */
    method TransactAndSync(edits: seq<Write>)
      requires Valid() && !halted && outstanding == 0 && lh == [] && Idle(bufs) && |bufs| >= 2
      requires FitsLog(g, edits)
      modifies this
      ensures Valid() && !halted && outstanding == 0 && lh == [] && Idle(bufs) && |bufs| == |old(bufs)|
      ensures InRange(old(store), edits) && disk == store
      ensures forall x :: g.Home(x) ==> disk[x] == Apply(old(store), edits)[x]
    {
      hide Agrees, Listed, Distinct, Apply, Touched;
      ghost var was := store;
      var admitted := BeginOp();
      var i := 0;
      assert edits[..0] == [] && Apply(was, []) == was by { ApplyNothing(was); }
      while i < |edits|
        invariant 0 <= i <= |edits| && Valid() && !halted && Idle(bufs) && |bufs| == |old(bufs)|
        invariant outstanding == 1 && InRange(was, edits) && store == Apply(was, edits[..i])
        invariant forall t :: 0 <= t < |lh| ==> lh[t] in Touched(edits)
      {
        assert edits[..i + 1] == edits[..i] + [edits[i]];
        ApplyOne(was, edits[..i], edits[i]);
        LogHasRoom(g, edits, lh);
        EditTouches(g, edits, i);
        Edit(edits[i].at, edits[i].data);
        i := i + 1;
      }
      assert edits[..i] == edits;
      EndOp();
      Bflush();
    }
  }

  lemma DirtyBlock(bufs: seq<Buf>, disk: Disk, store: Disk, h: nat)
    requires Agrees(bufs, disk, store) && h < |bufs| && bufs[h].dirty
    ensures 0 < bufs[h].blockno < |disk|
  {
  }

  lemma ValidBlock(bufs: seq<Buf>, disk: Disk, store: Disk, h: nat)
    requires Agrees(bufs, disk, store) && h < |bufs| && bufs[h].valid
    ensures 0 < bufs[h].blockno < |disk| && |store| == |disk| && bufs[h].data == store[bufs[h].blockno]
  {
  }

  lemma Flushed(bufs: seq<Buf>, disk: Disk, store: Disk)
    requires Agrees(bufs, disk, store) && forall i :: 0 <= i < |bufs| ==> !bufs[i].dirty
    ensures disk == store
  {
    forall b | 0 <= b < |disk| ensures disk[b] == store[b] {
      LogicalContent(bufs, disk, store, b);
      assert disk[b] != store[b] ==> HoldsDirty(bufs, b);
    }
  }

  // ----- the writes of a commit, applied to the store -------------------------------

  lemma LogShape(g: Geometry, was: Disk, lh: seq<int>)
    requires g.Valid() && |was| == g.size && Loggable(g, lh)
    ensures var lw := LogWrites(g, CopiesOf(was, lh));
            && |lw| == |lh| && InRange(was, lw)
            && forall i :: 0 <= i < |lh| ==> lw[i] == Write(g.start + 1 + i, was[lh[i]])
  {
  }

  // Log blocks are no home blocks, so the copies are those of the store before.
  lemma LogFrame(g: Geometry, was: Disk, lh: seq<int>, n: nat)
    requires g.Valid() && |was| == g.size && Loggable(g, lh) && n <= |lh|
    ensures var lw := LogWrites(g, CopiesOf(was, lh));
            |lw| == |lh| && InRange(was, lw[..n]) && forall x :: g.Home(x) ==> Apply(was, lw[..n])[x] == was[x]
  {
    LogShape(g, was, lh);
    var lw := LogWrites(g, CopiesOf(was, lh));
    forall x | g.Home(x) ensures Apply(was, lw[..n])[x] == was[x] {
      ApplyFrame(was, lw[..n], x);
    }
  }

  lemma LogNext(g: Geometry, was: Disk, lh: seq<int>, n: nat)
    requires g.Valid() && |was| == g.size && Loggable(g, lh) && n < |lh|
    ensures var lw := LogWrites(g, CopiesOf(was, lh));
            && |lw| == |lh| && InRange(was, lw[..n]) && InRange(was, lw[..n + 1])
            && var s := Apply(was, lw[..n]);
               Apply(was, lw[..n + 1]) == s[g.start + 1 + n := s[lh[n]]]
  {
    LogShape(g, was, lh);
    LogFrame(g, was, lh, n);
    var lw := LogWrites(g, CopiesOf(was, lh));
    assert lw[..n + 1] == lw[..n] + [lw[n]];
    ApplyOne(was, lw[..n], lw[n]);
    assert g.Home(lh[n]);
  }

  lemma HomeShape(g: Geometry, was: Disk, lh: seq<int>)
    requires g.Valid() && |was| == g.size && Loggable(g, lh)
    ensures |LoggedCopies(g, was, |lh|)| == |lh|
    ensures var hw := HomeWrites(lh, LoggedCopies(g, was, |lh|));
            && |hw| == |lh| && InRange(was, hw)
            && forall i :: 0 <= i < |lh| ==> hw[i] == Write(lh[i], was[g.start + 1 + i])
  {
  }

  lemma HomeNext(g: Geometry, was: Disk, lh: seq<int>, n: nat)
    requires g.Valid() && |was| == g.size && Loggable(g, lh) && n < |lh|
    ensures |LoggedCopies(g, was, |lh|)| == |lh|
    ensures var hw := HomeWrites(lh, LoggedCopies(g, was, |lh|));
            && |hw| == |lh| && InRange(was, hw[..n]) && InRange(was, hw[..n + 1])
            && var s := Apply(was, hw[..n]);
               Apply(was, hw[..n + 1]) == s[lh[n] := s[g.start + 1 + n]]
  {
    HomeShape(g, was, lh);
    var hw := HomeWrites(lh, LoggedCopies(g, was, |lh|));
    assert hw[..n + 1] == hw[..n] + [hw[n]];
    ApplyOne(was, hw[..n], hw[n]);
    forall i | 0 <= i < n ensures hw[..n][i].at != g.start + 1 + n {
      assert g.Home(lh[i]);
    }
    ApplyFrame(was, hw[..n], g.start + 1 + n);
  }

  lemma NothingLoggable(g: Geometry)
    requires g.Valid()
    ensures Loggable(g, [])
  {
  }

  lemma CommitInRange(g: Geometry, was: Disk, lh: seq<int>)
    requires g.Valid() && |was| == g.size && Loggable(g, lh)
    ensures InRange(was, CommitWrites(g, was[g.start], lh, CopiesOf(was, lh)))
  {
  }

  lemma {:induction false} SameWrites(d: Disk, ws: seq<Write>)
    requires InRange(d, ws) && forall i :: 0 <= i < |ws| ==> ws[i].data == d[ws[i].at]
    ensures Apply(d, ws) == d
  {
    if ws != [] { SameWrites(d, ws[..|ws| - 1]); }
  }

  // After write_log and write_head: the copies are in the log area, all home blocks as before.
  lemma Published(g: Geometry, was: Disk, blocks: seq<int>, logged: Disk)
    requires g.Valid() && |was| == g.size && Loggable(g, blocks)
    requires InRange(was, LogWrites(g, CopiesOf(was, blocks)))
    requires logged == Apply(was, LogWrites(g, CopiesOf(was, blocks)))
    ensures logged[g.start] == was[g.start]
    ensures var headed := logged[g.start := SetHeader(was[g.start], blocks)];
            && (forall x :: g.Home(x) ==> headed[x] == was[x])
            && LoggedCopies(g, headed, |blocks|) == CopiesOf(was, blocks)
  {
    hide Apply;
    LogShape(g, was, blocks);
    var lw := LogWrites(g, CopiesOf(was, blocks));
    ApplyFrame(was, lw, g.start);
    LogFrame(g, was, blocks, |blocks|);
    assert lw[..|blocks|] == lw;
    forall i | 0 <= i < |blocks| ensures logged[g.start + 1 + i] == was[blocks[i]] {
      ApplyOnce(was, lw, i);
    }
  }

  // install_trans after that changes nothing.
  lemma Installed(g: Geometry, was: Disk, blocks: seq<int>, logged: Disk, headed: Disk, now: Disk)
    requires g.Valid() && |was| == |headed| == g.size && Loggable(g, blocks)
    requires LoggedCopies(g, headed, |blocks|) == CopiesOf(was, blocks) && forall x :: g.Home(x) ==> headed[x] == was[x]
    requires var hw := HomeWrites(blocks, CopiesOf(was, blocks));
             InRange(headed, hw) && exists k :: 0 <= k <= |hw| && now == Apply(headed, hw[..k])
    ensures now == headed
  {
    hide Apply;
    var hw := HomeWrites(blocks, CopiesOf(was, blocks));
    var k :| 0 <= k <= |hw| && now == Apply(headed, hw[..k]);
    forall i | 0 <= i < k ensures hw[..k][i].data == headed[hw[..k][i].at] {
      assert g.Home(blocks[i]);
    }
    SameWrites(headed, hw[..k]);
  }

  lemma CommitComposed(g: Geometry, was: Disk, blocks: seq<int>, logged: Disk, headed: Disk)
    requires g.Valid() && |was| == |logged| == g.size && Loggable(g, blocks)
    requires InRange(was, LogWrites(g, CopiesOf(was, blocks)))
    requires logged == Apply(was, LogWrites(g, CopiesOf(was, blocks)))
    requires logged[g.start] == was[g.start] && headed == logged[g.start := SetHeader(was[g.start], blocks)]
    requires InRange(headed, HomeWrites(blocks, CopiesOf(was, blocks)))
    requires Apply(headed, HomeWrites(blocks, CopiesOf(was, blocks))) == headed
    ensures InRange(was, CommitWrites(g, was[g.start], blocks, CopiesOf(was, blocks)))
    ensures Apply(was, CommitWrites(g, was[g.start], blocks, CopiesOf(was, blocks)))
            == headed[g.start := SetHeader(headed[g.start], [])]
  {
    hide Apply, SetHeader;
    CommitInRange(g, was, blocks);
    var lw, hw := LogWrites(g, CopiesOf(was, blocks)), HomeWrites(blocks, CopiesOf(was, blocks));
    var h1 := Write(g.start, SetHeader(was[g.start], blocks));
    var h2 := Write(g.start, SetHeader(SetHeader(was[g.start], blocks), []));
    assert CommitWrites(g, was[g.start], blocks, CopiesOf(was, blocks)) == (lw + [h1] + hw) + [h2];
    ApplyOne(was, lw, h1);
    ApplyConcat(was, lw + [h1], hw);
    ApplyOne(was, lw + [h1] + hw, h2);
  }
}
