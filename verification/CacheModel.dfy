/** The buffer cache and the log of the 32-bit file system in memory
    (32xvfs/bio.c, 32xvfs/blk.c, 32xvfs/log.c): a write-through cache in which blocks of
    an open transaction are pinned by their DIRTY flag until commit. */
module CacheModel {
  import opened DiskLog

  /** struct buf without its list links; a pointer to a buffer is an index. */
  datatype Buf = Buf(blockno: nat, valid: bool, dirty: bool, refcnt: nat, data: Block) {
    predicate Busy() {
      refcnt > 0 || dirty
    }
  }

  /** `mru` lists every buffer exactly once, most recently used first. */
  predicate Listed(mru: seq<nat>, n: nat) {
    && |mru| == n
    && (forall i :: 0 <= i < n ==> i in mru)
    && (forall p :: 0 <= p < |mru| ==> mru[p] < n)
    && (forall p, q :: 0 <= p < q < |mru| ==> mru[p] != mru[q])
  }

  // Every buffer starts with block number 0, which no caller asks for.
  predicate UniqueBlocks(bufs: seq<Buf>) {
    forall i, j :: 0 <= i < |bufs| && 0 <= j < |bufs| && bufs[i].blockno == bufs[j].blockno && bufs[i].blockno != 0
      ==> i == j
  }

  predicate HoldsDirty(bufs: seq<Buf>, b: int) {
    exists i :: 0 <= i < |bufs| && bufs[i].dirty && bufs[i].blockno == b
  }

  /** The cache agrees with the flat block store `store`: a valid buffer holds the stored
      contents, a DIRTY buffer is valid, the DIRTY buffers are exactly those of the blocks
      in `pinned`, and on every other block the disk itself holds the stored contents. */
  predicate Coherent(bufs: seq<Buf>, disk: Disk, store: Disk, pinned: seq<int>) {
    && |store| == |disk|
    && UniqueBlocks(bufs)
    && (forall i :: 0 <= i < |bufs| && bufs[i].valid ==>
          0 < bufs[i].blockno < |disk| && bufs[i].data == store[bufs[i].blockno])
    && (forall i :: 0 <= i < |bufs| && bufs[i].dirty ==> bufs[i].valid && bufs[i].blockno in pinned)
    && (forall k :: 0 <= k < |pinned| ==> HoldsDirty(bufs, pinned[k]))
    && (forall b :: 0 <= b < |disk| && b !in pinned ==> disk[b] == store[b])
  }

  predicate Idle(bufs: seq<Buf>) {
    forall i :: 0 <= i < |bufs| ==> bufs[i].refcnt == 0
  }

  // ----- list order -----------------------------------------------------------------

  function Without(s: seq<nat>, x: nat): (r: seq<nat>)
    ensures forall y :: y in r <==> y in s && y != x
  {
    if s == [] then [] else (if s[0] == x then [] else [s[0]]) + Without(s[1..], x)
  }

  lemma {:induction false} WithoutDistinct(s: seq<nat>, x: nat)
    requires forall p, q :: 0 <= p < q < |s| ==> s[p] != s[q]
    ensures |Without(s, x)| == |s| - (if x in s then 1 else 0)
    ensures forall p, q :: 0 <= p < q < |Without(s, x)| ==> Without(s, x)[p] != Without(s, x)[q]
  {
    if s != [] {
      var rest := Without(s[1..], x);
      WithoutDistinct(s[1..], x);
      assert forall q :: 0 <= q < |rest| ==> rest[q] in rest;
    }
  }

  function MoveToFront(mru: seq<nat>, h: nat): seq<nat> {
    [h] + Without(mru, h)
  }

  /** h comes first, and the others keep their order: what was before another buffer still is. */
  lemma {:induction false} WithoutOrder(s: seq<nat>, x: nat, p: nat, q: nat)
    requires p < q < |s| && s[p] != x && s[q] != x
    ensures exists i, j :: 0 <= i < j < |Without(s, x)| && Without(s, x)[i] == s[p] && Without(s, x)[j] == s[q]
  {
    var rest := Without(s[1..], x);
    var shift := if s[0] == x then 0 else 1;
    assert Without(s, x) == (if s[0] == x then [] else [s[0]]) + rest;
    if p == 0 {
      assert s[q] in s[1..] by { assert s[1..][q - 1] == s[q]; }
      var j :| 0 <= j < |rest| && rest[j] == s[q];
      assert Without(s, x)[0] == s[p] && Without(s, x)[j + 1] == s[q];
    } else {
      WithoutOrder(s[1..], x, p - 1, q - 1);
      var i, j :| 0 <= i < j < |rest| && rest[i] == s[1..][p - 1] && rest[j] == s[1..][q - 1];
      assert Without(s, x)[i + shift] == s[p] && Without(s, x)[j + shift] == s[q];
    }
  }

  lemma MoveToFrontOrder(mru: seq<nat>, h: nat, p: nat, q: nat)
    requires p < q < |mru| && mru[p] != h && mru[q] != h
    ensures MoveToFront(mru, h)[0] == h
    ensures exists i, j ::
              1 <= i < j < |MoveToFront(mru, h)| && MoveToFront(mru, h)[i] == mru[p] && MoveToFront(mru, h)[j] == mru[q]
  {
    WithoutOrder(mru, h, p, q);
    var r := Without(mru, h);
    var i, j :| 0 <= i < j < |r| && r[i] == mru[p] && r[j] == mru[q];
    assert MoveToFront(mru, h)[i + 1] == mru[p] && MoveToFront(mru, h)[j + 1] == mru[q];
  }

  lemma MoveToFrontListed(mru: seq<nat>, n: nat, h: nat)
    requires Listed(mru, n) && h < n
    ensures Listed(MoveToFront(mru, h), n)
  {
    WithoutDistinct(mru, h);
    var rest := Without(mru, h);
    assert forall q :: 0 <= q < |rest| ==> rest[q] in rest;
  }

  // ----- what each buffer operation does to coherence -------------------------------

  function Held(b: Buf): Buf {
    b.(refcnt := b.refcnt + 1)
  }

  // bget's two results: an extra reference, or a recycled buffer.
  function Fetched(bufs: seq<Buf>, h: nat, b: nat): seq<Buf>
    requires h < |bufs|
  {
    if bufs[h].blockno == b then bufs[h := Held(bufs[h])]
    else bufs[h := Buf(b, false, false, 1, bufs[h].data)]
  }

  lemma DirtySurvives(bufs: seq<Buf>, bufs': seq<Buf>, h: nat, b: int)
    requires |bufs| == |bufs'| && h < |bufs| && HoldsDirty(bufs, b)
    requires forall i :: 0 <= i < |bufs| && i != h ==> bufs'[i] == bufs[i]
    requires bufs[h].dirty && bufs[h].blockno == b ==> bufs'[h].dirty && bufs'[h].blockno == b
    ensures HoldsDirty(bufs', b)
  {
    var i :| 0 <= i < |bufs| && bufs[i].dirty && bufs[i].blockno == b;
    assert bufs'[i].dirty && bufs'[i].blockno == b;
  }

  lemma FetchKeepsCoherent(bufs: seq<Buf>, disk: Disk, store: Disk, pinned: seq<int>, h: nat, b: nat)
    requires Coherent(bufs, disk, store, pinned) && h < |bufs| && 0 < b
    requires bufs[h].blockno != b ==>
               !bufs[h].dirty && forall i :: 0 <= i < |bufs| ==> bufs[i].blockno != b
    ensures Coherent(Fetched(bufs, h, b), disk, store, pinned)
  {
    hide Coherent;
    if bufs[h].blockno == b {
      RefcountKeepsCoherent(bufs, disk, store, pinned, h, bufs[h].refcnt + 1);
    } else {
      RecycleKeepsCoherent(bufs, disk, store, pinned, h, b);
    }
  }

  lemma RecycleKeepsCoherent(bufs: seq<Buf>, disk: Disk, store: Disk, pinned: seq<int>, h: nat, b: nat)
    requires Coherent(bufs, disk, store, pinned) && h < |bufs| && 0 < b && !bufs[h].dirty
    requires forall i :: 0 <= i < |bufs| ==> bufs[i].blockno != b
    ensures Coherent(bufs[h := Buf(b, false, false, 1, bufs[h].data)], disk, store, pinned)
  {
    var bufs' := bufs[h := Buf(b, false, false, 1, bufs[h].data)];
    assert UniqueBlocks(bufs');
    forall k | 0 <= k < |pinned| ensures HoldsDirty(bufs', pinned[k]) {
      DirtySurvives(bufs, bufs', h, pinned[k]);
    }
  }

  lemma FillKeepsCoherent(bufs: seq<Buf>, disk: Disk, store: Disk, pinned: seq<int>, h: nat)
    requires Coherent(bufs, disk, store, pinned) && h < |bufs|
    requires 0 < bufs[h].blockno < |disk| && !bufs[h].valid
    ensures Coherent(bufs[h := bufs[h].(data := disk[bufs[h].blockno], valid := true)], disk, store, pinned)
  {
    var bufs' := bufs[h := bufs[h].(data := disk[bufs[h].blockno], valid := true)];
    forall k | 0 <= k < |pinned| ensures HoldsDirty(bufs', pinned[k]) {
      DirtySurvives(bufs, bufs', h, pinned[k]);
    }
  }

  /** Writing a buffer through stores it on disk and takes its block out of `pinned`. */
  lemma WriteThroughCoherent(bufs: seq<Buf>, disk: Disk, store: Disk, pinned: seq<int>, h: nat, data: Block,
                             pinned': seq<int>)
    requires Coherent(bufs, disk, store, pinned) && h < |bufs| && bufs[h].valid
    requires forall x :: x in pinned' <==> x in pinned && x != bufs[h].blockno
    ensures var b := bufs[h].blockno;
            Coherent(bufs[h := bufs[h].(data := data, dirty := false)], disk[b := data], store[b := data], pinned')
  {
    var bufs' := bufs[h := bufs[h].(data := data, dirty := false)];
    forall k | 0 <= k < |pinned'| ensures HoldsDirty(bufs', pinned'[k]) {
      assert pinned'[k] in pinned';
      var j :| 0 <= j < |pinned| && pinned[j] == pinned'[k];
      DirtySurvives(bufs, bufs', h, pinned[j]);
    }
  }

  /** log_write pins the edited block: the disk does not change. */
  lemma PinKeepsCoherent(bufs: seq<Buf>, disk: Disk, store: Disk, pinned: seq<int>, h: nat, data: Block,
                         pinned': seq<int>)
    requires Coherent(bufs, disk, store, pinned) && h < |bufs| && bufs[h].valid
    requires pinned' == if bufs[h].blockno in pinned then pinned else pinned + [bufs[h].blockno]
    ensures Coherent(bufs[h := bufs[h].(data := data, dirty := true)], disk, store[bufs[h].blockno := data], pinned')
  {
    hide HoldsDirty, UniqueBlocks;
    var b, bufs' := bufs[h].blockno, bufs[h := bufs[h].(data := data, dirty := true)];
    PinnedGrows(pinned, b);
    StillUnique(bufs, h, data);
    forall i | 0 <= i < |bufs'| && bufs'[i].valid
      ensures 0 < bufs'[i].blockno < |disk| && bufs'[i].data == store[b := data][bufs'[i].blockno]
    {
      if i != h { OtherBlock(bufs, h, i); }
    }
    forall k | 0 <= k < |pinned'| ensures HoldsDirty(bufs', pinned'[k]) {
      assert pinned'[k] in pinned';
      PinnedDirty(bufs, pinned, h, data, pinned'[k]);
    }
  }

  lemma StillUnique(bufs: seq<Buf>, h: nat, data: Block)
    requires UniqueBlocks(bufs) && h < |bufs|
    ensures UniqueBlocks(bufs[h := bufs[h].(data := data, dirty := true)])
  {
  }

  lemma OtherBlock(bufs: seq<Buf>, h: nat, i: nat)
    requires UniqueBlocks(bufs) && h < |bufs| && i < |bufs| && i != h && bufs[h].blockno != 0
    ensures bufs[i].blockno != bufs[h].blockno
  {
  }

  lemma PinnedDirty(bufs: seq<Buf>, pinned: seq<int>, h: nat, data: Block, x: int)
    requires h < |bufs| && (forall k :: 0 <= k < |pinned| ==> HoldsDirty(bufs, pinned[k]))
    requires x in pinned || x == bufs[h].blockno
    ensures HoldsDirty(bufs[h := bufs[h].(data := data, dirty := true)], x)
  {
    var bufs' := bufs[h := bufs[h].(data := data, dirty := true)];
    if x == bufs[h].blockno {
      assert bufs'[h].dirty && bufs'[h].blockno == x;
    } else {
      var j :| 0 <= j < |pinned| && pinned[j] == x;
      DirtySurvives(bufs, bufs', h, pinned[j]);
    }
  }

  lemma PinnedGrows(pinned: seq<int>, b: int)
    ensures var pinned' := if b in pinned then pinned else pinned + [b];
            forall x :: x in pinned' <==> x in pinned || x == b
  {
  }

  lemma RefcountKeepsCoherent(bufs: seq<Buf>, disk: Disk, store: Disk, pinned: seq<int>, h: nat, n: nat)
    requires Coherent(bufs, disk, store, pinned) && h < |bufs|
    ensures Coherent(bufs[h := bufs[h].(refcnt := n)], disk, store, pinned)
  {
    var bufs' := bufs[h := bufs[h].(refcnt := n)];
    forall k | 0 <= k < |pinned| ensures HoldsDirty(bufs', pinned[k]) {
      DirtySurvives(bufs, bufs', h, pinned[k]);
    }
  }

  lemma PinnedIsCached(bufs: seq<Buf>, disk: Disk, store: Disk, pinned: seq<int>, k: nat)
    requires Coherent(bufs, disk, store, pinned) && k < |pinned|
    ensures exists i :: 0 <= i < |bufs| && bufs[i].blockno == pinned[k]
  {
    assert HoldsDirty(bufs, pinned[k]);
  }

  // ----- when bget runs out of buffers ----------------------------------------------

  lemma {:induction false} DirtyCount(bufs: seq<Buf>, n: nat, pinned: set<int>)
    requires n <= |bufs| && UniqueBlocks(bufs)
    requires forall i :: 0 <= i < n ==> bufs[i].blockno != 0 && bufs[i].blockno in pinned
    ensures n <= |pinned|
    decreases n
  {
    if n > 0 {
      DirtyCount(bufs, n - 1, pinned - {bufs[n - 1].blockno});
    }
  }

  lemma {:induction false} SetOfSeq(s: seq<int>)
    ensures |set x | x in s| <= |s|
  {
    if s != [] {
      SetOfSeq(s[1..]);
      assert (set x | x in s) == {s[0]} + set x | x in s[1..];
    }
  }

  /** With no buffer referenced, fewer pinned blocks than buffers leave one to recycle. */
  lemma RoomToRecycle(bufs: seq<Buf>, disk: Disk, store: Disk, pinned: seq<int>)
    requires Coherent(bufs, disk, store, pinned) && Idle(bufs) && |pinned| < |bufs|
    ensures exists i :: 0 <= i < |bufs| && !bufs[i].Busy()
  {
    if forall i :: 0 <= i < |bufs| ==> bufs[i].Busy() {
      assert forall i :: 0 <= i < |bufs| ==> bufs[i].dirty;
      DirtyCount(bufs, |bufs|, set x | x in pinned);
      SetOfSeq(pinned);
    }
  }

  lemma SecondRoom(bufs: seq<Buf>, disk: Disk, store: Disk, h: nat)
    requires Coherent(bufs, disk, store, []) && 2 <= |bufs| && h < |bufs|
    requires forall i :: 0 <= i < |bufs| && i != h ==> bufs[i].refcnt == 0
    ensures exists i :: 0 <= i < |bufs| && !bufs[i].Busy()
  {
    var i := if h == 0 then 1 else 0;
    assert !bufs[i].Busy();
  }
}
