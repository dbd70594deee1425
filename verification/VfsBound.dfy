/** What filewrite does in 32xvfs (32xvfs/file.c, 32xvfs/fs.c, 32xvfs/log.c): balloc, bmap (singly
    indirect), writei and log_write, the bytes that they write, and the blocks that they log. */
module VfsBound {
  import opened Params
  import opened BlockAlloc
  import opened VfsFile
  import FT = FsTree
  import FF = FsFile
  import FK = FsKernel

  const CHUNK_BLOCKS: nat := 3      // (MAXOPBLOCKS - 1 - 1 - 2) / 2
  const CHUNK: nat := 1536          // CHUNK_BLOCKS * BSIZE

  // How the sizes written out above and in BlockAlloc and VfsFile are made up.
  lemma Sizes()
    ensures CHUNK_BLOCKS == (MAXOPBLOCKS - 1 - 1 - 2) / 2 && CHUNK == CHUNK_BLOCKS * BSIZE && BPB == 8 * BSIZE
    ensures SPAN == NDIRECT + NINDIRECT && LIMIT == SPAN * BSIZE && MAXSIZE == FT.MAXFILE * BSIZE
  {
  }

  predicate Paid(log: seq<nat>, cover: set<nat>) {
    Distinct(log) && forall i :: 0 <= i < |log| ==> log[i] in cover
  }

  lemma PaidMore(log: seq<nat>, cover: set<nat>, more: set<nat>)
    requires Paid(log, cover) && cover <= more
    ensures Paid(log, more)
  {
  }

  ghost predicate Subset(a: seq<nat>, b: seq<nat>) {
    forall x :: x in a ==> x in b
  }

  /** All that has changed is in the log: the blocks, the bitmap blocks of changed bits, and the
      indirect block if its pointers changed.  Pointers of the inode were filled in only for blocks
      that hold a byte below n. */
  ghost predicate Covered(v0: Vol, v: Vol, size: nat, log: seq<nat>, bmapstart: nat, n: nat) {
    && v0.Shaped(size) && v.Shaped(size) && |v.bits| == |v0.bits|
    && (forall b: nat :: b < size && v.blocks[b] != v0.blocks[b] ==> b in log)
    && (forall b: nat :: b < |v.bits| && v.bits[b] != v0.bits[b] ==> bmapstart + b / BPB in log)
    && (forall t: nat :: t <= NDIRECT && v.addrs[t] != v0.addrs[t] ==> v0.addrs[t] == 0 && t * BSIZE < n)
    && (v.indirect != v0.indirect ==> v.addrs[NDIRECT] != 0 && v.addrs[NDIRECT] in log)
  }

  lemma SubsetSelf(a: seq<nat>)
    ensures Subset(a, a)
  {
  }

  lemma CoveredSelf(v: Vol, size: nat, log: seq<nat>, bmapstart: nat, n: nat)
    requires v.Shaped(size)
    ensures Covered(v, v, size, log, bmapstart, n)
  {
  }

  lemma CoveredTrans(u: Vol, v: Vol, w: Vol, size: nat, log: seq<nat>, log': seq<nat>, bmapstart: nat, n: nat, n': nat)
    requires Covered(u, v, size, log, bmapstart, n) && Covered(v, w, size, log', bmapstart, n')
    requires Subset(log, log') && n <= n'
    ensures Covered(u, w, size, log', bmapstart, n')
  {
  }

  lemma CoveredBlock(v: Vol, size: nat, t: nat, b: nat, log: seq<nat>, bmapstart: nat)
    requires v.Shaped(size) && b < size && t < SPAN && v.Ptr(t) == 0 && b in log && bmapstart + b / BPB in log
    requires t >= NDIRECT ==> v.addrs[NDIRECT] != 0 && v.addrs[NDIRECT] in log
    ensures Covered(v, WithBlock(v, t, b), size, log, bmapstart, t * BSIZE + 1)
  {
  }

  lemma CoveredIndirect(v: Vol, size: nat, t: nat, b: nat, log: seq<nat>, bmapstart: nat)
    requires v.Shaped(size) && 0 < b < size && NDIRECT <= t && v.addrs[NDIRECT] == 0
    requires b in log && bmapstart + b / BPB in log
    ensures Covered(v, WithIndirect(v, b), size, log, bmapstart, t * BSIZE + 1)
  {
  }

  lemma CoveredStored(v: Vol, w: Vol, size: nat, t: nat, o: nat, data: seq<Byte>, log: seq<nat>, bmapstart: nat, n: nat)
    requires Covered(v, w, size, log, bmapstart, n) && t < SPAN && o + |data| <= BSIZE
    requires w.Ptr(t) < size && w.Ptr(t) in log
    ensures Covered(v, Stored(w, t, o, data), size, log, bmapstart, n)
  {
  }

  lemma CoveredMore(v: Vol, w: Vol, size: nat, log: seq<nat>, log': seq<nat>, bmapstart: nat, n: nat, n': nat)
    requires Covered(v, w, size, log, bmapstart, n) && Subset(log, log') && n <= n'
    ensures Covered(v, w, size, log', bmapstart, n')
  {
  }

  /** One inode of the 32-bit file system and the transaction in progress. */
  class Vfs {
    const size: nat           // sb.size
    const bmapstart: nat      // sb.bmapstart
    const inodeBlock: nat     // IBLOCK(ip->inum)
    const nlog: nat           // log.size
    var vol: Vol              // the free map, the inode's pointers and the blocks
    var length: nat           // ip->size
    var log: seq<nat>         // log.lh.block[0..n)
    var tooBig: bool          // panic: too big a transaction
    var outOfBlocks: bool     // panic: balloc: out of blocks
    var outOfRange: bool      // panic: bmap: out of range
    // What the logged blocks are: bitmap blocks, data blocks, the indirect and inode blocks.
    ghost var maps: set<nat>
    ghost var data: set<nat>
    ghost var meta: set<nat>
    ghost var ind: nat        // the indirect block, from the moment it is allocated

    predicate Stopped()
      reads this
    {
      outOfBlocks || outOfRange
    }

    /** An empty file on a disk with this free map, and no transaction. */
    constructor (bits: seq<bool>, blocks: seq<FT.Block>, bmapstart: nat, inodeBlock: nat, nlog: nat)
      requires Bitmap(bits, |blocks|) && bits[0]
      ensures Ready() && NoHoles() && length == 0 && !Stopped() && !tooBig && NoLog()
      ensures vol.bits == bits && vol.blocks == blocks && size == |blocks| && this.nlog == nlog
      ensures vol.addrs == seq(NDIRECT + 1, i => 0)
    {
      this.size, this.bmapstart, this.inodeBlock, this.nlog := |blocks|, bmapstart, inodeBlock, nlog;
      vol := Vol(bits, seq(NDIRECT + 1, i => 0), seq(NINDIRECT, i => 0), blocks);
      length, log, tooBig, outOfBlocks, outOfRange := 0, [], false, false, false;
      maps, data, meta, ind := {}, {}, {}, 0;
    }

    ghost predicate NoLog()
      reads this
    {
      log == [] && maps == {} && data == {} && meta == {}
    }

    /** The log holds each block once and only blocks that have been accounted for. */
    ghost predicate Accounted()
      reads this
    {
      Paid(log, maps + data + meta)
    }

    ghost predicate Ready()
      reads this
    {
      && Tree(vol, size)
      && if vol.addrs[NDIRECT] == 0 then meta <= {inodeBlock} else ind == vol.addrs[NDIRECT]
    }

    ghost predicate NoHoles()
      requires Tree(vol, size)
      reads this
    {
      Backed(vol, length)
    }

    /** The bytes of the file. */
    ghost function Bytes(): seq<Byte>
      requires Tree(vol, size) && length <= LIMIT
      reads this
    {
      Content(vol, length)
    }

    method LogWrite(b: nat)
      requires Accounted() && b in maps + data + meta && !tooBig
      modifies `log, `tooBig
      ensures Accounted()
      ensures tooBig <==> |old(log)| >= LOGSIZE || |old(log)| >= nlog - 1
      ensures !tooBig ==> b in log && Subset(old(log), log)
    {
      if |log| >= LOGSIZE || |log| >= nlog - 1 {
        tooBig := true;
        return;
      }
      var i := 0;
      while i < |log| && log[i] != b
        invariant 0 <= i <= |log| && forall t :: 0 <= t < i ==> log[t] != b
      {
        i := i + 1;
      }
      if i == |log| { log := log + [b]; }
    }

    /** The budget of a transaction: bitmap and data blocks, and at most two more. */
    ghost predicate Within(n: nat)
      reads this
    {
      && Accounted() && nlog > MAXOPBLOCKS + 1 && !tooBig
      && |maps| + |data| + n <= MAXOPBLOCKS - 2 && meta <= {ind, inodeBlock}
    }

    lemma LogIsShort(n: nat)
      requires Within(n)
      ensures |log| <= MAXOPBLOCKS
    {
      CountDistinct(log, maps + data + meta);
      SubsetSize(meta, {ind, inodeBlock});
      assert |maps + data + meta| <= |maps| + |data| + |meta|;
    }

    // log_write of a block that the budget covers does not panic.
    method Log(b: nat, ghost n: nat)
      requires Within(n) && b in maps + data + meta
      modifies `log, `tooBig
      ensures Within(n) && b in log && Subset(old(log), log)
    {
      hide Paid;
      LogIsShort(n);
      LogWrite(b);
    }

    method LogMap(b: nat, ghost n: nat)
      requires Within(n + 1)
      modifies `log, `tooBig, `maps
      ensures Within(n) && b in log && Subset(old(log), log)
    {
      PaidMore(log, maps + data + meta, maps + {b} + data + meta);
      maps := maps + {b};
      Log(b, n);
    }

    method LogData(b: nat, ghost n: nat)
      requires Within(n + 1) || (Within(n) && b in data)
      modifies `log, `tooBig, `data
      ensures Within(n) && data == old(data) + {b} && b in log && Subset(old(log), log)
    {
      PaidMore(log, maps + data + meta, maps + (data + {b}) + meta);
      assert b in data ==> data + {b} == data;
      data := data + {b};
      Log(b, n);
    }

    method LogMeta(b: nat, ghost n: nat)
      requires Within(n) && b in {ind, inodeBlock}
      modifies `log, `tooBig, `meta
      ensures Within(n) && meta == old(meta) + {b} && b in log && Subset(old(log), log)
    {
      PaidMore(log, maps + data + meta, maps + data + (meta + {b}));
      meta := meta + {b};
      Log(b, n);
    }

    /** balloc, but for the log: the first free block, marked and zeroed. */
    method FindFree() returns (b: nat)
      requires Tree(vol, size) && !outOfBlocks
      modifies `vol, `outOfBlocks
      ensures outOfBlocks <==> AllSet(old(vol).bits, 0, size)
      ensures outOfBlocks ==> vol == old(vol)
      ensures !outOfBlocks ==> 0 < b < size && !old(vol).bits[b] && vol == Taken(old(vol), b)
    {
      b := 0;
      var o := StraightScan(vol.bits, size);
      if !o.Free? {
        outOfBlocks := true;
        return;
      }
      b := o.b;
      vol := Taken(vol, b);
    }

    /** balloc for a data block: log the bitmap block, then the zeroed block. */
    method BallocData(ghost n: nat) returns (b: nat)
      requires Tree(vol, size) && !outOfBlocks && Within(n + 2)
      modifies `vol, `log, `tooBig, `outOfBlocks, `maps, `data
      ensures Within(n) && (outOfBlocks <==> AllSet(old(vol).bits, 0, size))
      ensures outOfBlocks ==> vol == old(vol)
      ensures !outOfBlocks ==>
                && 0 < b < size && !old(vol).bits[b] && vol == Taken(old(vol), b) && data == old(data) + {b}
                && b in log && bmapstart + b / BPB in log
      ensures Subset(old(log), log)
    {
      hide Paid, Tree;
      b := FindFree();
      if outOfBlocks { return; }
      LogMap(bmapstart + b / BPB, n + 1);
      LogData(b, n);
    }

    /** balloc for the indirect block of the file. */
    method BallocIndirect(ghost n: nat) returns (b: nat)
      requires Tree(vol, size) && !outOfBlocks && Within(n + 1) && meta <= {inodeBlock}
      modifies `vol, `log, `tooBig, `outOfBlocks, `maps, `meta, `ind
      ensures Within(n) && (outOfBlocks <==> AllSet(old(vol).bits, 0, size))
      ensures outOfBlocks ==> vol == old(vol) && meta == old(meta)
      ensures !outOfBlocks ==>
                && 0 < b < size && !old(vol).bits[b] && vol == Taken(old(vol), b) && ind == b
                && b in log && bmapstart + b / BPB in log
      ensures Subset(old(log), log)
    {
      hide Paid, Tree;
      b := FindFree();
      if outOfBlocks { return; }
      LogMap(bmapstart + b / BPB, n);
      ind := b;
      LogMeta(b, n);
    }

    // The accounting of one call of bmap and the log_write of the block it returns.
    ghost function Cost(bn: nat): nat
      requires Tree(vol, size)
      reads this
    {
      if bn >= SPAN then 1
      else 1 + (if vol.Ptr(bn) == 0 then 1 else 0) + (if bn >= NDIRECT && vol.addrs[NDIRECT] == 0 then 1 else 0)
    }

    /** bmap, singly indirect: block bn of the file, allocated if need be.  Every block it logs is
        paid for.  It panics beyond the addressable blocks, or if there is no free block left and
        then no later block of the file could have been reached. */
    method Bmap(bn: nat, ghost n: nat) returns (addr: nat)
      requires Ready() && !Stopped() && Within(n + Cost(bn))
      modifies `vol, `log, `tooBig, `outOfBlocks, `outOfRange, `maps, `data, `meta, `ind
      ensures Ready() && Within(n)
      ensures (outOfRange <==> bn >= SPAN) && !(outOfBlocks && outOfRange)
      ensures outOfRange ==> vol == old(vol)
      ensures outOfBlocks ==>
                Same(old(vol), vol, size) && AllSet(vol.bits, 0, size) && Short(old(vol), bn, size, bn + 1)
      ensures !Stopped() ==>
                && Got(old(vol), vol, size, bn) && Steady(old(vol), bn, vol, bn + 1, size, bn + 1)
                && addr == vol.Ptr(bn) && (addr in data || Within(n + 1))
      ensures !Stopped() && vol.addrs[NDIRECT] != old(vol).addrs[NDIRECT] ==>
                old(vol).addrs[NDIRECT] == 0 && bn >= NDIRECT
      ensures Subset(old(log), log) && Covered(old(vol), vol, size, log, bmapstart, bn * BSIZE + 1)
    {
      hide Paid, Same, Got, Steady, Short, Covered;
      addr := 0;
      if bn >= SPAN {
        CoveredSelf(vol, size, log, bmapstart, bn * BSIZE + 1);
        outOfRange := true;
      } else if bn < NDIRECT {
        addr := FillBlock(bn, n);
      } else {
        addr := BmapIndirect(bn, n);
      }
    }

    // A pointer that can be filled in: that of a direct block, or one in the indirect block.
    method FillBlock(bn: nat, ghost n: nat) returns (addr: nat)
      requires Ready() && !Stopped() && bn < SPAN && (bn >= NDIRECT ==> vol.addrs[NDIRECT] != 0) && Within(n + Cost(bn))
      modifies `vol, `log, `tooBig, `outOfBlocks, `maps, `data, `meta
      ensures Ready() && Within(n)
      ensures outOfBlocks ==>
                Same(old(vol), vol, size) && AllSet(vol.bits, 0, size) && Short(old(vol), bn, size, bn + 1)
      ensures !outOfBlocks ==>
                && Got(old(vol), vol, size, bn) && Steady(old(vol), bn, vol, bn + 1, size, bn + 1)
                && addr == vol.Ptr(bn) && (addr in data || Within(n + 1))
      ensures vol.addrs[NDIRECT] == old(vol).addrs[NDIRECT]
      ensures Subset(old(log), log) && Covered(old(vol), vol, size, log, bmapstart, bn * BSIZE + 1)
    {
      hide Paid, Steady, Short, Got, Same, Covered;
      addr := vol.Ptr(bn);
      if addr != 0 {
        CoveredSelf(vol, size, log, bmapstart, bn * BSIZE + 1);
        GotFound(vol, size, bn);
        return;
      }
      ghost var v := vol;
      addr := BallocData(n);
      if outOfBlocks {
        NoSpace(v, size, bn);
        SameSelf(v, size);
        CoveredSelf(v, size, log, bmapstart, bn * BSIZE + 1);
        return;
      }
      BlockGrown(v, size, bn, addr);
      if bn < NDIRECT {
        vol := vol.(addrs := vol.addrs[bn := addr]);
      } else {
        vol := vol.(indirect := vol.indirect[bn - NDIRECT := addr]);
        LogMeta(vol.addrs[NDIRECT], n);
      }
      assert vol == WithBlock(v, bn, addr);
      CoveredBlock(v, size, bn, addr, log, bmapstart);
      GotTree(v, vol, size, bn);
    }

    // The indirect branch of bmap.
    method BmapIndirect(bn: nat, ghost n: nat) returns (addr: nat)
      requires Ready() && !Stopped() && NDIRECT <= bn < SPAN && Within(n + Cost(bn))
      modifies `vol, `log, `tooBig, `outOfBlocks, `maps, `data, `meta, `ind
      ensures Ready() && Within(n)
      ensures outOfBlocks ==>
                Same(old(vol), vol, size) && AllSet(vol.bits, 0, size) && Short(old(vol), bn, size, bn + 1)
      ensures !outOfBlocks ==>
                && Got(old(vol), vol, size, bn) && Steady(old(vol), bn, vol, bn + 1, size, bn + 1)
                && addr == vol.Ptr(bn) && (addr in data || Within(n + 1))
      ensures old(vol).addrs[NDIRECT] != 0 ==> vol.addrs[NDIRECT] == old(vol).addrs[NDIRECT]
      ensures Subset(old(log), log) && Covered(old(vol), vol, size, log, bmapstart, bn * BSIZE + 1)
    {
      hide Paid, Steady, Short, Got, Same, Covered;
      ghost var v := vol;
      if vol.addrs[NDIRECT] != 0 {
        addr := FillBlock(bn, n);
        return;
      }
      addr := BallocIndirect(n + 2);
      if outOfBlocks {
        NoSpace(v, size, bn);
        SameSelf(v, size);
        CoveredSelf(v, size, log, bmapstart, bn * BSIZE + 1);
        return;
      }
      IndirectGrown(v, size, addr, bn);
      vol := vol.(addrs := vol.addrs[NDIRECT := addr], indirect := seq(NINDIRECT, t => 0));
      ghost var w := vol;
      assert w == WithIndirect(v, addr);
      CoveredIndirect(v, size, bn, addr, log, bmapstart);
      SameTree(v, w, size);
      ghost var log1 := log;
      addr := FillBlock(bn, n);
      CoveredTrans(v, w, vol, size, log1, log, bmapstart, bn * BSIZE + 1, bn * BSIZE + 1);
      if outOfBlocks {
        SameTrans(v, w, vol, size);
        SteadyShort(v, bn, w, bn, size, bn + 1);
      } else {
        SameThenGot(v, w, vol, size, bn);
        SteadyTrans(v, bn, w, bn, vol, bn + 1, size, bn + 1);
      }
    }

    /** What writei has spent after `rounds` rounds of its loop: each round logs one data
        block; each but the first of an unaligned write may allocate one; the indirect block
        is allocated at most once. */
    ghost predicate Spent(rounds: nat, unaligned: bool, grown: bool)
      reads this
    {
      && Ready() && Within(0) && (grown ==> vol.addrs[NDIRECT] != 0)
      && |maps| + |data| <= 2 * rounds - (if unaligned && rounds > 0 then 1 else 0) + (if grown then 1 else 0)
    }

    // One round: bmap, the copy into the block, and log_write of the block; w is what bmap left.
    method WriteRound(bn: nat, o: nat, bytes: seq<Byte>, ghost rounds: nat, ghost unaligned: bool, ghost grown: bool)
      returns (ghost w: Vol)
      requires Spent(rounds, unaligned, grown) && !Stopped() && o + |bytes| <= BSIZE
      requires rounds + 1 <= CHUNK_BLOCKS + (if unaligned then 1 else 0)
      requires unaligned && rounds == 0 && bn < SPAN ==> vol.Ptr(bn) != 0
      modifies `vol, `log, `tooBig, `outOfBlocks, `outOfRange, `maps, `data, `meta, `ind
      ensures Ready() && Within(0)
      ensures (outOfRange <==> bn >= SPAN) && !(outOfBlocks && outOfRange) && (outOfRange ==> vol == old(vol))
      ensures outOfBlocks ==>
                Same(old(vol), vol, size) && AllSet(vol.bits, 0, size) && Short(old(vol), bn, size, bn + 1)
      ensures !Stopped() ==>
                && Got(old(vol), w, size, bn) && Steady(old(vol), bn, w, bn + 1, size, bn + 1)
                && w.Ptr(bn) < |w.blocks| && vol == Stored(w, bn, o, bytes)
                && Spent(rounds + 1, unaligned, grown || (old(vol).addrs[NDIRECT] == 0 && vol.addrs[NDIRECT] != 0))
      ensures Subset(old(log), log) && Covered(old(vol), vol, size, log, bmapstart, bn * BSIZE + 1)
    {
      hide Paid, Same, Got, Steady, Short, Covered, AllSet, Tree;
      ghost var spare := MAXOPBLOCKS - 2 - |maps| - |data| - Cost(bn);
      var addr := Bmap(bn, spare);
      w := vol;
      if Stopped() { return; }
      ghost var log1 := log;
      LogData(addr, spare);
      CoveredMore(old(vol), w, size, log1, log, bmapstart, bn * BSIZE + 1, bn * BSIZE + 1);
      assert |maps| + |data| + spare <= MAXOPBLOCKS - 2;
      GotTree(old(vol), w, size, bn);
      PtrInside(w, size, bn);
      StoredTree(w, size, bn, o, bytes);
      CoveredStored(old(vol), w, size, bn, o, bytes, log, bmapstart, bn * BSIZE + 1);
      vol := vol.(blocks := vol.blocks[addr := FF.Splice(vol.blocks[addr], o, bytes)]);
    }

    // How the loop of writei stops, if it does.
    ghost predicate Halts(v0: Vol, v: Vol, len: nat, off: nat, src: seq<Byte>)
      reads this
    {
      && v0.Shaped(size) && v.Shaped(size) && off <= LIMIT
      && (outOfBlocks ==> AllSet(v.bits, 0, size) && Short(v0, off / BSIZE, size, End(off + |src|)))
      && (outOfRange ==> !outOfBlocks && off + |src| > LIMIT && Slack(v0, size, off / BSIZE, SPAN) >= 0)
      && exists tot :: Wrote(v0, v, size, len, off, src, tot)
    }

    // The state of the loop when tot bytes are written.
    ghost predicate Going(v0: Vol, off: nat, src: seq<Byte>, tot: nat, rounds: nat, grown: bool)
      reads this
    {
      && Spent(rounds, off % BSIZE != 0, grown) && !Stopped() && tot <= |src| <= CHUNK
      && Wrote(v0, vol, size, length, off, src, tot)
      && Covered(v0, vol, size, log, bmapstart, off + tot)
      && Steady(v0, off / BSIZE, vol, (off + tot) / BSIZE, size, End(off + |src|))
      && (if rounds == 0 then tot == 0 && !grown
          else InStep(off, |src|, tot, rounds))
    }

    method NextRound(ghost v0: Vol, off: nat, src: seq<Byte>, tot: nat, ghost rounds: nat, ghost grown: bool)
      returns (m: nat, ghost grown': bool)
      requires Going(v0, off, src, tot, rounds, grown) && tot < |src|
      modifies `vol, `log, `tooBig, `outOfBlocks, `outOfRange, `maps, `data, `meta, `ind
      ensures Ready() && Within(0)
      ensures Stopped() ==> Halts(v0, vol, length, off, src)
      ensures !Stopped() ==> 0 < m && tot + m <= |src| && Going(v0, off, src, tot + m, rounds + 1, grown')
    {
      hide Paid, Same, Got, Steady, Short, Wrote, Within, Tree, InStep, Stored, Slack, Covered, Subset, End, AllSet;
      var bn, o := (off + tot) / BSIZE, (off + tot) % BSIZE;
      m := if |src| - tot < BSIZE - o then |src| - tot else BSIZE - o;
      ghost var v := vol;
      NextInStep(off, |src|, tot, rounds, m);
      RoundFits(off, |src|, tot, rounds);
      InRange(v0, v, size, length, off, src, tot);
      if off % BSIZE != 0 && rounds == 0 { FirstExists(v0, v, size, length, off, src); }
      ghost var log1 := log;
      ghost var w := WriteRound(bn, o, src[tot..tot + m], rounds, off % BSIZE != 0, grown);
      TreeShape(vol, size);
      grown' := grown || (v.addrs[NDIRECT] == 0 && vol.addrs[NDIRECT] != 0);
      if outOfBlocks {
        RanOut(v0, v, vol, size, length, off, src, tot);
      } else if outOfRange {
        WentOut(v0, v, size, length, off, src, tot);
      } else {
        GotTree(v, w, size, bn);
        TreeShape(w, size);
        KeepGoing(v0, v, w, off, src, tot, m, rounds, grown', log1);
      }
    }

    lemma KeepGoing(v0: Vol, v: Vol, w: Vol, off: nat, src: seq<Byte>, tot: nat, m: nat, rounds: nat, grown: bool,
                    log1: seq<nat>)
      requires Spent(rounds + 1, off % BSIZE != 0, grown) && !Stopped() && |src| <= CHUNK
      requires 0 < m && tot + m <= |src| && (off + tot) % BSIZE + m <= BSIZE && off + tot + m <= LIMIT
      requires Wrote(v0, v, size, length, off, src, tot) && Covered(v0, v, size, log1, bmapstart, off + tot)
      requires Steady(v0, off / BSIZE, v, (off + tot) / BSIZE, size, End(off + |src|))
      requires Got(v, w, size, (off + tot) / BSIZE) && (off + tot) / BSIZE + 1 <= End(off + |src|)
      requires Steady(v, (off + tot) / BSIZE, w, (off + tot) / BSIZE + 1, size, (off + tot) / BSIZE + 1)
      requires (off + tot) / BSIZE < SPAN && |w.addrs| == NDIRECT + 1 && |w.indirect| == NINDIRECT
      requires w.Ptr((off + tot) / BSIZE) < |w.blocks|
      requires vol == Stored(w, (off + tot) / BSIZE, (off + tot) % BSIZE, src[tot..tot + m])
      requires Subset(log1, log) && Covered(v, vol, size, log, bmapstart, (off + tot) / BSIZE * BSIZE + 1)
      requires InStep(off, |src|, tot + m, rounds + 1)
      ensures Going(v0, off, src, tot + m, rounds + 1, grown)
    {
      hide Paid, Got, Steady, Wrote, Within, Tree, InStep, Stored, Covered, Subset, End;
      var bn := (off + tot) / BSIZE;
      PlaceBelow(off, tot, m);
      SubsetSelf(log);
      CoveredMore(v, vol, size, log, log, bmapstart, bn * BSIZE + 1, off + tot + m);
      CoveredTrans(v0, v, vol, size, log1, log, bmapstart, off + tot, off + tot + m);
      RoundWrote(v0, v, w, size, length, off, src, tot, m, End(off + |src|));
    }

    /** The loop of writei. */
    method WriteBlocks(off: nat, src: seq<Byte>)
      requires Spent(0, off % BSIZE != 0, false) && NoHoles() && !Stopped() && |src| <= CHUNK && off <= length
      modifies `vol, `log, `tooBig, `outOfBlocks, `outOfRange, `maps, `data, `meta, `ind
      ensures Ready() && Within(0)
      ensures Stopped() ==> Halts(old(vol), vol, length, off, src)
      ensures !Stopped() ==>
                && Wrote(old(vol), vol, size, length, off, src, |src|)
                && Steady(old(vol), off / BSIZE, vol, (off + |src|) / BSIZE, size, End(off + |src|))
                && Covered(old(vol), vol, size, log, bmapstart, off + |src|)
    {
      hide Paid, Steady, Short, Wrote, Within, Tree, Backed, Halts, Covered;
      ghost var v0, rounds: nat, grown := vol, 0, false;
      TreeShape(vol, size);
      CoveredSelf(vol, size, log, bmapstart, off);
      WroteNone(v0, size, length, off, src);
      SteadySelf(v0, off / BSIZE, size, End(off + |src|));
      var tot: nat := 0;
      while tot < |src|
        invariant tot <= |src| && Going(v0, off, src, tot, rounds, grown)
      {
        var m: nat;
        m, grown := NextRound(v0, off, src, tot, rounds, grown);
        if Stopped() { return; }
        rounds := rounds + 1;
        tot := tot + m;
      }
    }

    /** writei of a chunk into a file without holes, as the first writer of a transaction.  At most
        MAXOPBLOCKS distinct blocks are logged, so that log_write never finds the transaction too
        big.  It is refused beyond the end of the file; it runs out of blocks exactly if the free
        blocks are fewer than those the write lacks, and out of range exactly if they are not and
        the write ends beyond what bmap can address.  Otherwise src replaces the bytes at off. */
    method Writei(off: nat, src: seq<Byte>) returns (r: int)
      requires Ready() && NoHoles() && !Stopped() && !tooBig && nlog > MAXOPBLOCKS + 1 && NoLog() && |src| <= CHUNK
      modifies `vol, `length, `log, `tooBig, `outOfBlocks, `outOfRange, `maps, `data, `meta, `ind
      ensures !tooBig && |log| <= MAXOPBLOCKS
      ensures r == -1 <==> off > old(length) || off + |src| > MAXSIZE
      ensures r == -1 ==> vol == old(vol) && length == old(length) && log == [] && Ready() && !Stopped()
      ensures r != -1 ==>
                && (outOfBlocks <==> Slack(old(vol), size, off / BSIZE, End(off + |src|)) < 0)
                && (outOfRange <==> off + |src| > LIMIT && Slack(old(vol), size, off / BSIZE, SPAN) >= 0)
      ensures outOfBlocks ==> AllSet(vol.bits, 0, size)
      ensures Stopped() ==>
                length == old(length) && exists tot :: Wrote(old(vol), vol, size, length, off, src, tot)
      ensures !Stopped() && r != -1 ==>
                && r == |src| && Ready() && NoHoles() && length == FF.Max(old(length), off + |src|)
                && Bytes() == FF.Overwritten(old(Bytes()), off, src) && Kept(old(vol), vol, size)
                && Steady(old(vol), off / BSIZE, vol, (off + |src|) / BSIZE, size, End(off + |src|))
      ensures !Stopped() && r != -1 ==>
                && Covered(old(vol), vol, size, log, bmapstart, off + |src|)
                && (length != old(length) || vol.addrs != old(vol).addrs ==> inodeBlock in log)
    {
      hide Paid, Covered, Steady, Short, Wrote, Tree, Backed, Kept, Slack, Content, FF.Overwritten;
      r := 0;
      Within0();
      if off > length || off + |src| > MAXSIZE { return -1; }
      ghost var v0 := vol;
      WriteBlocks(off, src);
      LogIsShort(0);
      if Stopped() {
        Stops(v0, off, src);
        return;
      }
      Finished(v0, vol, size, length, off, src);
      NewMeansLonger(v0, vol, size, log, bmapstart, off + |src|, length);
      if |src| > 0 && off + |src| > length {
        length := off + |src|;
        ghost var log1 := log;
        LogMeta(inodeBlock, 0);
        CoveredMore(v0, vol, size, log1, log, bmapstart, off + |src|, off + |src|);
      }
      LogIsShort(0);
      r := |src|;
    }

    lemma Within0()
      requires Ready() && NoHoles() && !tooBig && nlog > MAXOPBLOCKS + 1 && NoLog()
      ensures Within(0) && length <= LIMIT && vol.Shaped(size)
    {
    }

    lemma Stops(v0: Vol, off: nat, src: seq<Byte>)
      requires Halts(v0, vol, length, off, src) && Stopped()
      ensures outOfBlocks <==> Slack(v0, size, off / BSIZE, End(off + |src|)) < 0
      ensures outOfRange <==> off + |src| > LIMIT && Slack(v0, size, off / BSIZE, SPAN) >= 0
    {
      assert End(off + |src|) <= SPAN;
      if outOfBlocks {
        assert Slack(v0, size, off / BSIZE, End(off + |src|)) < 0;
        assert Slack(v0, size, off / BSIZE, SPAN) < 0;
      }
    }

    // The commit at the end of an operation empties the log.
    method EndOp()
      modifies `log, `maps, `data, `meta
      ensures NoLog()
    {
      log, maps, data, meta := [], {}, {}, {};
    }

    // Between two chunks of filewrite, when i bytes are written.
    ghost predicate Chunked(v0: Vol, len: nat, off0: nat, src: seq<Byte>, i: nat)
      reads this
    {
      && Ready() && NoHoles() && !Stopped() && !tooBig && nlog > MAXOPBLOCKS + 1 && NoLog()
      && Tree(v0, size) && len <= LIMIT && i <= |src| && Kept(v0, vol, size)
      && (i == 0 ==> vol == v0 && length == len)
      && (i > 0 ==>
            && off0 <= len && length == FF.Max(len, off0 + i)
            && Bytes() == FF.Overwritten(Content(v0, len), off0, src[..i])
            && Steady(v0, off0 / BSIZE, vol, (off0 + i) / BSIZE, size, End(off0 + |src|)))
    }

    // One chunk; r is what writei returned.
    method WriteChunk(ghost v0: Vol, ghost len: nat, off0: nat, src: seq<Byte>, i: nat) returns (r: int)
      requires Chunked(v0, len, off0, src, i) && i < |src|
      modifies this
      ensures !tooBig
      ensures Stopped() ==>
                && off0 <= len && AllOrNone(v0, off0, src)
                && (outOfBlocks ==> AllSet(vol.bits, 0, size))
      ensures !Stopped() ==>
                if off0 > len then r == -1 && i == 0 && Chunked(v0, len, off0, src, 0)
                else 0 < r && r == Chunk(|src|, i) && i + r <= |src| && Chunked(v0, len, off0, src, i + r)
    {
      hide Paid, Steady, Tree, Backed, Kept, Slack, Content, FF.Overwritten, Wrote;
      var n := Chunk(|src|, i);
      var chunk := src[i..i + n];
      SoFar(v0, len, off0, src, i);
      ghost var v, c := vol, Bytes();
      r := Writei(off0 + i, chunk);
      if !Stopped() {
        EndOp();
        if r != -1 { ChunkDone(v0, len, v, vol, c, off0, src, i, n, size); }
      } else {
        ChunkStops(v0, v, off0, src, i, n);
      }
    }

    /** filewrite: one transaction per chunk, none of which is too big for the log.  It is refused
        exactly beyond the end of the file.  It runs out of blocks exactly if the free blocks are
        fewer than those the whole write lacks, and out of range exactly if they are not and the
        write ends beyond what bmap can address.  Otherwise the chunks together are one write of
        src.  Each commit on the way shows a whole number of chunks: commits[j] are the bytes of
        the file after j of them. */
    method FileWrite(off0: nat, src: seq<Byte>) returns (r: int, off: nat, ghost commits: seq<seq<Byte>>)
      requires Ready() && NoHoles() && !Stopped() && !tooBig && nlog > MAXOPBLOCKS + 1 && NoLog()
      modifies this
      ensures !tooBig
      ensures outOfBlocks <==>
                off0 <= old(length) && src != [] && Slack(old(vol), size, off0 / BSIZE, End(off0 + |src|)) < 0
      ensures outOfRange <==>
                && off0 <= old(length) && src != [] && off0 + |src| > LIMIT
                && Slack(old(vol), size, off0 / BSIZE, SPAN) >= 0
      ensures outOfBlocks ==> AllSet(vol.bits, 0, size)
      ensures !Stopped() ==>
                && Ready() && NoHoles() && NoLog() && Kept(old(vol), vol, size)
                && (r == -1 <==> src != [] && off0 > old(length)) && (r == -1 || r == |src|)
                && (r == -1 ==> off == off0 && vol == old(vol) && length == old(length))
      ensures !Stopped() && r != -1 && src != [] ==>
                && off == off0 + |src| && length == FF.Max(old(length), off)
                && Bytes() == FF.Overwritten(old(Bytes()), off0, src)
      ensures |commits| >= 1 && commits[0] == old(Bytes())
      ensures off0 <= old(length) ==> forall j :: 0 <= j < |commits| ==>
                commits[j] == FF.Overwritten(old(Bytes()), off0, src[..Whole(|src|, j)])
      ensures !Stopped() && r != -1 ==> Whole(|src|, |commits| - 1) == |src|
    {
      hide Paid, Steady, Tree, Backed, Kept, Slack, Content, FF.Overwritten;
      r, off := -1, off0;
      ghost var v0, len := vol, length;
      StartsChunked(off0, src);
      SoFar(v0, len, off0, src, 0);
      commits := [Bytes()];
      var i: nat := 0;
      while i < |src|
        invariant i <= |src| && off == off0 + i && Chunked(v0, len, off0, src, i)
        invariant |commits| >= 1 && i == Whole(|src|, |commits| - 1) && commits[0] == Content(v0, len)
        invariant off0 <= len ==> forall j :: 0 <= j < |commits| ==>
                    commits[j] == FF.Overwritten(Content(v0, len), off0, src[..Whole(|src|, j)])
      {
        var w := WriteChunk(v0, len, off0, src, i);
        if Stopped() { return; }
        if w < 0 { break; }
        NextWhole(|src|, |commits| - 1);
        off := off + w;
        i := i + w;
        SoFar(v0, len, off0, src, i);
        commits := commits + [Bytes()];
      }
      assert src[..|src|] == src;
      if i == |src| && src != [] { NeverStopped(v0, len, off0, src); }
      r := if i == |src| then |src| else -1;
    }

    lemma StartsChunked(off0: nat, src: seq<Byte>)
      requires Ready() && NoHoles() && !Stopped() && !tooBig && nlog > MAXOPBLOCKS + 1 && NoLog()
      ensures Chunked(vol, length, off0, src, 0)
    {
    }

    lemma NeverStopped(v0: Vol, len: nat, off0: nat, src: seq<Byte>)
      requires Chunked(v0, len, off0, src, |src|) && src != []
      ensures off0 <= len && v0.Shaped(size) && off0 + |src| <= LIMIT
      ensures Slack(v0, size, off0 / BSIZE, End(off0 + |src|)) >= 0
    {
      hide Kept, Steady, Content, FF.Overwritten;
      assert Backed(vol, off0 + |src|);
      Reached(vol, size, off0 + |src|);
      EndCost(v0, off0 / BSIZE, vol, (off0 + |src|) / BSIZE, size, End(off0 + |src|));
    }

    lemma SoFar(v0: Vol, len: nat, off0: nat, src: seq<Byte>, i: nat)
      requires Chunked(v0, len, off0, src, i)
      ensures length <= LIMIT && |Bytes()| == length && v0.Shaped(size) && vol.Shaped(size)
      ensures off0 <= len ==>
                && off0 + i <= length
                && Steady(v0, off0 / BSIZE, vol, (off0 + i) / BSIZE, size, End(off0 + |src|))
                && Bytes() == FF.Overwritten(Content(v0, len), off0, src[..i])
    {
      if i == 0 && off0 <= len {
        SteadySelf(v0, off0 / BSIZE, size, End(off0 + |src|));
        assert src[..0] == [];
      }
    }

    lemma ChunkStops(v0: Vol, v: Vol, off0: nat, src: seq<Byte>, i: nat, n: nat)
      requires v0.Shaped(size) && v.Shaped(size) && i + n <= |src| && off0 + i <= LIMIT && Stopped()
      requires Steady(v0, off0 / BSIZE, v, (off0 + i) / BSIZE, size, End(off0 + |src|))
      requires outOfBlocks <==> Slack(v, size, (off0 + i) / BSIZE, End(off0 + i + n)) < 0
      requires outOfRange <==> off0 + i + n > LIMIT && Slack(v, size, (off0 + i) / BSIZE, SPAN) >= 0
      ensures AllOrNone(v0, off0, src)
    {
      hide Steady, Slack;
      var b, e := (off0 + i) / BSIZE, End(off0 + |src|);
      EndGrows(off0 + i + n, off0 + |src|);
      EndCost(v0, off0 / BSIZE, v, b, size, e);
      SlackLess(v, size, b, End(off0 + i + n), e);
    }

    // Why filewrite stops, in terms of the state before it.
    ghost predicate AllOrNone(v0: Vol, off0: nat, src: seq<Byte>)
      reads this
    {
      && v0.Shaped(size)
      && (outOfBlocks <==> Slack(v0, size, off0 / BSIZE, End(off0 + |src|)) < 0)
      && (outOfRange <==> off0 + |src| > LIMIT && Slack(v0, size, off0 / BSIZE, SPAN) >= 0)
    }
  }

  lemma EndGrows(n: nat, m: nat)
    requires n <= m
    ensures End(n) <= End(m) <= SPAN && (n > LIMIT ==> End(n) == End(m) == SPAN) && (m > LIMIT ==> End(m) == SPAN)
  {
  }

  lemma {:induction false} GapsMore(v: Vol, b: nat, e: nat, e': nat)
    requires e <= e' <= SPAN && |v.addrs| == NDIRECT + 1 && |v.indirect| == NINDIRECT
    ensures Gaps(v, b, e) <= Gaps(v, b, e')
    decreases e' - b
  {
    if b < e' { GapsMore(v, b + 1, e, e'); }
  }

  lemma SlackLess(v: Vol, size: nat, b: nat, e: nat, e': nat)
    requires v.Shaped(size) && e <= e' <= SPAN
    ensures Slack(v, size, b, e') <= Slack(v, size, b, e)
  {
    GapsMore(v, b, e, e');
  }

  lemma ChunkDone(v0: Vol, len: nat, v: Vol, w: Vol, c: seq<Byte>, off0: nat, src: seq<Byte>, i: nat, n: nat, size: nat)
    requires Kept(v0, v, size) && Kept(v, w, size) && len <= LIMIT && off0 <= len && i + n <= |src| && off0 + i <= |c|
    requires Steady(v0, off0 / BSIZE, v, (off0 + i) / BSIZE, size, End(off0 + |src|))
    requires Steady(v, (off0 + i) / BSIZE, w, (off0 + i + n) / BSIZE, size, End(off0 + i + n))
    requires |v0.addrs| == NDIRECT + 1 && |v0.indirect| == NINDIRECT
    requires c == FF.Overwritten(Content(v0, len), off0, src[..i])
    ensures Kept(v0, w, size) && Steady(v0, off0 / BSIZE, w, (off0 + i + n) / BSIZE, size, End(off0 + |src|))
    ensures FF.Overwritten(c, off0 + i, src[i..i + n]) == FF.Overwritten(Content(v0, len), off0, src[..i + n])
  {
    hide Kept, Steady;
    KeptTrans(v0, v, w, size);
    EndGrows(off0 + i + n, off0 + |src|);
    SteadyMono(v, (off0 + i) / BSIZE, w, (off0 + i + n) / BSIZE, size, End(off0 + i + n), End(off0 + |src|));
    SteadyTrans(v0, off0 / BSIZE, v, (off0 + i) / BSIZE, w, (off0 + i + n) / BSIZE, size, End(off0 + |src|));
    FK.OverwriteTwice(Content(v0, len), off0, src[..i], src[i..i + n]);
    assert src[..i] + src[i..i + n] == src[..i + n];
  }

  /** The bytes in the first j chunks of n bytes. */
  function Whole(n: nat, j: nat): nat {
    if j * CHUNK < n then j * CHUNK else n
  }

  lemma NextWhole(n: nat, j: nat)
    ensures Whole(n, j) + Chunk(n, Whole(n, j)) == Whole(n, j + 1)
  {
  }

  // The length of the chunk that starts at byte i of n.
  function Chunk(n: nat, i: nat): nat
    requires i <= n
  {
    if n - i > CHUNK then CHUNK else n - i
  }

  // A file without holes gets new blocks only by growing.
  lemma NewMeansLonger(v0: Vol, v: Vol, size: nat, log: seq<nat>, bmapstart: nat, n: nat, len: nat)
    requires Covered(v0, v, size, log, bmapstart, n) && Backed(v0, len)
    ensures n <= len ==> v.addrs == v0.addrs
  {
    if n <= len {
      forall t: nat | t <= NDIRECT ensures v.addrs[t] == v0.addrs[t] {
        if t < NDIRECT {
          assert v0.Ptr(t) == v0.addrs[t];
        } else {
          assert v0.Ptr(NDIRECT) != 0 || len <= NDIRECT * BSIZE;
        }
      }
    }
  }

  // All is written: nothing was wanting, and the bytes are as they should be.
  lemma Finished(v0: Vol, v: Vol, size: nat, len: nat, off: nat, src: seq<Byte>)
    requires Wrote(v0, v, size, len, off, src, |src|)
    requires Steady(v0, off / BSIZE, v, (off + |src|) / BSIZE, size, End(off + |src|))
    ensures off <= len <= LIMIT && off + |src| <= LIMIT && v0.Shaped(size) && v.Shaped(size)
    ensures Slack(v0, size, off / BSIZE, End(off + |src|)) >= 0
    ensures Backed(v, FF.Max(len, off + |src|)) && Kept(v0, v, size)
    ensures Content(v, FF.Max(len, off + |src|)) == FF.Overwritten(Content(v0, len), off, src)
  {
    hide Kept, Steady;
    WroteAll(v0, v, size, len, off, src);
    assert Backed(v, off + |src|);
    Reached(v, size, off + |src|);
    EndCost(v0, off / BSIZE, v, (off + |src|) / BSIZE, size, End(off + |src|));
  }

  lemma EndCost(v: Vol, b: nat, w: Vol, c: nat, size: nat, e: nat)
    requires Steady(v, b, w, c, size, e) && e <= SPAN
    ensures v.Shaped(size) && w.Shaped(size) && Slack(w, size, c, e) == Slack(v, size, b, e)
  {
  }

  lemma TreeShape(v: Vol, size: nat)
    requires Tree(v, size)
    ensures v.Shaped(size)
  {
  }

  lemma PtrInside(v: Vol, size: nat, t: nat)
    requires Tree(v, size) && t < SPAN
    ensures v.Shaped(size) && v.Ptr(t) < size == |v.blocks|
  {
  }

  lemma SteadySelf(v: Vol, b: nat, size: nat, lo: nat)
    requires Tree(v, size)
    ensures Steady(v, b, v, b, size, lo)
  {
  }

  lemma InRange(v0: Vol, v: Vol, size: nat, len: nat, off: nat, src: seq<Byte>, tot: nat)
    requires Wrote(v0, v, size, len, off, src, tot) && tot < |src|
    ensures off <= LIMIT && off + tot <= LIMIT && Tree(v, size) && v0.Shaped(size) && v.Shaped(size)
    ensures (off + tot) / BSIZE < SPAN ==> (off + tot) / BSIZE + 1 <= End(off + |src|)
    ensures (off + tot) / BSIZE < SPAN ==> off + tot < LIMIT && (off + tot) / BSIZE * BSIZE + BSIZE <= LIMIT
    ensures (off + tot) / BSIZE >= SPAN ==> off + tot == LIMIT && (off + tot) / BSIZE == SPAN
  {
  }

  lemma FirstExists(v0: Vol, v: Vol, size: nat, len: nat, off: nat, src: seq<Byte>)
    requires Wrote(v0, v, size, len, off, src, 0) && off % BSIZE != 0
    ensures |v.addrs| == NDIRECT + 1 && |v.indirect| == NINDIRECT
    ensures off / BSIZE < SPAN ==> v.Ptr(off / BSIZE) != 0
  {
  }

  lemma RanOut(v0: Vol, v: Vol, w: Vol, size: nat, len: nat, off: nat, src: seq<Byte>, tot: nat)
    requires Wrote(v0, v, size, len, off, src, tot) && tot < |src| && Same(v, w, size)
    requires (off + tot) / BSIZE < SPAN && Short(v, (off + tot) / BSIZE, size, (off + tot) / BSIZE + 1)
    requires Steady(v0, off / BSIZE, v, (off + tot) / BSIZE, size, End(off + |src|))
    ensures Short(v0, off / BSIZE, size, End(off + |src|)) && Wrote(v0, w, size, len, off, src, tot)
    ensures w.Shaped(size)
  {
    InRange(v0, v, size, len, off, src, tot);
    ShortMono(v, (off + tot) / BSIZE, size, (off + tot) / BSIZE + 1, End(off + |src|));
    SteadyShort(v0, off / BSIZE, v, (off + tot) / BSIZE, size, End(off + |src|));
    WroteSame(v0, v, w, size, len, off, src, tot);
  }

  lemma WentOut(v0: Vol, v: Vol, size: nat, len: nat, off: nat, src: seq<Byte>, tot: nat)
    requires Wrote(v0, v, size, len, off, src, tot) && tot < |src| && (off + tot) / BSIZE >= SPAN
    requires Steady(v0, off / BSIZE, v, (off + tot) / BSIZE, size, End(off + |src|))
    ensures off + |src| > LIMIT && v0.Shaped(size) && off <= LIMIT && Slack(v0, size, off / BSIZE, SPAN) >= 0
  {
    InRange(v0, v, size, len, off, src, tot);
    assert End(off + |src|) == SPAN;
    assert Slack(v, size, SPAN, SPAN) == Slack(v0, size, off / BSIZE, SPAN);
  }

  lemma PlaceBelow(off: nat, tot: nat, m: nat)
    requires 0 < m
    ensures (off + tot) / BSIZE * BSIZE + 1 <= off + tot + m
  {
  }

  // After the first round the loop is at the start of a block.
  predicate InStep(off: nat, n: nat, tot: nat, rounds: nat) {
    tot < n ==> (off + tot) % BSIZE == 0 && tot == BSIZE - off % BSIZE + (rounds - 1) * BSIZE
  }

  lemma NextInStep(off: nat, n: nat, tot: nat, rounds: nat, m: nat)
    requires tot < n && (if rounds == 0 then tot == 0 else InStep(off, n, tot, rounds))
    requires m == if n - tot < BSIZE - (off + tot) % BSIZE then n - tot else BSIZE - (off + tot) % BSIZE
    ensures 0 < m && tot + m <= n && (off + tot) % BSIZE + m <= BSIZE && InStep(off, n, tot + m, rounds + 1)
  {
  }

  // The loop of writei runs at most one round more than the blocks of the chunk.
  lemma RoundFits(off: nat, n: nat, tot: nat, rounds: nat)
    requires tot < n <= CHUNK
    requires rounds == 0 || InStep(off, n, tot, rounds)
    ensures rounds + 1 <= CHUNK_BLOCKS + (if off % BSIZE != 0 then 1 else 0)
  {
  }

  lemma SameSelf(v: Vol, size: nat)
    requires Tree(v, size)
    ensures Same(v, v, size)
  {
  }

  lemma SameTree(v: Vol, w: Vol, size: nat)
    requires Same(v, w, size)
    ensures Tree(v, size) && Tree(w, size)
  {
  }

  lemma GotTree(v: Vol, w: Vol, size: nat, t: nat)
    requires Got(v, w, size, t)
    ensures Tree(v, size) && Tree(w, size) && t < SPAN && w.Ptr(t) != 0
  {
  }

  lemma SameTrans(u: Vol, v: Vol, w: Vol, size: nat)
    requires Same(u, v, size) && Same(v, w, size)
    ensures Same(u, w, size)
  {
  }

  lemma SubsetSize(a: set<nat>, b: set<nat>)
    requires a <= b
    ensures |a| <= |b|
  {
    assert b == a + (b - a);
  }

  /** One byte more than bmap can address, written to an empty file on a disk of 4096 free blocks:
      writei accepts every chunk, and bmap panics. */
  method OneByteTooFar() returns (v: Vfs)
    ensures fresh(v) && v.outOfRange && !v.outOfBlocks
  {
    hide Tree, Backed, Paid;
    var bits := seq(BPB, x => x == 0);
    v := new Vfs(bits, seq(BPB, x => FT.Zeroed()), 1, 2, 100);
    FreeAll(bits, BPB);
    ghost var vol := v.vol;
    TreeShape(vol, BPB);
    GapsAtMost(vol, 0, SPAN);
    assert Slack(vol, BPB, 0, SPAN) >= 0;
    var r, off, commits := v.FileWrite(0, seq(LIMIT + 1, x => 0));
  }
}
