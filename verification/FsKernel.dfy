/** The kernel's file system below directories and path names (kern/fs.c): balloc, bfree,
    bmap, itrunc, readi and writei over a flat block store. */
module FsKernel {
  import opened Params
  import opened BlockAlloc
  import opened FsTree
  import opened FsFile
  import opened FsTrunc

  class FileSystem {
    var bits: seq<bool>       // the free map, in whole blocks
    var blocks: seq<Block>    // sb.size blocks
    var inodes: seq<Inode>
    var lastballoc: nat       // where the last search of the free map succeeded
    var lastbi: nat
    var halted: bool          // a panic or an endless search stopped the system

    ghost function State(): Fs
      reads this
    {
      Fs(if |blocks| <= |bits| then bits[..|blocks|] else [], blocks, inodes)
    }

    /** Block ownership, and a hint that names a place in the free map. */
    ghost predicate Ok()
      reads this
    {
      && Bitmap(bits, |blocks|) && lastballoc < |blocks| && lastballoc % BPB == 0 && lastbi < BPB
      && Owned(State()) && !halted
    }

    /** What stops balloc: there is no free block, or the hint leads the search astray. */
    ghost predicate NoBlock()
      reads this
    {
      && Bitmap(bits, |blocks|) && lastbi < BPB
      && (AllSet(bits, 0, |blocks|) || Astray(bits, |blocks|, lastballoc, lastbi))
    }

    /** A file system with nothing but empty inodes, as mkfs starts out: block 0 is in use. */
    constructor (bits: seq<bool>, blocks: seq<Block>, ninodes: nat)
      requires Bitmap(bits, |blocks|) && bits[0] && |blocks| <= WORD
      ensures Ok() && FsFile.Valid(State()) && |inodes| == ninodes && this.blocks == blocks && this.bits == bits
      ensures forall i :: 0 <= i < ninodes ==> File(State(), i) == []
    {
      this.bits, this.blocks := bits, blocks;
      inodes := seq(ninodes, i => EmptyInode());
      lastballoc, lastbi, halted := 0, 0, false;
      new;
      NothingOwned(State());
    }

    /** balloc: a zeroed block that was free.  It fails exactly when there is no free block or
        the hint leads the search astray. */
    method Balloc() returns (b: nat)
      requires Ok()
      modifies `bits, `blocks, `lastballoc, `lastbi, `halted
      ensures halted <==> old(NoBlock())
      ensures halted ==> State() == old(State()) && NoBlock()
      ensures !halted ==>
                && 0 < b < |old(blocks)| && !old(State()).used[b] && State() == Allocated(old(State()), b)
                && Bitmap(bits, |blocks|) && lastballoc % BPB == 0 && lastbi < BPB && lastballoc + lastbi == b
    {
      hide GroupResult, FullBefore, LastGroup, Owned;
      OwnedZero(State());
      var o := BlockAlloc.Search(bits, |blocks|, lastballoc, lastbi);
      b := 0;
      if !o.Free? {
        halted := true;
        return;
      }
      b := o.b;
      bits := bits[b := true];
      blocks := blocks[b := Zeroed()];
      lastbi := b % BPB;
      lastballoc := b - lastbi;
      assert State().used == old(State()).used[b := true];
    }

    /** Read the pointer in a slot, as bmap does from the inode or an indirect block. */
    method Load(s: Slot) returns (p: nat)
      requires Owned(State()) && s.Ok(State())
      requires (s.Mid? ==> Ptr(State(), Top(s.ino)) != 0) && (s.Leaf? ==> Ptr(State(), Mid(s.ino, s.j)) != 0)
      ensures p == Ptr(State(), s)
    {
      match s
      case Direct(ino, i) => p := inodes[ino].addrs[i];
      case Top(ino) => p := inodes[ino].addrs[NDIRECT];
      case Mid(ino, j) =>
        assert Top(ino).Ok(State());
        p := Word(blocks[inodes[ino].addrs[NDIRECT]], j);
      case Leaf(ino, j, y) =>
        assert Top(ino).Ok(State()) && Mid(ino, j).Ok(State());
        p := Word(blocks[Word(blocks[inodes[ino].addrs[NDIRECT]], j)], y);
    }

    /** Store a pointer in an empty slot: an inode field or a word of an indirect block. */
    method Store(s: Slot, b: nat)
      requires State().Shaped() && s.Ok(State()) && b < |blocks|
      requires s.Mid? ==> 0 < Ptr(State(), Top(s.ino)) < |blocks|
      requires s.Leaf? ==> 0 < Ptr(State(), Mid(s.ino, s.j)) < |blocks|
      modifies `blocks, `inodes
      ensures State() == SetSlot(old(State()), s, b)
    {
      match s
      case Direct(ino, i) => inodes := inodes[ino := inodes[ino].(addrs := inodes[ino].addrs[i := b])];
      case Top(ino) => inodes := inodes[ino := inodes[ino].(addrs := inodes[ino].addrs[NDIRECT := b])];
      case Mid(ino, j) =>
        var top := inodes[ino].addrs[NDIRECT];
        blocks := blocks[top := PutWord(blocks[top], j, b)];
      case Leaf(ino, j, y) =>
        var mid := Word(blocks[inodes[ino].addrs[NDIRECT]], j);
        blocks := blocks[mid := PutWord(blocks[mid], y, b)];
    }

    /** One level of bmap: the pointer in a slot, allocating a block if there is none. */
    method Fill(s: Slot) returns (addr: nat)
      requires Ok() && s.Ok(State())
      requires (s.Mid? ==> Ptr(State(), Top(s.ino)) != 0) && (s.Leaf? ==> Ptr(State(), Mid(s.ino, s.j)) != 0)
      modifies this
      ensures old(Ptr(State(), s)) != 0 ==> State() == old(State()) && !halted
      ensures !halted ==>
                && Ok() && Extends(old(State()), State()) && s.Ok(State())
                && addr == Ptr(State(), s) != 0
      ensures halted <==> old(Ptr(State(), s)) == 0 && old(NoBlock())
      ensures halted ==> Extends(old(State()), State()) && Owned(State()) && NoBlock()
    {
      hide Owned, Ptr, Extends, SetSlot, Allocated, Astray, NoBlock;
      addr := Load(s);
      ExtendsSelf(State());
      if addr != 0 { return; }
      ghost var fs := State();
      addr := Balloc();
      if halted { return; }
      GrowFacts(fs, s, addr);
      Store(s, addr);
    }

    /** bmap: block bn of an inode, allocated if need be.  Blocks already there stay, and a
        block that exists is found without allocating. */
    method Bmap(ino: nat, bn: nat) returns (addr: nat)
      requires Ok() && ino < |inodes|
      modifies this
      ensures halted ==> Extends(old(State()), State()) && Owned(State()) && (NoBlock() || bn >= MAXFILE)
      ensures !halted ==>
                && Ok() && Extends(old(State()), State()) && bn < MAXFILE && ino < |inodes|
                && addr == BlockPtr(State(), ino, bn) != 0
      ensures bn < MAXFILE && old(BlockPtr(State(), ino, bn)) != 0 ==> State() == old(State()) && !halted
    {
      hide Owned, Extends, Ptr;
      addr := 0;
      ExtendsSelf(State());
      if bn < NDIRECT {
        addr := Fill(Direct(ino, bn));
      } else if bn - NDIRECT < NINDIRECT * NINDIRECT {
        addr := BmapIndirect(ino, (bn - NDIRECT) / NINDIRECT, (bn - NDIRECT) % NINDIRECT);
      } else {
        halted := true;
      }
    }

    // The doubly-indirect branch of bmap.
    method BmapIndirect(ino: nat, j: nat, y: nat) returns (addr: nat)
      requires Ok() && ino < |inodes| && j < NINDIRECT && y < NINDIRECT
      modifies this
      ensures halted ==> Extends(old(State()), State()) && Owned(State()) && NoBlock()
      ensures !halted ==>
                && Ok() && Extends(old(State()), State()) && ino < |inodes|
                && addr == Ptr(State(), Leaf(ino, j, y)) != 0
      ensures old(Ptr(State(), Leaf(ino, j, y))) != 0 ==> State() == old(State()) && !halted
    {
      hide Owned, Extends, Ptr;
      ghost var fs := State();
      LeafNeedsParents(fs, ino, j, y);
      addr := Fill(Top(ino));
      if halted { return; }
      ghost var fs1 := State();
      addr := Fill(Mid(ino, j));
      ExtendsTrans(fs, fs1, State());
      if halted { return; }
      ghost var fs2 := State();
      addr := Fill(Leaf(ino, j, y));
      ExtendsTrans(fs, fs2, State());
    }

    // One round of readi's loop: at most to the end of the block.
    method ReadChunk(ino: nat, k: nat, n: nat) returns (data: seq<Byte>)
      requires Ok() && FsFile.Valid(State()) && ino < |inodes| && 0 < n && k + n <= inodes[ino].size
      modifies this
      ensures State() == old(State()) && !halted && Ok()
      ensures 0 < |data| <= n && data == File(State(), ino)[k..k + |data|]
    {
      hide Owned, Ptr, ByteAt, BlockPtr, Extends, File;
      BackedByte(State(), ino, k);
      var bn, o := k / BSIZE, k % BSIZE;
      var addr := Bmap(ino, bn);
      BlockInRange(State(), ino, bn);
      var m := if n < BSIZE - o then n else BSIZE - o;
      ReadStep(State(), ino, k, m);
      data := blocks[addr][o..o + m];
    }

    /** readi: the slice of the file at off, cut at the end of the file.  It changes nothing:
        no block is ever allocated for reading. */
    method Readi(ino: nat, off: nat, n0: nat) returns (r: int, dst: seq<Byte>)
      requires Ok() && FsFile.Valid(State()) && ino < |inodes| && off < WORD && n0 < WORD
      modifies this
      ensures State() == old(State()) && !halted && Ok()
      ensures r == -1 <==> off > inodes[ino].size || off + n0 >= WORD
      ensures r != -1 ==>
                && r == (if off + n0 > inodes[ino].size then inodes[ino].size - off else n0)
                && dst == File(State(), ino)[off..off + r]
    {
      hide Owned, File, FsFile.Valid, Bitmap;
      dst := [];
      if off > inodes[ino].size || (off + n0) % WORD < off { return -1, []; }
      var n := if off + n0 > inodes[ino].size then inodes[ino].size - off else n0;
      var tot := 0;
      while tot < n
        invariant 0 <= tot <= n && ino < |inodes| && off + n <= inodes[ino].size
        invariant State() == old(State()) && Ok() && FsFile.Valid(State())
        invariant dst == File(State(), ino)[off..off + tot]
      {
        var data := ReadChunk(ino, off + tot, n - tot);
        dst := dst + data;
        tot := tot + |data|;
      }
      r := n;
    }

    /** writei: src replaces content[off..off+|src|), the file grows as needed, every other
        file stays as it is.  If the system stops for want of a block, a prefix is written. */
    method Writei(ino: nat, src: seq<Byte>, off: nat) returns (r: int)
      requires Ok() && FsFile.Valid(State()) && ino < |inodes| && off < WORD && |src| < WORD
      modifies this
      ensures r == -1 ==> State() == old(State()) && Ok()
      ensures !halted ==>
                (r == -1 <==> off > old(inodes)[ino].size || off + |src| > MAXFILE * BSIZE)
      ensures !halted && r != -1 ==>
                && r == |src| && Ok() && FsFile.Valid(State()) && |inodes| == |old(inodes)|
                && File(State(), ino) == Overwritten(old(File(State(), ino)), off, src)
                && forall i :: 0 <= i < |inodes| && i != ino ==> File(State(), i) == old(File(State(), i))
      ensures halted ==> NoBlock() && exists tot :: Wrote(old(State()), State(), ino, off, src, tot)
    {
      hide Owned, Ptr, ByteAt, BlockPtr, Extends, Wrote;
      r := 0;
      if off > inodes[ino].size || (off + |src|) % WORD < off { return -1; }
      if off + |src| > MAXFILE * BSIZE { return -1; }
      ghost var fs0 := State();
      WroteNothing(fs0, ino, off, src);
      var tot := 0;
      while tot < |src|
        invariant 0 <= tot <= |src| && Ok() && Wrote(fs0, State(), ino, off, src, tot)
        invariant ino < |inodes|
      {
        var m := WriteChunk(fs0, ino, off, src, tot);
        if halted { return; }
        tot := tot + m;
      }
      WroteSizes(fs0, State(), ino, off, src, tot);
      WroteAll(fs0, State(), ino, off, src);
      ghost var fs1 := State();
      if |src| > 0 && off + |src| > inodes[ino].size {
        inodes := inodes[ino := inodes[ino].(size := off + |src|)];
        assert State() == Resized(fs1, ino, off + |src|);
      } else {
        assert State() == Resized(fs1, ino, inodes[ino].size);
      }
      r := |src|;
      ValidOwned(State());
    }

    // One round of writei's loop: at most to the end of the block.
    method WriteChunk(ghost fs0: Fs, ino: nat, off: nat, src: seq<Byte>, tot: nat) returns (m: nat)
      requires Ok() && ino < |inodes| && Wrote(fs0, State(), ino, off, src, tot)
      requires tot < |src| && off + |src| <= MAXFILE * BSIZE
      modifies this
      ensures halted ==> NoBlock() && Wrote(fs0, State(), ino, off, src, tot)
      ensures !halted ==>
                && 0 < m && tot + m <= |src| && Ok() && ino < |inodes|
                && Wrote(fs0, State(), ino, off, src, tot + m)
    {
      hide Owned, Ptr, ByteAt, BlockPtr, Extends, Wrote;
      m := 0;
      ghost var fs := State();
      var bn, o := (off + tot) / BSIZE, (off + tot) % BSIZE;
      var addr := Bmap(ino, bn);
      WroteExtends(fs0, fs, State(), ino, off, src, tot);
      if halted { return; }
      m := if |src| - tot < BSIZE - o then |src| - tot else BSIZE - o;
      ghost var fs1 := State();
      BlockInRange(fs1, ino, bn);
      WroteStep(fs0, fs1, ino, off, src, tot, m);
      StoreKeepsOwned(fs1, ino, bn, o, src[tot..tot + m]);
      blocks := blocks[addr := Splice(blocks[addr], o, src[tot..tot + m])];
      assert State() == Stored(fs1, ino, bn, o, src[tot..tot + m]);
    }

    /** bfree: clear the bit of a block in use; a clear bit is a panic. */
    method Bfree(b: nat)
      requires |blocks| <= |bits| && b < |blocks| && !halted
      modifies `bits, `halted
      ensures halted <==> !old(State()).used[b]
      ensures State() == old(State()).(used := old(State()).used[b := false])
      ensures |bits| == |old(bits)|
    {
      if !bits[b] {
        halted := true;
        return;
      }
      bits := bits[b := false];
      assert State().used == old(State()).used[b := false];
    }

    // Free the block that a slot points at, if there is one.
    method FreeSlot(ghost fs: Fs, s: Slot, p: nat)
      requires Owned(fs) && s.Ok(fs) && p == Ptr(fs, s) && |fs.blocks| == |blocks| <= |bits| && !halted
      requires FreedUpTo(fs, s.ino, State().used, Rank(s))
      modifies `bits, `halted
      ensures !halted && |bits| == |old(bits)|
      ensures FreedUpTo(fs, s.ino, State().used, Rank(s) + 1)
    {
      hide Owned, Ptr, FreedUpTo, Rank;
      if p != 0 {
        FreeStep(fs, State().used, s);
        Bfree(p);
      } else {
        FreeSkipOne(fs, State().used, s);
      }
    }

    // The blocks below second-level slot j, and then the second-level block.
    method FreeMid(ghost fs: Fs, ino: nat, j: nat, mid: nat)
      requires Owned(fs) && ino < |fs.inodes| && j < NINDIRECT && mid == Ptr(fs, Mid(ino, j)) != 0
      requires fs.blocks == blocks && |blocks| <= |bits| && mid < |blocks| && !halted
      requires FreedUpTo(fs, ino, State().used, NDIRECT + j * PER_MID)
      modifies `bits, `halted
      ensures !halted && |bits| == |old(bits)|
      ensures FreedUpTo(fs, ino, State().used, NDIRECT + (j + 1) * PER_MID)
    {
      hide Owned, Ptr, FreedUpTo;
      var y := 0;
      while y < NINDIRECT
        invariant 0 <= y <= NINDIRECT && !halted && |bits| == |old(bits)|
        invariant FreedUpTo(fs, ino, State().used, NDIRECT + j * PER_MID + y)
      {
        LeafWord(fs, ino, j, y);
        FreeSlot(fs, Leaf(ino, j, y), Word(blocks[mid], y));
        y := y + 1;
      }
      FreeSlot(fs, Mid(ino, j), mid);
    }

    // Everything below the top block, and then the top block.
    method FreeTop(ghost fs: Fs, ino: nat, top: nat)
      requires Owned(fs) && ino < |fs.inodes| && top == Ptr(fs, Top(ino)) != 0
      requires fs.blocks == blocks && |blocks| <= |bits| && top < |blocks| && !halted
      requires FreedUpTo(fs, ino, State().used, NDIRECT)
      modifies `bits, `halted
      ensures !halted && |bits| == |old(bits)|
      ensures FreedUpTo(fs, ino, State().used, ALL)
    {
      hide Owned, Ptr, FreedUpTo;
      var j := 0;
      while j < NINDIRECT
        invariant 0 <= j <= NINDIRECT && !halted && |bits| == |old(bits)|
        invariant FreedUpTo(fs, ino, State().used, NDIRECT + j * PER_MID)
      {
        MidWord(fs, ino, j);
        var mid := Word(blocks[top], j);
        if mid != 0 {
          FreeMid(fs, ino, j, mid);
        } else {
          FreeSkipMid(fs, ino, State().used, j);
        }
        j := j + 1;
      }
      FreeSlot(fs, Top(ino), top);
    }

    /** itrunc: every block of the inode is freed, each exactly once, so that bfree never
        meets a free block; nothing else is freed and no other file changes. */
    method Itrunc(ino: nat)
      requires Ok() && FsFile.Valid(State()) && ino < |inodes|
      modifies `bits, `inodes, `halted
      ensures Ok() && FsFile.Valid(State()) && |inodes| == |old(inodes)|
      ensures forall b :: 0 <= b < |blocks| ==>
                State().used[b] == (old(State()).used[b] && !OwnedBy(old(State()), ino, b))
      ensures File(State(), ino) == []
      ensures forall i :: 0 <= i < |inodes| && i != ino ==> File(State(), i) == old(File(State(), i))
    {
      hide Owned, Ptr, FreedUpTo, File, FsFile.Valid, FreedBefore, OwnedBy;
      ghost var fs := State();
      ValidOwned(fs);
      FreedNothing(fs, ino);
      var top := FreeDirect(fs, ino);
      FieldPtr(fs, Top(ino));
      if top != 0 {
        FreeTop(fs, ino, top);
        inodes := inodes[ino := inodes[ino].(addrs := inodes[ino].addrs[NDIRECT := 0])];
      } else {
        FreeSkipTop(fs, ino, State().used);
      }
      inodes := inodes[ino := inodes[ino].(size := 0)];
      assert inodes[ino].addrs == EmptyInode().addrs;
      assert inodes == fs.inodes[ino := EmptyInode()];
      TruncationDone(fs, State(), ino);
    }

    // The direct blocks; returns the pointer to the top block.
    method FreeDirect(ghost fs: Fs, ino: nat) returns (top: nat)
      requires Owned(fs) && fs == State() && ino < |inodes| && |blocks| <= |bits| && !halted
      requires FreedUpTo(fs, ino, State().used, 0)
      modifies `bits, `inodes, `halted
      ensures !halted && |bits| == |old(bits)| && |inodes| == |old(inodes)|
      ensures FreedUpTo(fs, ino, State().used, NDIRECT)
      ensures top == fs.inodes[ino].addrs[NDIRECT]
      ensures forall i :: 0 <= i < |inodes| && i != ino ==> inodes[i] == old(inodes[i])
      ensures |inodes[ino].addrs| == NDIRECT + 1 && inodes[ino].addrs[NDIRECT] == top
              && inodes[ino].size == fs.inodes[ino].size
      ensures forall t :: 0 <= t < NDIRECT ==> inodes[ino].addrs[t] == 0
    {
      hide Ptr, FreedUpTo;
      var i := 0;
      while i < NDIRECT
        invariant 0 <= i <= NDIRECT && !halted && |bits| == |old(bits)| && |inodes| == |old(inodes)|
        invariant FreedUpTo(fs, ino, State().used, i)
        invariant forall t :: 0 <= t < |inodes| && t != ino ==> inodes[t] == old(inodes[t])
        invariant |inodes[ino].addrs| == NDIRECT + 1 && inodes[ino].size == fs.inodes[ino].size
        invariant forall t :: 0 <= t < NDIRECT + 1 ==>
                    inodes[ino].addrs[t] == if t < i then 0 else fs.inodes[ino].addrs[t]
      {
        FieldPtr(fs, Direct(ino, i));
        FreeSlot(fs, Direct(ino, i), inodes[ino].addrs[i]);
        inodes := inodes[ino := inodes[ino].(addrs := inodes[ino].addrs[i := 0])];
        i := i + 1;
      }
      top := inodes[ino].addrs[NDIRECT];
    }

    /** filewrite on an inode: the chunks together write what a single writei would.  If a
        chunk is refused, or the system stops, what came before it is written. */
    method FileWrite(ino: nat, src: seq<Byte>, off0: nat) returns (r: int, off: nat)
      requires Ok() && FsFile.Valid(State()) && ino < |inodes| && |src| < WORD
      requires off0 < WORD
      modifies this
      ensures halted ==> NoBlock()
      ensures !halted ==> off0 <= off <= off0 + |src| && r == (if off == off0 + |src| then |src| else -1)
      ensures !halted ==> Ok() && FsFile.Valid(State()) && |inodes| == |old(inodes)|
      ensures !halted && off > off0 ==>
                && off0 <= |old(File(State(), ino))|
                && File(State(), ino) == Overwritten(old(File(State(), ino)), off0, src[..off - off0])
      ensures !halted && off == off0 ==> State() == old(State())
      ensures !halted ==> forall i :: 0 <= i < |inodes| && i != ino ==> File(State(), i) == old(File(State(), i))
      ensures !halted && src != [] && off0 <= |old(File(State(), ino))| && off0 + |src| <= MAXFILE * BSIZE ==>
                off == off0 + |src|
    {
      hide Owned, File, FsFile.Valid, Bitmap, Overwritten, Wrote;
      r, off := -1, off0;
      ghost var was := File(State(), ino);
      FileSize(State(), ino);
      var max := (MAXOPBLOCKS - 1 - 1 - 2) / 2 * BSIZE;
      var i := 0;
      while i < |src|
        invariant 0 <= i <= |src| && off == off0 + i && Ok() && FsFile.Valid(State()) && ino < |inodes| == |old(inodes)|
        invariant off < WORD
        invariant i == 0 ==> State() == old(State())
        invariant i > 0 ==> off0 <= |was| && File(State(), ino) == Overwritten(was, off0, src[..i])
        invariant forall t :: 0 <= t < |inodes| && t != ino ==> File(State(), t) == old(File(State(), t))
      {
        var n1 := if |src| - i > max then max else |src| - i;
        var chunk := src[i..i + n1];
        ghost var before := File(State(), ino);
        FileSize(State(), ino);
        if i > 0 { OverwrittenLength(was, off0, src[..i]); }
        var w := Writei(ino, chunk, off);
        if halted { return; }
        if w < 0 { break; }
        assert src[..i + n1] == src[..i] + chunk;
        if i > 0 { OverwriteTwice(was, off0, src[..i], chunk); } else { assert src[..n1] == chunk; }
        off := off + w;
        i := i + w;
      }
      r := if i == |src| then |src| else -1;
    }
  }

  lemma NothingOwned(fs: Fs)
    requires fs.Shaped() && fs.used[0] && forall i :: 0 <= i < |fs.inodes| ==> fs.inodes[i] == EmptyInode()
    ensures FsFile.Valid(fs)
  {
    forall s: Slot | s.Ok(fs) ensures Ptr(fs, s) == 0 {
    }
  }

  lemma OwnedZero(fs: Fs)
    requires Owned(fs)
    ensures fs.Shaped() && fs.used[0]
  {
  }

  lemma ExtendsSelf(fs: Fs)
    requires Owned(fs)
    ensures Extends(fs, fs)
  {
  }

  lemma GrowFacts(fs: Fs, s: Slot, b: nat)
    requires Owned(fs) && s.Ok(fs) && Ptr(fs, s) == 0 && 0 < b < |fs.blocks| && !fs.used[b]
    requires (s.Mid? ==> Ptr(fs, Top(s.ino)) != 0) && (s.Leaf? ==> Ptr(fs, Mid(s.ino, s.j)) != 0)
    ensures var f := Allocated(fs, b);
            && f.Shaped() && s.Ok(f) && |f.blocks| == |fs.blocks|
            && (s.Mid? ==> 0 < Ptr(f, Top(s.ino)) < |f.blocks|)
              && (s.Leaf? ==> 0 < Ptr(f, Mid(s.ino, s.j)) < |f.blocks|)
            && Owned(SetSlot(f, s, b)) && Extends(fs, SetSlot(f, s, b)) && s.Ok(SetSlot(f, s, b))
            && Ptr(SetSlot(f, s, b), s) == b && |SetSlot(f, s, b).blocks| == |fs.blocks|
  {
    hide Owned, Ptr, SetSlot, Extends;
    AllocatedFresh(fs, b);
    GrowRoom(fs, s, b);
    GrowLinks(fs, s, b);
    GrowExtends(fs, s, b);
  }

  lemma GrowRoom(fs: Fs, s: Slot, b: nat)
    requires Owned(fs) && Empty(fs, s) && 0 < b < |fs.blocks| && !fs.used[b]
    ensures var f := Allocated(fs, b);
            && f.Shaped() && s.Ok(f)
            && (s.Mid? ==> 0 < Ptr(f, Top(s.ino)) < |f.blocks|)
              && (s.Leaf? ==> 0 < Ptr(f, Mid(s.ino, s.j)) < |f.blocks|)
  {
    AllocatedFresh(fs, b);
    assert s.Mid? ==> Top(s.ino).Ok(fs);
    assert s.Leaf? ==> Mid(s.ino, s.j).Ok(fs);
  }

  lemma LeafNeedsParents(fs: Fs, ino: nat, j: nat, y: nat)
    requires Owned(fs) && ino < |fs.inodes| && j < NINDIRECT && y < NINDIRECT
    ensures Ptr(fs, Leaf(ino, j, y)) != 0 ==> Ptr(fs, Mid(ino, j)) != 0 && Ptr(fs, Top(ino)) != 0
  {
  }

  lemma BackedByte(fs: Fs, ino: nat, k: nat)
    requires FsFile.Valid(fs) && ino < |fs.inodes| && k < fs.inodes[ino].size
    ensures k < MAXFILE * BSIZE && BlockPtr(fs, ino, k / BSIZE) != 0
  {
  }

  lemma BlockInRange(fs: Fs, ino: nat, bn: nat)
    requires Owned(fs) && ino < |fs.inodes| && bn < MAXFILE
    ensures BlockPtr(fs, ino, bn) < |fs.blocks| && fs.At(BlockPtr(fs, ino, bn)) == fs.blocks[BlockPtr(fs, ino, bn)]
  {
    DataSlotOk(fs, ino, bn);
  }

  lemma ReadStep(fs: Fs, ino: nat, k: nat, m: nat)
    requires FsFile.Valid(fs) && ino < |fs.inodes| && k + m <= fs.inodes[ino].size && k < MAXFILE * BSIZE
             && k % BSIZE + m <= BSIZE
    ensures fs.At(BlockPtr(fs, ino, k / BSIZE))[k % BSIZE..k % BSIZE + m] == File(fs, ino)[k..k + m]
  {
    hide Ptr, BlockPtr, Backed;
    var o := k % BSIZE;
    var data, slice := fs.At(BlockPtr(fs, ino, k / BSIZE))[o..o + m], File(fs, ino)[k..k + m];
    forall t | 0 <= t < m ensures data[t] == slice[t] {
      assert (k + t) / BSIZE == k / BSIZE && (k + t) % BSIZE == o + t;
    }
  }

  lemma WroteSizes(fs0: Fs, fs: Fs, ino: nat, off: nat, src: seq<Byte>, tot: nat)
    requires Wrote(fs0, fs, ino, off, src, tot)
    ensures |fs.inodes| == |fs0.inodes| && ino < |fs.inodes| && fs.inodes[ino].size == fs0.inodes[ino].size
    ensures off <= fs0.inodes[ino].size && fs.Shaped()
  {
  }

  lemma ValidOwned(fs: Fs)
    requires FsFile.Valid(fs)
    ensures Owned(fs)
  {
  }

  lemma LeafWord(fs: Fs, ino: nat, j: nat, y: nat)
    requires Owned(fs) && ino < |fs.inodes| && j < NINDIRECT && y < NINDIRECT && Ptr(fs, Mid(ino, j)) != 0
    ensures Ptr(fs, Mid(ino, j)) < |fs.blocks|
    ensures Ptr(fs, Leaf(ino, j, y)) == Word(fs.blocks[Ptr(fs, Mid(ino, j))], y)
  {
    assert Mid(ino, j).Ok(fs);
  }

  lemma MidWord(fs: Fs, ino: nat, j: nat)
    requires Owned(fs) && ino < |fs.inodes| && j < NINDIRECT && Ptr(fs, Top(ino)) != 0
    ensures Ptr(fs, Top(ino)) < |fs.blocks| && Ptr(fs, Mid(ino, j)) < |fs.blocks|
    ensures Ptr(fs, Mid(ino, j)) == Word(fs.blocks[Ptr(fs, Top(ino))], j)
  {
    assert Top(ino).Ok(fs) && Mid(ino, j).Ok(fs);
  }

  lemma FieldPtr(fs: Fs, s: Slot)
    requires Owned(fs) && s.Ok(fs) && (s.Direct? || s.Top?)
    ensures Ptr(fs, s) == fs.inodes[s.ino].addrs[if s.Direct? then s.i else NDIRECT] && Ptr(fs, s) < |fs.blocks|
  {
  }

  lemma TruncationDone(fs: Fs, fs': Fs, ino: nat)
    requires FsFile.Valid(fs) && ino < |fs.inodes| && fs'.blocks == fs.blocks
             && fs'.inodes == fs.inodes[ino := EmptyInode()]
    requires FreedUpTo(fs, ino, fs'.used, ALL)
    ensures FsFile.Valid(fs') && Owned(fs') && File(fs', ino) == []
    ensures forall i :: 0 <= i < |fs.inodes| && i != ino ==> File(fs', i) == File(fs, i)
    ensures forall b :: 0 <= b < |fs.blocks| ==> fs'.used[b] == (fs.used[b] && !OwnedBy(fs, ino, b))
  {
    forall b | 0 <= b < |fs.blocks| ensures fs'.used[b] == (fs.used[b] && !OwnedBy(fs, ino, b)) {
      AllIsAll(fs, ino, b);
    }
    assert Truncated(fs, fs', ino);
    TruncatedFiles(fs, fs', ino);
  }

  lemma FileSize(fs: Fs, ino: nat)
    requires FsFile.Valid(fs) && ino < |fs.inodes|
    ensures |File(fs, ino)| == fs.inodes[ino].size <= MAXFILE * BSIZE
  {
  }

  lemma OverwrittenLength(c: seq<Byte>, off: nat, src: seq<Byte>)
    requires off <= |c|
    ensures |Overwritten(c, off, src)| == Max(|c|, off + |src|)
  {
  }

  /** Two writes that follow on from each other are one write. */
  lemma OverwriteTwice(c: seq<Byte>, off: nat, a: seq<Byte>, b: seq<Byte>)
    requires off <= |c|
    ensures off + |a| <= |Overwritten(c, off, a)|
    ensures Overwritten(Overwritten(c, off, a), off + |a|, b) == Overwritten(c, off, a + b)
  {
    var d := Overwritten(c, off, a);
    assert d[..off + |a|] == c[..off] + a;
    if off + |a| + |b| < |d| {
      assert d[off + |a| + |b|..] == c[off + |a| + |b|..];
    }
  }
}
