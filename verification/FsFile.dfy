/** Files as byte sequences over the pointer trees of FsTree (kern/fs.c). */
module FsFile {
  import opened Params
  import opened FsTree

  /** The slot bmap consults for block bn of an inode. */
  function DataSlot(ino: nat, bn: nat): Slot {
    if bn < NDIRECT then Direct(ino, bn)
    else Leaf(ino, (bn - NDIRECT) / NINDIRECT, (bn - NDIRECT) % NINDIRECT)
  }

  /** Different block numbers use different slots. */
  lemma DataSlotInjective(ino: nat, bn: nat, bn': nat)
    requires DataSlot(ino, bn) == DataSlot(ino, bn')
    ensures bn == bn'
  {
  }

  /** The blocks of a file are the direct blocks, then those below second-level block 0, block 1 and
      so on, each in the order of its pointers. */
  lemma DataSlotAt(ino: nat, j: nat, y: nat)
    requires y < NINDIRECT
    ensures j < NDIRECT ==> DataSlot(ino, j) == Direct(ino, j)
    ensures DataSlot(ino, NDIRECT + NINDIRECT * j + y) == Leaf(ino, j, y)
  {
  }

  lemma DataSlotOk(fs: Fs, ino: nat, bn: nat)
    requires ino < |fs.inodes| && bn < MAXFILE
    ensures DataSlot(ino, bn).Ok(fs) && DataSlot(ino, bn).Data()
  {
  }

  function BlockPtr(fs: Fs, ino: nat, bn: nat): nat
    requires fs.Shaped() && ino < |fs.inodes| && bn < MAXFILE
  {
    DataSlotOk(fs, ino, bn);
    Ptr(fs, DataSlot(ino, bn))
  }

  /** Different blocks of files, of one or of two, lie in different disk blocks. */
  lemma BlockPtrInjective(fs: Fs, ino: nat, bn: nat, ino': nat, bn': nat)
    requires Owned(fs) && ino < |fs.inodes| && ino' < |fs.inodes| && bn < MAXFILE && bn' < MAXFILE
    requires BlockPtr(fs, ino, bn) == BlockPtr(fs, ino', bn') != 0
    ensures ino == ino' && bn == bn'
  {
    DataSlotOk(fs, ino, bn);
    DataSlotOk(fs, ino', bn');
    assert DataSlot(ino, bn) == DataSlot(ino', bn');
    DataSlotInjective(ino, bn, bn');
  }

  function ByteAt(fs: Fs, ino: nat, k: nat): Byte
    requires fs.Shaped() && ino < |fs.inodes| && k < MAXFILE * BSIZE
  {
    fs.At(BlockPtr(fs, ino, k / BSIZE))[k % BSIZE]
  }

  /** Every block that holds a byte below n is allocated. */
  ghost predicate Backed(fs: Fs, ino: nat, n: nat)
    requires fs.Shaped() && ino < |fs.inodes| && n <= MAXFILE * BSIZE
  {
    forall k :: 0 <= k < n ==> BlockPtr(fs, ino, k / BSIZE) != 0
  }

  /** Blocks are owned once, and files have no holes. */
  ghost predicate Valid(fs: Fs) {
    && Owned(fs)
    && forall i :: 0 <= i < |fs.inodes| ==>
         fs.inodes[i].size <= MAXFILE * BSIZE && Backed(fs, i, fs.inodes[i].size)
  }

  /** The contents of a file. */
  ghost function File(fs: Fs, ino: nat): (r: seq<Byte>)
    requires Valid(fs) && ino < |fs.inodes|
    ensures |r| == fs.inodes[ino].size
  {
    seq(fs.inodes[ino].size, k requires 0 <= k < fs.inodes[ino].size => ByteAt(fs, ino, k))
  }

  // ----- extending the tree ---------------------------------------------------------

  lemma ExtendsByte(fs: Fs, fs': Fs, ino: nat, k: nat)
    requires Extends(fs, fs') && ino < |fs.inodes| && k < MAXFILE * BSIZE
    requires BlockPtr(fs, ino, k / BSIZE) != 0
    ensures BlockPtr(fs', ino, k / BSIZE) == BlockPtr(fs, ino, k / BSIZE) && ByteAt(fs', ino, k) == ByteAt(fs, ino, k)
  {
    DataSlotOk(fs, ino, k / BSIZE);
  }

  // ----- storing bytes in a data block ----------------------------------------------

  function Splice(b: Block, o: nat, data: seq<Byte>): (r: Block)
    requires o + |data| <= BSIZE
  {
    b[..o] + data + b[o + |data|..]
  }

  /** memmove into the buffer of block bn of inode ino, and log_write. */
  function Stored(fs: Fs, ino: nat, bn: nat, o: nat, data: seq<Byte>): (r: Fs)
    requires Owned(fs) && ino < |fs.inodes| && bn < MAXFILE && o + |data| <= BSIZE
    ensures r.Shaped() && r.inodes == fs.inodes && |r.blocks| == |fs.blocks|
  {
    var p := BlockPtr(fs, ino, bn);
    DataSlotOk(fs, ino, bn);
    fs.(blocks := fs.blocks[p := Splice(fs.blocks[p], o, data)])
  }

  lemma StoreKeepsPointers(fs: Fs, ino: nat, bn: nat, o: nat, data: seq<Byte>)
    requires Owned(fs) && ino < |fs.inodes| && bn < MAXFILE && o + |data| <= BSIZE && BlockPtr(fs, ino, bn) != 0
    ensures SamePointers(fs, Stored(fs, ino, bn, o, data))
    ensures forall s: Slot :: s.Ok(fs) ==> Ptr(Stored(fs, ino, bn, o, data), s) == Ptr(fs, s)
  {
    var g := Stored(fs, ino, bn, o, data);
    DataSlotOk(fs, ino, bn);
    assert SamePointers(fs, g);
    forall s: Slot | s.Ok(fs) ensures Ptr(g, s) == Ptr(fs, s) {
      PointersKept(fs, g, s);
    }
  }

  lemma StoreKeepsOwned(fs: Fs, ino: nat, bn: nat, o: nat, data: seq<Byte>)
    requires Owned(fs) && ino < |fs.inodes| && bn < MAXFILE && o + |data| <= BSIZE && BlockPtr(fs, ino, bn) != 0
    ensures Owned(Stored(fs, ino, bn, o, data))
  {
    hide Ptr;
    var g := Stored(fs, ino, bn, o, data);
    StoreKeepsPointers(fs, ino, bn, o, data);
    assert forall s: Slot :: s.Ok(fs) <==> s.Ok(g);
  }

  /** A store changes exactly the bytes it names, of exactly one file. */
  lemma StoreBytes(fs: Fs, ino: nat, bn: nat, o: nat, data: seq<Byte>, ino': nat, k: nat)
    requires Owned(fs) && ino < |fs.inodes| && bn < MAXFILE && o + |data| <= BSIZE && BlockPtr(fs, ino, bn) != 0
    requires ino' < |fs.inodes| && k < MAXFILE * BSIZE && BlockPtr(fs, ino', k / BSIZE) != 0
    ensures var g := Stored(fs, ino, bn, o, data);
            && g.Shaped() && BlockPtr(g, ino', k / BSIZE) == BlockPtr(fs, ino', k / BSIZE)
            && ByteAt(g, ino', k) ==
               if ino' == ino && bn * BSIZE + o <= k < bn * BSIZE + o + |data| then data[k - bn * BSIZE - o]
               else ByteAt(fs, ino', k)
  {
    StoreKeepsPointers(fs, ino, bn, o, data);
    DataSlotOk(fs, ino, bn);
    DataSlotOk(fs, ino', k / BSIZE);
    if BlockPtr(fs, ino', k / BSIZE) == BlockPtr(fs, ino, bn) {
      assert DataSlot(ino', k / BSIZE) == DataSlot(ino, bn);
      assert ino' == ino;
      DataSlotInjective(ino, k / BSIZE, bn);
    } else {
      assert ino' != ino || k / BSIZE != bn;
    }
  }

  // ----- a write in progress --------------------------------------------------------

  function Max(a: nat, b: nat): nat {
    if a < b then b else a
  }

  /** writei has stored src[..tot] at offset `off` of inode ino; sizes are not yet updated. */
  ghost predicate Wrote(fs0: Fs, fs: Fs, ino: nat, off: nat, src: seq<Byte>, tot: nat) {
    && Valid(fs0) && fs0.Shaped() && Owned(fs) && fs.Shaped() && |fs.inodes| == |fs0.inodes|
    && |fs.blocks| == |fs0.blocks| && ino < |fs.inodes|
    && (forall i :: 0 <= i < |fs.inodes| ==> fs.inodes[i].size == fs0.inodes[i].size)
    && tot <= |src| && off + tot <= MAXFILE * BSIZE && off <= fs0.inodes[ino].size
    && (forall k :: 0 <= k < Max(fs0.inodes[ino].size, off + tot) ==>
          && BlockPtr(fs, ino, k / BSIZE) != 0
          && ByteAt(fs, ino, k) == if off <= k < off + tot then src[k - off] else ByteAt(fs0, ino, k))
    && (forall i, k :: 0 <= i < |fs.inodes| && i != ino && 0 <= k < fs0.inodes[i].size ==>
          BlockPtr(fs, i, k / BSIZE) != 0 && ByteAt(fs, i, k) == ByteAt(fs0, i, k))
  }

  lemma WroteExtends(fs0: Fs, fs: Fs, fs': Fs, ino: nat, off: nat, src: seq<Byte>, tot: nat)
    requires Wrote(fs0, fs, ino, off, src, tot) && Extends(fs, fs') && Owned(fs')
    ensures Wrote(fs0, fs', ino, off, src, tot)
  {
    hide Owned, Extends, BlockPtr, ByteAt;
    ExtendsShape(fs, fs');
    forall k | 0 <= k < Max(fs0.inodes[ino].size, off + tot)
      ensures BlockPtr(fs', ino, k / BSIZE) != 0 && ByteAt(fs', ino, k) == ByteAt(fs, ino, k)
    {
      ExtendsByte(fs, fs', ino, k);
    }
    forall i, k | 0 <= i < |fs.inodes| && i != ino && 0 <= k < fs0.inodes[i].size
      ensures BlockPtr(fs', i, k / BSIZE) != 0 && ByteAt(fs', i, k) == ByteAt(fs, i, k)
    {
      ExtendsByte(fs, fs', i, k);
    }
  }

  lemma ExtendsShape(fs: Fs, fs': Fs)
    requires Extends(fs, fs')
    ensures fs.Shaped() && fs'.Shaped() && |fs'.inodes| == |fs.inodes| && |fs'.blocks| == |fs.blocks|
    ensures forall i :: 0 <= i < |fs.inodes| ==> fs'.inodes[i].size == fs.inodes[i].size
  {
  }

  lemma WroteStep(fs0: Fs, fs: Fs, ino: nat, off: nat, src: seq<Byte>, tot: nat, m: nat)
    requires Wrote(fs0, fs, ino, off, src, tot) && tot + m <= |src| && off + tot + m <= MAXFILE * BSIZE
    requires (off + tot) / BSIZE < MAXFILE && (off + tot) % BSIZE + m <= BSIZE
    requires BlockPtr(fs, ino, (off + tot) / BSIZE) != 0
    ensures Wrote(fs0, Stored(fs, ino, (off + tot) / BSIZE, (off + tot) % BSIZE, src[tot..tot + m]), ino, off, src,
                  tot + m)
  {
    hide Owned, BlockPtr, ByteAt, Ptr;
    var bn, o, data := (off + tot) / BSIZE, (off + tot) % BSIZE, src[tot..tot + m];
    var g := Stored(fs, ino, bn, o, data);
    assert bn * BSIZE + o == off + tot;
    StoreKeepsOwned(fs, ino, bn, o, data);
    forall k | 0 <= k < Max(fs0.inodes[ino].size, off + tot + m)
      ensures BlockPtr(g, ino, k / BSIZE) != 0
      ensures ByteAt(g, ino, k) == if off <= k < off + tot + m then src[k - off] else ByteAt(fs0, ino, k)
    {
      if k >= Max(fs0.inodes[ino].size, off + tot) { assert k / BSIZE == bn; }
      StoreBytes(fs, ino, bn, o, data, ino, k);
      if off + tot <= k < off + tot + m { assert data[k - bn * BSIZE - o] == src[k - off]; }
    }
    forall i, k | 0 <= i < |fs.inodes| && i != ino && 0 <= k < fs0.inodes[i].size
      ensures BlockPtr(g, i, k / BSIZE) != 0 && ByteAt(g, i, k) == ByteAt(fs0, i, k)
    {
      StoreBytes(fs, ino, bn, o, data, i, k);
    }
  }

  // iupdate's change of the size field.
  function Resized(fs: Fs, ino: nat, size: nat): (r: Fs)
    requires fs.Shaped() && ino < |fs.inodes|
    ensures r.Shaped()
  {
    fs.(inodes := fs.inodes[ino := fs.inodes[ino].(size := size)])
  }

  lemma ResizeKeepsOwned(fs: Fs, ino: nat, size: nat)
    requires Owned(fs) && ino < |fs.inodes|
    ensures Owned(Resized(fs, ino, size))
  {
    var g := Resized(fs, ino, size);
    assert forall s: Slot :: s.Ok(fs) <==> s.Ok(g);
    assert forall s: Slot :: s.Ok(fs) ==> Ptr(g, s) == Ptr(fs, s);
  }

  lemma ResizedByte(fs: Fs, ino: nat, size: nat, i: nat, k: nat)
    requires Owned(fs) && ino < |fs.inodes| && i < |fs.inodes| && k < MAXFILE * BSIZE
    ensures var g := Resized(fs, ino, size);
            BlockPtr(g, i, k / BSIZE) == BlockPtr(fs, i, k / BSIZE) && ByteAt(g, i, k) == ByteAt(fs, i, k)
  {
  }

  /** content[off..off+n) replaced by src, and the rest kept. */
  function Overwritten(content: seq<Byte>, off: nat, src: seq<Byte>): seq<Byte>
    requires off <= |content|
  {
    content[..off] + src + (if off + |src| < |content| then content[off + |src|..] else [])
  }

  /** Byte by byte: src from off on, the old content elsewhere. */
  lemma OverwrittenAt(content: seq<Byte>, off: nat, src: seq<Byte>, k: nat)
    requires off <= |content|
    ensures |Overwritten(content, off, src)| == Max(|content|, off + |src|)
    ensures k < Max(|content|, off + |src|) ==>
              Overwritten(content, off, src)[k] == if off <= k < off + |src| then src[k - off] else content[k]
  {
  }

  lemma WroteValid(fs0: Fs, fs: Fs, ino: nat, off: nat, src: seq<Byte>)
    requires Wrote(fs0, fs, ino, off, src, |src|)
    ensures Valid(Resized(fs, ino, Max(fs0.inodes[ino].size, off + |src|)))
  {
    hide Owned, BlockPtr, Ptr, ByteAt;
    var size := Max(fs0.inodes[ino].size, off + |src|);
    var g := Resized(fs, ino, size);
    ResizeKeepsOwned(fs, ino, size);
    forall i | 0 <= i < |g.inodes| ensures g.inodes[i].size <= MAXFILE * BSIZE && Backed(g, i, g.inodes[i].size) {
      forall k | 0 <= k < g.inodes[i].size ensures BlockPtr(g, i, k / BSIZE) != 0 {
        ResizedByte(fs, ino, size, i, k);
      }
    }
  }

  /** When everything is stored and the size is raised, the file is the old contents with
      src written over them at off, and no other file has changed. */
  lemma WroteAll(fs0: Fs, fs: Fs, ino: nat, off: nat, src: seq<Byte>)
    requires Wrote(fs0, fs, ino, off, src, |src|)
    ensures var g := Resized(fs, ino, Max(fs0.inodes[ino].size, off + |src|));
            && Valid(g) && File(g, ino) == Overwritten(File(fs0, ino), off, src)
            && forall i :: 0 <= i < |g.inodes| && i != ino ==> File(g, i) == File(fs0, i)
  {
    hide Owned, BlockPtr, Ptr, ByteAt, Backed;
    var size := Max(fs0.inodes[ino].size, off + |src|);
    var g := Resized(fs, ino, size);
    WroteValid(fs0, fs, ino, off, src);
    var was, now := File(fs0, ino), Overwritten(File(fs0, ino), off, src);
    forall k | 0 <= k < size ensures File(g, ino)[k] == now[k] {
      ResizedByte(fs, ino, size, ino, k);
    }
    assert File(g, ino) == now;
    forall i | 0 <= i < |g.inodes| && i != ino ensures File(g, i) == File(fs0, i) {
      OtherFile(fs0, fs, ino, off, src, i);
    }
  }

  lemma OtherFile(fs0: Fs, fs: Fs, ino: nat, off: nat, src: seq<Byte>, i: nat)
    requires Wrote(fs0, fs, ino, off, src, |src|) && i < |fs.inodes| && i != ino
    ensures var g := Resized(fs, ino, Max(fs0.inodes[ino].size, off + |src|));
            Valid(g) && File(g, i) == File(fs0, i)
  {
    hide Owned, BlockPtr, Ptr, ByteAt, Backed;
    var size := Max(fs0.inodes[ino].size, off + |src|);
    var g := Resized(fs, ino, size);
    WroteValid(fs0, fs, ino, off, src);
    forall k | 0 <= k < fs0.inodes[i].size ensures File(g, i)[k] == File(fs0, i)[k] {
      ResizedByte(fs, ino, size, i, k);
    }
  }

  lemma WroteNothing(fs: Fs, ino: nat, off: nat, src: seq<Byte>)
    requires Valid(fs) && ino < |fs.inodes| && off <= fs.inodes[ino].size
    ensures Wrote(fs, fs, ino, off, src, 0)
  {
    hide BlockPtr, ByteAt, Ptr;
  }
}
