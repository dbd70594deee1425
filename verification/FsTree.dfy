/** The kernel's inodes as pointer trees over disk blocks (kern/fs.c): eleven direct blocks
    and one doubly-indirect block whose 128 second-level blocks hold 128 pointers each. */
module FsTree {
  import opened Params

  const MAXFILE: nat := NDIRECT + NINDIRECT * NINDIRECT

  type Block = b: seq<Byte> | |b| == BSIZE witness seq(BSIZE, i => 0)

  function Zeroed(): Block {
    seq(BSIZE, i => 0)
  }

  // ----- blocks as arrays of 32-bit pointers (the 68000 stores the high byte first) ---

  function Word(b: Block, i: nat): nat
    requires i < NINDIRECT
  {
    (b[4 * i] as int) * 0x1000000 + (b[4 * i + 1] as int) * 0x10000 + (b[4 * i + 2] as int) * 0x100
      + b[4 * i + 3] as int
  }

  function PutWord(b: Block, i: nat, v: nat): (r: Block)
    requires i < NINDIRECT && v < 0x1_0000_0000
  {
    b[4 * i := v / 0x1000000][4 * i + 1 := v / 0x10000 % 0x100][4 * i + 2 := v / 0x100 % 0x100][4 * i + 3 := v % 0x100]
  }

  /** The high byte of a pointer comes first. */
  lemma WordBytes(b: Block, i: nat)
    requires i < NINDIRECT
    ensures b[4 * i] == b[4 * i + 1] == b[4 * i + 2] == 0 ==> Word(b, i) == b[4 * i + 3]
    ensures b[4 * i] == b[4 * i + 1] == b[4 * i + 3] == 0 ==> Word(b, i) == 0x100 * (b[4 * i + 2] as int)
    ensures b[4 * i] == b[4 * i + 2] == b[4 * i + 3] == 0 ==> Word(b, i) == 0x10000 * (b[4 * i + 1] as int)
    ensures b[4 * i + 1] == b[4 * i + 2] == b[4 * i + 3] == 0 ==> Word(b, i) == 0x1000000 * (b[4 * i] as int)
  {
  }

  lemma WordPut(b: Block, i: nat, v: nat, j: nat)
    requires i < NINDIRECT && j < NINDIRECT && v < 0x1_0000_0000
    ensures Word(PutWord(b, i, v), j) == if j == i then v else Word(b, j)
  {
    var r := PutWord(b, i, v);
    if j == i {
      assert r[4 * i] == v / 0x1000000 && r[4 * i + 1] == v / 0x10000 % 0x100;
      assert r[4 * i + 2] == v / 0x100 % 0x100 && r[4 * i + 3] == v % 0x100;
      Digits(v);
    } else {
      assert r[4 * j] == b[4 * j] && r[4 * j + 1] == b[4 * j + 1];
      assert r[4 * j + 2] == b[4 * j + 2] && r[4 * j + 3] == b[4 * j + 3];
    }
  }

  lemma Digits(v: nat)
    ensures v / 0x1000000 * 0x1000000 + v / 0x10000 % 0x100 * 0x10000 + v / 0x100 % 0x100 * 0x100 + v % 0x100 == v
  {
    assert v / 0x10000 / 0x100 == v / 0x1000000 && v / 0x100 / 0x100 == v / 0x10000;
  }

  lemma WordZero(i: nat)
    requires i < NINDIRECT
    ensures Word(Zeroed(), i) == 0
  {
  }

  // ----- the state ------------------------------------------------------------------

  datatype Inode = Inode(addrs: seq<nat>, size: nat)

  /** `used` is the free map, `blocks` the disk, `inodes` the inode table. */
  datatype Fs = Fs(used: seq<bool>, blocks: seq<Block>, inodes: seq<Inode>) {
    predicate Shaped() {
      && |used| == |blocks| <= 0x1_0000_0000 && |blocks| > 0
      && forall i :: 0 <= i < |inodes| ==> |inodes[i].addrs| == NDIRECT + 1
    }

    // Pointer values must be block numbers before they are followed.
    function At(p: nat): Block
      requires Shaped()
    {
      if p < |blocks| then blocks[p] else Zeroed()
    }
  }

  /** A place that can hold a pointer to a block of inode `ino`. */
  datatype Slot = Direct(ino: nat, i: nat) | Top(ino: nat) | Mid(ino: nat, j: nat) | Leaf(ino: nat, j: nat, y: nat) {
    predicate Ok(fs: Fs) {
      && ino < |fs.inodes|
      && match this
         case Direct(_, i) => i < NDIRECT
         case Top(_) => true
         case Mid(_, j) => j < NINDIRECT
         case Leaf(_, j, y) => j < NINDIRECT && y < NINDIRECT
    }

    // Slots whose block holds file data.
    predicate Data() {
      Direct? || Leaf?
    }
  }

  /** The pointer in a slot; 0 if there is none. */
  function Ptr(fs: Fs, s: Slot): nat
    requires fs.Shaped() && s.Ok(fs)
  {
    var a := fs.inodes[s.ino].addrs;
    match s
    case Direct(_, i) => a[i]
    case Top(_) => a[NDIRECT]
    case Mid(_, j) => MidPtr(fs, a[NDIRECT], j)
    case Leaf(_, j, y) => MidPtr(fs, MidPtr(fs, a[NDIRECT], j), y)
  }

  function MidPtr(fs: Fs, top: nat, j: nat): nat
    requires fs.Shaped() && j < NINDIRECT
  {
    if top == 0 then 0 else Word(fs.At(top), j)
  }

  /** Block ownership: a pointer names an existing block that the free map marks in use, and
      no block is owned twice, by whatever inodes. */
  ghost predicate Owned(fs: Fs) {
    && fs.Shaped() && fs.used[0]
    && (forall s: Slot :: s.Ok(fs) ==> Ptr(fs, s) < |fs.blocks| && fs.used[Ptr(fs, s)])
    && (forall s: Slot, t: Slot :: s.Ok(fs) && t.Ok(fs) && Ptr(fs, s) == Ptr(fs, t) && Ptr(fs, s) != 0 ==> s == t)
  }

  /** fs' is fs with pointer b put into the empty slot s0. */
  ghost predicate Linked(fs: Fs, fs': Fs, s0: Slot, b: nat) {
    && fs.Shaped() && fs'.Shaped() && |fs'.inodes| == |fs.inodes| && s0.Ok(fs)
    && forall s: Slot :: s.Ok(fs) ==> Ptr(fs', s) == if s == s0 then b else Ptr(fs, s)
  }

  lemma LinkKeepsOwned(fs: Fs, fs': Fs, s0: Slot, b: nat)
    requires Owned(fs) && Linked(fs, fs', s0, b) && 0 < b < |fs.blocks| && !fs.used[b]
    requires fs'.used == fs.used[b := true]
    ensures Owned(fs')
  {
    forall s: Slot | s.Ok(fs') ensures Ptr(fs', s) < |fs'.blocks| && fs'.used[Ptr(fs', s)] {
      assert s.Ok(fs);
    }
    forall s: Slot, t: Slot | s.Ok(fs') && t.Ok(fs') && Ptr(fs', s) == Ptr(fs', t) && Ptr(fs', s) != 0 ensures s == t {
      assert s.Ok(fs) && t.Ok(fs);
    }
  }

  /** fs' differs from fs only in free blocks and blocks that hold file data. */
  ghost predicate SamePointers(fs: Fs, fs': Fs) {
    && fs.Shaped() && fs'.Shaped() && |fs'.blocks| == |fs.blocks| && fs'.inodes == fs.inodes
    && (forall s: Slot :: s.Ok(fs) && !s.Data() && Ptr(fs, s) != 0 ==> fs'.At(Ptr(fs, s)) == fs.At(Ptr(fs, s)))
  }

  lemma PointersKept(fs: Fs, fs': Fs, s: Slot)
    requires SamePointers(fs, fs') && s.Ok(fs)
    ensures Ptr(fs', s) == Ptr(fs, s)
  {
    match s
    case Direct(_, _) =>
    case Top(_) =>
    case Mid(ino, j) =>
      assert Top(ino).Ok(fs);
    case Leaf(ino, j, y) =>
      assert Top(ino).Ok(fs) && Mid(ino, j).Ok(fs);
      assert Ptr(fs', Mid(ino, j)) == Ptr(fs, Mid(ino, j));
  }

  // ----- allocating a block and linking it into the tree ----------------------------

  /** balloc's effect: the block is marked in use and zeroed. */
  function Allocated(fs: Fs, b: nat): (r: Fs)
    requires fs.Shaped() && b < |fs.blocks|
    ensures r.Shaped()
  {
    Fs(fs.used[b := true], fs.blocks[b := Zeroed()], fs.inodes)
  }

  lemma AllocationKeepsPointers(fs: Fs, b: nat)
    requires Owned(fs) && 0 < b < |fs.blocks| && !fs.used[b]
    ensures SamePointers(fs, Allocated(fs, b))
  {
  }

  /** The store that puts pointer b into slot s: an inode field or a word of an indirect block. */
  function SetSlot(fs: Fs, s: Slot, b: nat): (r: Fs)
    requires fs.Shaped() && s.Ok(fs) && b < |fs.blocks|
    requires s.Mid? ==> 0 < Ptr(fs, Top(s.ino)) < |fs.blocks|
    requires s.Leaf? ==> 0 < Ptr(fs, Mid(s.ino, s.j)) < |fs.blocks|
    ensures r.Shaped() && |r.inodes| == |fs.inodes| && |r.blocks| == |fs.blocks|
  {
    match s
    case Direct(ino, i) => fs.(inodes := fs.inodes[ino := fs.inodes[ino].(addrs := fs.inodes[ino].addrs[i := b])])
    case Top(ino) => fs.(inodes := fs.inodes[ino := fs.inodes[ino].(addrs := fs.inodes[ino].addrs[NDIRECT := b])])
    case Mid(ino, j) =>
      var top := Ptr(fs, Top(ino));
      fs.(blocks := fs.blocks[top := PutWord(fs.blocks[top], j, b)])
    case Leaf(ino, j, y) =>
      var mid := Ptr(fs, Mid(ino, j));
      fs.(blocks := fs.blocks[mid := PutWord(fs.blocks[mid], y, b)])
  }

  // Slot s can take a pointer: it is empty, and the block it lives in exists.
  predicate Empty(fs: Fs, s: Slot)
    requires fs.Shaped()
  {
    && s.Ok(fs) && Ptr(fs, s) == 0
    && (s.Mid? ==> Ptr(fs, Top(s.ino)) != 0) && (s.Leaf? ==> Ptr(fs, Mid(s.ino, s.j)) != 0)
  }

  // A zeroed block that no pointer names.
  ghost predicate Fresh(fs: Fs, b: nat) {
    && fs.Shaped() && 0 < b < |fs.blocks| && fs.blocks[b] == Zeroed()
    && forall s: Slot :: s.Ok(fs) ==> Ptr(fs, s) != b
  }

  lemma AllocatedFresh(fs: Fs, b: nat)
    requires Owned(fs) && 0 < b < |fs.blocks| && !fs.used[b]
    ensures var f := Allocated(fs, b);
            Owned(f) && Fresh(f, b) && forall s: Slot :: s.Ok(fs) ==> Ptr(f, s) == Ptr(fs, s)
  {
    var f := Allocated(fs, b);
    AllocationKeepsPointers(fs, b);
    forall s: Slot | s.Ok(fs) ensures Ptr(f, s) == Ptr(fs, s) {
      PointersKept(fs, f, s);
    }
    hide Ptr;
    assert forall s: Slot :: s.Ok(fs) <==> s.Ok(f);
  }

  // Linking through an inode field: the new block is zeroed, so nothing appears below it.
  lemma LinkField(f: Fs, s0: Slot, b: nat, s: Slot)
    requires Owned(f) && Empty(f, s0) && (s0.Direct? || s0.Top?) && Fresh(f, b) && s.Ok(f)
    ensures Ptr(SetSlot(f, s0, b), s) == if s == s0 then b else Ptr(f, s)
  {
    if s.Mid? || s.Leaf? { WordZero(s.j); }
  }

  // Linking through a word of block h, which only the slot `host` names.
  lemma LinkMidSlot(f: Fs, s0: Slot, b: nat, ino: nat, j: nat)
    requires Owned(f) && Empty(f, s0) && (s0.Mid? || s0.Leaf?) && Fresh(f, b) && Mid(ino, j).Ok(f)
    ensures Ptr(SetSlot(f, s0, b), Mid(ino, j)) == if s0 == Mid(ino, j) then b else Ptr(f, Mid(ino, j))
  {
    var host := if s0.Mid? then Top(s0.ino) else Mid(s0.ino, s0.j);
    assert host.Ok(f) && Top(ino).Ok(f);
    var h := Ptr(f, host);
    if Ptr(f, Top(ino)) == h {
      assert Top(ino) == host;
      WordPut(f.blocks[h], s0.j, b, j);
    }
  }

  lemma LinkLeafSlot(f: Fs, s0: Slot, b: nat, ino: nat, j: nat, y: nat)
    requires Owned(f) && Empty(f, s0) && (s0.Mid? || s0.Leaf?) && Fresh(f, b) && Leaf(ino, j, y).Ok(f)
    ensures Ptr(SetSlot(f, s0, b), Leaf(ino, j, y)) == if s0 == Leaf(ino, j, y) then b else Ptr(f, Leaf(ino, j, y))
  {
    LinkMidSlot(f, s0, b, ino, j);
    var host := if s0.Mid? then Top(s0.ino) else Mid(s0.ino, s0.j);
    assert host.Ok(f) && Mid(ino, j).Ok(f);
    var h := Ptr(f, host);
    if s0 == Mid(ino, j) {
      WordZero(y);
    } else if Ptr(f, Mid(ino, j)) == h {
      assert Mid(ino, j) == host;
      WordPut(f.blocks[h], s0.y, b, y);
    }
  }

  lemma LinkSlot(f: Fs, s0: Slot, b: nat)
    requires Owned(f) && Empty(f, s0) && Fresh(f, b)
    ensures Linked(f, SetSlot(f, s0, b), s0, b)
  {
    forall s: Slot | s.Ok(f) ensures Ptr(SetSlot(f, s0, b), s) == if s == s0 then b else Ptr(f, s) {
      if s0.Direct? || s0.Top? {
        LinkField(f, s0, b, s);
      } else if s.Mid? {
        LinkMidSlot(f, s0, b, s.ino, s.j);
      } else if s.Leaf? {
        LinkLeafSlot(f, s0, b, s.ino, s.j, s.y);
      }
    }
  }

  /** balloc followed by the store that links the block in. */
  function Grown(fs: Fs, s0: Slot, b: nat): (r: Fs)
    requires Owned(fs) && Empty(fs, s0) && 0 < b < |fs.blocks| && !fs.used[b]
  {
    AllocatedFresh(fs, b);
    SetSlot(Allocated(fs, b), s0, b)
  }

  lemma GrowLinks(fs: Fs, s0: Slot, b: nat)
    requires Owned(fs) && Empty(fs, s0) && 0 < b < |fs.blocks| && !fs.used[b]
    ensures Linked(fs, Grown(fs, s0, b), s0, b) && Owned(Grown(fs, s0, b))
  {
    AllocatedFresh(fs, b);
    var f := Allocated(fs, b);
    LinkSlot(f, s0, b);
    hide Ptr, Fresh, SetSlot;
    assert forall s: Slot :: s.Ok(fs) <==> s.Ok(f);
    LinkKeepsOwned(fs, Grown(fs, s0, b), s0, b);
  }

  /** fs' has every pointer of fs, data blocks keep their contents, and a data block that
      appears is zeroed. */
  ghost predicate Extends(fs: Fs, fs': Fs) {
    && fs.Shaped() && fs'.Shaped() && |fs'.inodes| == |fs.inodes| && |fs'.blocks| == |fs.blocks|
    && (forall i :: 0 <= i < |fs.inodes| ==> fs'.inodes[i].size == fs.inodes[i].size)
    && (forall s: Slot :: s.Ok(fs) && Ptr(fs, s) != 0 ==> Ptr(fs', s) == Ptr(fs, s))
    && (forall s: Slot :: s.Ok(fs) && s.Data() && Ptr(fs', s) != 0 ==>
          fs'.At(Ptr(fs', s)) == if Ptr(fs, s) != 0 then fs.At(Ptr(fs, s)) else Zeroed())
  }

  lemma ExtendsTrans(a: Fs, b: Fs, c: Fs)
    requires Extends(a, b) && Extends(b, c)
    ensures Extends(a, c)
  {
    hide Ptr;
    assert forall s: Slot :: s.Ok(a) <==> s.Ok(b);
  }

  lemma GrowBlocks(fs: Fs, s0: Slot, b: nat, s: Slot)
    requires Owned(fs) && Empty(fs, s0) && 0 < b < |fs.blocks| && !fs.used[b]
    requires s.Ok(fs) && s.Data() && (s == s0 || Ptr(fs, s) != 0)
    ensures var g := Grown(fs, s0, b);
            g.Shaped() && |g.blocks| == |fs.blocks|
            && (if s == s0 then g.At(b) == Zeroed() else g.At(Ptr(fs, s)) == fs.At(Ptr(fs, s)))
  {
    AllocatedFresh(fs, b);
    if s0.Mid? || s0.Leaf? {
      var host := if s0.Mid? then Top(s0.ino) else Mid(s0.ino, s0.j);
      assert host.Ok(fs) && Ptr(Allocated(fs, b), host) == Ptr(fs, host);
      assert host != s;
    }
  }

  lemma GrowExtends(fs: Fs, s0: Slot, b: nat)
    requires Owned(fs) && Empty(fs, s0) && 0 < b < |fs.blocks| && !fs.used[b]
    ensures Extends(fs, Grown(fs, s0, b))
  {
    var g := Grown(fs, s0, b);
    GrowLinks(fs, s0, b);
    assert |g.blocks| == |fs.blocks| && forall i :: 0 <= i < |fs.inodes| ==> g.inodes[i].size == fs.inodes[i].size;
    hide Ptr, SetSlot, Allocated, Owned, Grown;
    forall s: Slot | s.Ok(fs) && s.Data() && Ptr(g, s) != 0
      ensures g.At(Ptr(g, s)) == if Ptr(fs, s) != 0 then fs.At(Ptr(fs, s)) else Zeroed()
    {
      GrowBlocks(fs, s0, b, s);
    }
  }
}
