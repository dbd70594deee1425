/** Giving an inode's blocks back (kern/fs.c, itrunc): what has been freed when the walk over
    the pointer tree has come to a given place. */
module FsTrunc {
  import opened Params
  import opened FsTree
  import opened FsFile

  const PER_MID: nat := NINDIRECT + 1
  const ALL: nat := NDIRECT + NINDIRECT * PER_MID + 1

  /** The order in which itrunc frees: direct blocks; then for each second-level block the
      blocks below it and the block itself; the top block last. */
  function Rank(s: Slot): nat {
    match s
    case Direct(_, i) => i
    case Leaf(_, j, y) => NDIRECT + j * PER_MID + y
    case Mid(_, j) => NDIRECT + j * PER_MID + NINDIRECT
    case Top(_) => NDIRECT + NINDIRECT * PER_MID
  }

  lemma RankInjective(fs: Fs, s: Slot, t: Slot)
    requires s.Ok(fs) && t.Ok(fs) && s.ino == t.ino && Rank(s) == Rank(t)
    ensures s == t
  {
  }

  /** b is a block of inode ino that comes before place r in the walk. */
  ghost predicate FreedBefore(fs: Fs, ino: nat, r: nat, b: nat)
    requires fs.Shaped()
  {
    b != 0 && exists s: Slot :: s.Ok(fs) && s.ino == ino && Rank(s) < r && Ptr(fs, s) == b
  }

  /** b is a block of inode ino. */
  ghost predicate OwnedBy(fs: Fs, ino: nat, b: nat)
    requires fs.Shaped()
  {
    b != 0 && exists s: Slot :: s.Ok(fs) && s.ino == ino && Ptr(fs, s) == b
  }

  /** The whole walk frees every block of the inode. */
  lemma AllIsAll(fs: Fs, ino: nat, b: nat)
    requires fs.Shaped()
    ensures FreedBefore(fs, ino, ALL, b) <==> OwnedBy(fs, ino, b)
  {
    hide Ptr;
    if OwnedBy(fs, ino, b) {
      var s: Slot :| s.Ok(fs) && s.ino == ino && Ptr(fs, s) == b;
      assert Rank(s) < ALL;
    }
  }

  /** Exactly the blocks of ino before place r have been freed. */
  ghost predicate FreedUpTo(fs: Fs, ino: nat, used: seq<bool>, r: nat) {
    && fs.Shaped() && |used| == |fs.used|
    && forall b :: 0 <= b < |used| ==> used[b] == (fs.used[b] && !FreedBefore(fs, ino, r, b))
  }

  lemma FreedNothing(fs: Fs, ino: nat)
    requires Owned(fs)
    ensures FreedUpTo(fs, ino, fs.used, 0)
  {
  }

  // Slots without a block leave nothing to do.
  lemma FreeSkips(fs: Fs, ino: nat, used: seq<bool>, r: nat, r': nat)
    requires FreedUpTo(fs, ino, used, r) && r <= r'
    requires forall s: Slot :: s.Ok(fs) && s.ino == ino && r <= Rank(s) < r' ==> Ptr(fs, s) == 0
    ensures FreedUpTo(fs, ino, used, r')
  {
    hide Ptr, Rank;
    forall b | 0 <= b < |used| ensures FreedBefore(fs, ino, r, b) == FreedBefore(fs, ino, r', b) {
    }
  }

  /** The next block of the walk is still marked in use, and freeing it is one step on. */
  lemma FreeStep(fs: Fs, used: seq<bool>, s: Slot)
    requires Owned(fs) && s.Ok(fs) && FreedUpTo(fs, s.ino, used, Rank(s)) && Ptr(fs, s) != 0
    ensures Ptr(fs, s) < |used| && used[Ptr(fs, s)]
    ensures FreedUpTo(fs, s.ino, used[Ptr(fs, s) := false], Rank(s) + 1)
  {
    var p, r := Ptr(fs, s), Rank(s);
    assert !FreedBefore(fs, s.ino, r, p);
    assert FreedBefore(fs, s.ino, r + 1, p);
    forall b | 0 <= b < |used| && b != p ensures FreedBefore(fs, s.ino, r, b) == FreedBefore(fs, s.ino, r + 1, b) {
      if FreedBefore(fs, s.ino, r + 1, b) {
        var t: Slot :| t.Ok(fs) && t.ino == s.ino && Rank(t) < r + 1 && Ptr(fs, t) == b;
        if Rank(t) == r { RankInjective(fs, s, t); }
      }
    }
  }

  /** Skipping one empty slot. */
  lemma FreeSkipOne(fs: Fs, used: seq<bool>, s: Slot)
    requires Owned(fs) && s.Ok(fs) && FreedUpTo(fs, s.ino, used, Rank(s)) && Ptr(fs, s) == 0
    ensures FreedUpTo(fs, s.ino, used, Rank(s) + 1)
  {
    forall t: Slot | t.Ok(fs) && t.ino == s.ino && Rank(s) <= Rank(t) < Rank(s) + 1 ensures Ptr(fs, t) == 0 {
      RankInjective(fs, s, t);
    }
    FreeSkips(fs, s.ino, used, Rank(s), Rank(s) + 1);
  }

  /** Nothing hangs below an empty second-level slot. */
  lemma FreeSkipMid(fs: Fs, ino: nat, used: seq<bool>, j: nat)
    requires Owned(fs) && ino < |fs.inodes| && j < NINDIRECT && Ptr(fs, Mid(ino, j)) == 0
    requires FreedUpTo(fs, ino, used, NDIRECT + j * PER_MID)
    ensures FreedUpTo(fs, ino, used, NDIRECT + (j + 1) * PER_MID)
  {
    forall t: Slot | t.Ok(fs) && t.ino == ino && NDIRECT + j * PER_MID <= Rank(t) < NDIRECT + (j + 1) * PER_MID
      ensures Ptr(fs, t) == 0
    {
      assert t == Mid(ino, j) || (t.Leaf? && t.j == j);
    }
    FreeSkips(fs, ino, used, NDIRECT + j * PER_MID, NDIRECT + (j + 1) * PER_MID);
  }

  lemma FreeSkipTop(fs: Fs, ino: nat, used: seq<bool>)
    requires Owned(fs) && ino < |fs.inodes| && Ptr(fs, Top(ino)) == 0
    requires FreedUpTo(fs, ino, used, NDIRECT)
    ensures FreedUpTo(fs, ino, used, ALL)
  {
    FreeSkips(fs, ino, used, NDIRECT, ALL);
  }

  // ----- the result -----------------------------------------------------------------

  function EmptyInode(): Inode {
    Inode(seq(NDIRECT + 1, i => 0), 0)
  }

  /** The state after itrunc. */
  ghost predicate Truncated(fs: Fs, fs': Fs, ino: nat) {
    && fs.Shaped() && fs'.Shaped() && ino < |fs.inodes|
    && fs'.blocks == fs.blocks && fs'.inodes == fs.inodes[ino := EmptyInode()]
    && FreedUpTo(fs, ino, fs'.used, ALL)
  }

  lemma TruncatedPtr(fs: Fs, fs': Fs, ino: nat, s: Slot)
    requires Truncated(fs, fs', ino) && s.Ok(fs)
    ensures Ptr(fs', s) == if s.ino == ino then 0 else Ptr(fs, s)
  {
  }

  /** Truncation clears exactly the bits of the blocks the inode owned, and every other
      inode still owns its own blocks. */
  lemma TruncatedOwned(fs: Fs, fs': Fs, ino: nat)
    requires Owned(fs) && Truncated(fs, fs', ino)
    ensures Owned(fs')
  {
    forall s: Slot | s.Ok(fs') ensures Ptr(fs', s) < |fs'.blocks| && fs'.used[Ptr(fs', s)] {
      TruncatedPtr(fs, fs', ino, s);
      if s.ino != ino {
        assert !FreedBefore(fs, ino, ALL, Ptr(fs, s));
      }
    }
    forall s: Slot, t: Slot | s.Ok(fs') && t.Ok(fs') && Ptr(fs', s) == Ptr(fs', t) && Ptr(fs', s) != 0 ensures s == t {
      TruncatedPtr(fs, fs', ino, s);
      TruncatedPtr(fs, fs', ino, t);
    }
  }

  lemma TruncatedFiles(fs: Fs, fs': Fs, ino: nat)
    requires FsFile.Valid(fs) && Truncated(fs, fs', ino)
    ensures FsFile.Valid(fs') && File(fs', ino) == []
    ensures forall i :: 0 <= i < |fs.inodes| && i != ino ==> File(fs', i) == File(fs, i)
  {
    TruncatedOwned(fs, fs', ino);
    forall i, k | 0 <= i < |fs.inodes| && i != ino && 0 <= k < fs.inodes[i].size
      ensures BlockPtr(fs', i, k / BSIZE) == BlockPtr(fs, i, k / BSIZE) && ByteAt(fs', i, k) == ByteAt(fs, i, k)
    {
      DataSlotOk(fs, i, k / BSIZE);
      TruncatedPtr(fs, fs', ino, DataSlot(i, k / BSIZE));
    }
    hide Owned, Ptr, BlockPtr, FreedUpTo;
    assert FsFile.Valid(fs');
    forall i | 0 <= i < |fs.inodes| && i != ino ensures File(fs', i) == File(fs, i) {
    }
  }
}
