/** A file of the 32-bit file system (32xvfs/fs.c): eleven direct blocks and one singly-indirect
    block, the free map they are taken from, the bytes they hold, and how many are missing. */
module VfsFile {
  import opened Params
  import opened BlockAlloc
  import FT = FsTree
  import FF = FsFile

  const SPAN: nat := 139                 // NDIRECT + NINDIRECT: the blocks bmap can address
  const LIMIT: nat := 71168              // SPAN * BSIZE
  const MAXSIZE: nat := 8394240          // (NDIRECT + NINDIRECT * NINDIRECT) * BSIZE: what writei checks

  /** The free map, the inode's pointers, the pointers in block addrs[NDIRECT], and the blocks. */
  datatype Vol = Vol(bits: seq<bool>, addrs: seq<nat>, indirect: seq<nat>, blocks: seq<FT.Block>) {
    predicate Shaped(size: nat) {
      Bitmap(bits, size) && |blocks| == size && |addrs| == NDIRECT + 1 && |indirect| == NINDIRECT
    }

    function Ptr(t: nat): nat
      requires t < SPAN && |addrs| == NDIRECT + 1 && |indirect| == NINDIRECT
    {
      if t < NDIRECT then addrs[t] else if addrs[NDIRECT] == 0 then 0 else indirect[t - NDIRECT]
    }

    function At(p: nat): FT.Block {
      if p < |blocks| then blocks[p] else FT.Zeroed()
    }
  }

  /** Every block of the file is in use, and used once. */
  ghost predicate Tree(v: Vol, size: nat) {
    && v.Shaped(size) && v.bits[0] && v.addrs[NDIRECT] < size && v.bits[v.addrs[NDIRECT]]
    && (forall t: nat :: t < SPAN ==>
          v.Ptr(t) < size && v.bits[v.Ptr(t)] && (v.Ptr(t) != 0 ==> v.Ptr(t) != v.addrs[NDIRECT]))
    && (forall t: nat, u: nat :: t < SPAN && u < SPAN && v.Ptr(t) == v.Ptr(u) && v.Ptr(t) != 0 ==> t == u)
  }

  /** Every block that holds a byte below n is allocated. */
  ghost predicate Backed(v: Vol, n: nat)
    requires |v.addrs| == NDIRECT + 1 && |v.indirect| == NINDIRECT
  {
    n <= LIMIT && forall t: nat :: t < SPAN && t * BSIZE < n ==> v.Ptr(t) != 0
  }

  function ByteAt(v: Vol, k: nat): Byte
    requires k < LIMIT && |v.addrs| == NDIRECT + 1 && |v.indirect| == NINDIRECT
  {
    v.At(v.Ptr(k / BSIZE))[k % BSIZE]
  }

  /** The first n bytes of the file. */
  ghost function Content(v: Vol, n: nat): (r: seq<Byte>)
    requires n <= LIMIT && |v.addrs| == NDIRECT + 1 && |v.indirect| == NINDIRECT
    ensures |r| == n
  {
    seq(n, k requires 0 <= k < n => ByteAt(v, k))
  }

  // ----- counting blocks ------------------------------------------------------------

  ghost function Free(bits: seq<bool>, n: nat): (r: nat)
    requires n <= |bits|
  {
    if n == 0 then 0 else Free(bits, n - 1) + (if bits[n - 1] then 0 else 1)
  }

  lemma {:induction false} FreeSet(bits: seq<bool>, n: nat, b: nat)
    requires n <= |bits| && b < |bits| && !bits[b]
    ensures Free(bits[b := true], n) == Free(bits, n) - (if b < n then 1 else 0)
  {
    if n > 0 { FreeSet(bits, n - 1, b); }
  }

  lemma {:induction false} FreeNone(bits: seq<bool>, n: nat)
    requires n <= |bits|
    ensures Free(bits, n) == 0 <==> AllSet(bits, 0, n)
  {
    if n > 0 { FreeNone(bits, n - 1); }
  }

  ghost function Gaps(v: Vol, b: nat, e: nat): (r: nat)
    requires e <= SPAN && |v.addrs| == NDIRECT + 1 && |v.indirect| == NINDIRECT
    decreases e - b
  {
    if b >= e then 0 else (if v.Ptr(b) == 0 then 1 else 0) + Gaps(v, b + 1, e)
  }

  lemma {:induction false} GapsSame(v: Vol, w: Vol, b: nat, e: nat)
    requires e <= SPAN && |v.addrs| == |w.addrs| == NDIRECT + 1 && |v.indirect| == |w.indirect| == NINDIRECT
    requires forall t: nat :: b <= t < e ==> w.Ptr(t) == v.Ptr(t)
    ensures Gaps(w, b, e) == Gaps(v, b, e)
    decreases e - b
  {
    if b < e { GapsSame(v, w, b + 1, e); }
  }

  /** The free blocks that are left over when blocks b..e of the file have been filled in, with
      the indirect block if they need one. */
  ghost function Slack(v: Vol, size: nat, b: nat, e: nat): int
    requires v.Shaped(size) && e <= SPAN
  {
    Free(v.bits, size) - Gaps(v, b, e) - (if e > NDIRECT && e > b && v.addrs[NDIRECT] == 0 then 1 else 0)
  }

  /** Filling in from b, in v, costs as much up to any end from lo on as filling in from c, in w. */
  ghost predicate Steady(v: Vol, b: nat, w: Vol, c: nat, size: nat, lo: nat) {
    && v.Shaped(size) && w.Shaped(size)
    && forall e :: lo <= e <= SPAN ==> Slack(w, size, c, e) == Slack(v, size, b, e)
  }

  /** No end from lo on can be reached. */
  ghost predicate Short(v: Vol, b: nat, size: nat, lo: nat) {
    v.Shaped(size) && forall e :: lo <= e <= SPAN ==> Slack(v, size, b, e) < 0
  }

  lemma SteadyTrans(u: Vol, a: nat, v: Vol, b: nat, w: Vol, c: nat, size: nat, lo: nat)
    requires Steady(u, a, v, b, size, lo) && Steady(v, b, w, c, size, lo)
    ensures Steady(u, a, w, c, size, lo)
  {
  }

  lemma SteadyShort(u: Vol, a: nat, v: Vol, b: nat, size: nat, lo: nat)
    requires Steady(u, a, v, b, size, lo) && Short(v, b, size, lo)
    ensures Short(u, a, size, lo)
  {
    forall e | lo <= e <= SPAN ensures Slack(u, size, a, e) < 0 {
      assert Slack(v, size, b, e) == Slack(u, size, a, e);
    }
  }

  // A block that is there costs nothing.
  lemma SteadyFound(v: Vol, size: nat, t: nat)
    requires v.Shaped(size) && t < SPAN && v.Ptr(t) != 0
    ensures Steady(v, t, v, t + 1, size, t + 1)
  {
    forall e | t + 1 <= e <= SPAN ensures Slack(v, size, t + 1, e) == Slack(v, size, t, e) {
      assert Gaps(v, t, e) == Gaps(v, t + 1, e);
    }
  }

  lemma NoSpace(v: Vol, size: nat, t: nat)
    requires v.Shaped(size) && t < SPAN && v.Ptr(t) == 0 && AllSet(v.bits, 0, size)
    ensures Short(v, t, size, t + 1)
  {
    FreeNone(v.bits, size);
    forall e | t + 1 <= e <= SPAN ensures Slack(v, size, t, e) < 0 {
      assert Gaps(v, t, e) == 1 + Gaps(v, t + 1, e);
    }
  }

  lemma SteadyMono(v: Vol, b: nat, w: Vol, c: nat, size: nat, lo: nat, more: nat)
    requires Steady(v, b, w, c, size, lo) && lo <= more
    ensures Steady(v, b, w, c, size, more)
  {
  }

  lemma ShortMono(v: Vol, b: nat, size: nat, lo: nat, more: nat)
    requires Short(v, b, size, lo) && lo <= more
    ensures Short(v, b, size, more)
  {
  }

  /** The number of blocks, of those bmap can address, that the first n bytes lie in. */
  function End(n: nat): nat {
    if n >= LIMIT then SPAN else (n + BSIZE - 1) / BSIZE
  }

  // Where all blocks are there, none is wanting.
  lemma Reached(v: Vol, size: nat, n: nat)
    requires v.Shaped(size) && Backed(v, n)
    ensures n / BSIZE <= SPAN && Slack(v, size, n / BSIZE, End(n)) >= 0
  {
    var b, e := n / BSIZE, End(n);
    if b < e {
      assert e == b + 1 && v.Ptr(b) != 0;
      assert Gaps(v, b, e) == Gaps(v, b + 1, e) == 0;
    }
  }

  lemma {:induction false} GapsAtMost(v: Vol, b: nat, e: nat)
    requires b <= e <= SPAN && |v.addrs| == NDIRECT + 1 && |v.indirect| == NINDIRECT
    ensures Gaps(v, b, e) <= e - b
    decreases e - b
  {
    if b < e { GapsAtMost(v, b + 1, e); }
  }

  lemma {:induction false} FreeAll(bits: seq<bool>, n: nat)
    requires 1 <= n <= |bits| && bits[0] && forall x :: 1 <= x < n ==> !bits[x]
    ensures Free(bits, n) == n - 1
  {
    if n > 1 { FreeAll(bits, n - 1); } else { assert Free(bits, 0) == 0; }
  }

  // ----- what bmap does -------------------------------------------------------------

  /** The file's pointers and the blocks in use are the same; more blocks may be in use. */
  ghost predicate Same(v: Vol, w: Vol, size: nat) {
    && Tree(v, size) && Tree(w, size)
    && (forall t: nat :: t < SPAN ==> w.Ptr(t) == v.Ptr(t))
    && (forall b: nat :: b < size && v.bits[b] ==> w.bits[b] && w.blocks[b] == v.blocks[b])
  }

  /** Block t of the file is there; if it was not, it is a free block, zeroed.  All else is as it was. */
  ghost predicate Got(v: Vol, w: Vol, size: nat, t: nat) {
    && Tree(v, size) && Tree(w, size) && t < SPAN && w.Ptr(t) != 0
    && (v.Ptr(t) != 0 ==> w.Ptr(t) == v.Ptr(t))
    && (v.Ptr(t) == 0 ==> !v.bits[w.Ptr(t)] && w.blocks[w.Ptr(t)] == FT.Zeroed())
    && (forall u: nat :: u < SPAN && u != t ==> w.Ptr(u) == v.Ptr(u))
    && (forall b: nat :: b < size && v.bits[b] ==> w.bits[b] && w.blocks[b] == v.blocks[b])
  }

  lemma GotFound(v: Vol, size: nat, t: nat)
    requires Tree(v, size) && t < SPAN && v.Ptr(t) != 0
    ensures Got(v, v, size, t) && Steady(v, t, v, t + 1, size, t + 1)
  {
    SteadyFound(v, size, t);
  }

  function Taken(v: Vol, b: nat): Vol
    requires b < |v.bits| && b < |v.blocks|
  {
    v.(bits := v.bits[b := true], blocks := v.blocks[b := FT.Zeroed()])
  }

  /** The indirect block is allocated: no pointer of the file changes. */
  function WithIndirect(v: Vol, b: nat): Vol
    requires b < |v.bits| && b < |v.blocks| && |v.addrs| == NDIRECT + 1
  {
    Taken(v, b).(addrs := v.addrs[NDIRECT := b], indirect := seq(NINDIRECT, i => 0))
  }

  lemma IndirectGrown(v: Vol, size: nat, b: nat, t: nat)
    requires Tree(v, size) && v.addrs[NDIRECT] == 0 && 0 < b < size && !v.bits[b] && NDIRECT <= t < SPAN
    ensures var w := WithIndirect(v, b); Same(v, w, size) && w.Ptr(t) == 0 && Steady(v, t, w, t, size, t + 1)
  {
    var w := WithIndirect(v, b);
    forall u: nat | u < SPAN ensures w.Ptr(u) == v.Ptr(u) {
    }
    FreeSet(v.bits, size, b);
    forall e | t + 1 <= e <= SPAN ensures Slack(w, size, t, e) == Slack(v, size, t, e) {
      GapsSame(v, w, t, e);
    }
  }

  /** Block t of the file is allocated. */
  function WithBlock(v: Vol, t: nat, b: nat): Vol
    requires b < |v.bits| && b < |v.blocks| && t < SPAN && |v.addrs| == NDIRECT + 1 && |v.indirect| == NINDIRECT
  {
    if t < NDIRECT then Taken(v, b).(addrs := v.addrs[t := b])
    else Taken(v, b).(indirect := v.indirect[t - NDIRECT := b])
  }

  lemma BlockGrown(v: Vol, size: nat, t: nat, b: nat)
    requires Tree(v, size) && t < SPAN && v.Ptr(t) == 0 && (t >= NDIRECT ==> v.addrs[NDIRECT] != 0)
    requires 0 < b < size && !v.bits[b]
    ensures var w := WithBlock(v, t, b); Got(v, w, size, t) && w.Ptr(t) == b && Steady(v, t, w, t + 1, size, t + 1)
  {
    var w := WithBlock(v, t, b);
    forall u: nat | u < SPAN ensures w.Ptr(u) == if u == t then b else v.Ptr(u) {
    }
    FreeSet(v.bits, size, b);
    forall e | t + 1 <= e <= SPAN ensures Slack(w, size, t + 1, e) == Slack(v, size, t, e) {
      GapsSame(v, w, t + 1, e);
    }
  }

  lemma SameThenGot(u: Vol, v: Vol, w: Vol, size: nat, t: nat)
    requires Same(u, v, size) && Got(v, w, size, t)
    ensures Got(u, w, size, t)
  {
  }

  // ----- what writei does -----------------------------------------------------------

  /** b is a block in use that is not a data block of the file. */
  ghost predicate Foreign(v: Vol, size: nat, b: nat)
    requires v.Shaped(size)
  {
    b < size && v.bits[b] && forall t: nat :: t < SPAN ==> v.Ptr(t) != b || b == 0
  }

  /** The file has only taken free blocks, and no block of another file has changed. */
  ghost predicate Kept(v0: Vol, v: Vol, size: nat) {
    && Tree(v0, size) && Tree(v, size)
    && (forall t: nat :: t < SPAN ==> v.Ptr(t) == v0.Ptr(t) || (v0.Ptr(t) == 0 && !v0.bits[v.Ptr(t)]))
    && (forall b: nat :: b < size && v0.bits[b] ==> v.bits[b])
    && (forall b: nat :: Foreign(v0, size, b) ==> v.blocks[b] == v0.blocks[b])
  }

  lemma KeptTrans(u: Vol, v: Vol, w: Vol, size: nat)
    requires Kept(u, v, size) && Kept(v, w, size)
    ensures Kept(u, w, size)
  {
    forall b: nat | Foreign(u, size, b) ensures w.blocks[b] == u.blocks[b] {
      assert Foreign(v, size, b);
    }
  }

  /** The first tot bytes of src have been written at off to a file of len bytes. */
  ghost predicate Wrote(v0: Vol, v: Vol, size: nat, len: nat, off: nat, src: seq<Byte>, tot: nat) {
    && Tree(v0, size) && Tree(v, size) && off <= len <= LIMIT && tot <= |src| && off + tot <= LIMIT
    && Backed(v, FF.Max(len, off + tot))
    && (forall k: nat :: k < FF.Max(len, off + tot) ==>
          ByteAt(v, k) == if off <= k < off + tot then src[k - off] else ByteAt(v0, k))
    && Kept(v0, v, size)
  }

  lemma WroteNone(v: Vol, size: nat, len: nat, off: nat, src: seq<Byte>)
    requires Tree(v, size) && Backed(v, len) && off <= len
    ensures Wrote(v, v, size, len, off, src, 0)
  {
  }

  lemma WroteSame(v0: Vol, v: Vol, w: Vol, size: nat, len: nat, off: nat, src: seq<Byte>, tot: nat)
    requires Wrote(v0, v, size, len, off, src, tot) && Same(v, w, size)
    ensures Wrote(v0, w, size, len, off, src, tot)
  {
    forall k: nat | k < FF.Max(len, off + tot) ensures ByteAt(w, k) == ByteAt(v, k) {
      assert w.Ptr(k / BSIZE) == v.Ptr(k / BSIZE);
    }
  }

  lemma WroteGot(v0: Vol, v: Vol, w: Vol, size: nat, len: nat, off: nat, src: seq<Byte>, tot: nat, t: nat)
    requires Wrote(v0, v, size, len, off, src, tot) && Got(v, w, size, t)
    ensures Wrote(v0, w, size, len, off, src, tot)
  {
    forall k: nat | k < FF.Max(len, off + tot) ensures w.Ptr(k / BSIZE) != 0 && ByteAt(w, k) == ByteAt(v, k) {
      assert v.Ptr(k / BSIZE) != 0;
    }
  }

  /** Data is put into block t of the file. */
  function Stored(v: Vol, t: nat, o: nat, data: seq<Byte>): Vol
    requires t < SPAN && o + |data| <= BSIZE && |v.addrs| == NDIRECT + 1 && |v.indirect| == NINDIRECT
    requires v.Ptr(t) < |v.blocks|
  {
    v.(blocks := v.blocks[v.Ptr(t) := FF.Splice(v.blocks[v.Ptr(t)], o, data)])
  }

  lemma StoredBytes(v: Vol, size: nat, t: nat, o: nat, data: seq<Byte>, k: nat)
    requires Tree(v, size) && t < SPAN && v.Ptr(t) != 0 && o + |data| <= BSIZE && k < LIMIT && v.Ptr(k / BSIZE) != 0
    ensures var w := Stored(v, t, o, data);
            ByteAt(w, k) == if t * BSIZE + o <= k < t * BSIZE + o + |data| then data[k - t * BSIZE - o]
                            else ByteAt(v, k)
  {
    var u := k / BSIZE;
    if u == t {
      assert k == t * BSIZE + k % BSIZE;
    } else {
      assert v.Ptr(u) != v.Ptr(t);
    }
  }

  lemma StoredTree(v: Vol, size: nat, t: nat, o: nat, data: seq<Byte>)
    requires Tree(v, size) && t < SPAN && v.Ptr(t) != 0 && o + |data| <= BSIZE
    ensures Tree(Stored(v, t, o, data), size)
    ensures forall u: nat :: u < SPAN ==> Stored(v, t, o, data).Ptr(u) == v.Ptr(u)
  {
    var w := Stored(v, t, o, data);
    assert forall u: nat :: u < SPAN ==> w.Ptr(u) == v.Ptr(u);
  }

  lemma {:induction false} StoredSteady(v: Vol, size: nat, t: nat, o: nat, data: seq<Byte>, c: nat, lo: nat)
    requires Tree(v, size) && t < SPAN && v.Ptr(t) != 0 && o + |data| <= BSIZE
    ensures Steady(v, c, Stored(v, t, o, data), c, size, lo)
  {
    var w := Stored(v, t, o, data);
    StoredTree(v, size, t, o, data);
    forall e | lo <= e <= SPAN ensures Slack(w, size, c, e) == Slack(v, size, c, e) {
      GapsSame(v, w, c, e);
    }
  }

  /** One round of writei's loop. */
  lemma WroteStep(v0: Vol, v: Vol, size: nat, len: nat, off: nat, src: seq<Byte>, tot: nat, m: nat)
    requires Wrote(v0, v, size, len, off, src, tot) && tot + m <= |src| && off + tot + m <= LIMIT && off + tot < LIMIT
    requires (off + tot) % BSIZE + m <= BSIZE && v.Ptr((off + tot) / BSIZE) != 0
    ensures v.Ptr((off + tot) / BSIZE) < size
    ensures Wrote(v0, Stored(v, (off + tot) / BSIZE, (off + tot) % BSIZE, src[tot..tot + m]),
                  size, len, off, src, tot + m)
  {
    var t, o, data := (off + tot) / BSIZE, (off + tot) % BSIZE, src[tot..tot + m];
    var w := Stored(v, t, o, data);
    StoredTree(v, size, t, o, data);
    assert t * BSIZE + o == off + tot;
    forall k: nat | k < FF.Max(len, off + tot + m)
      ensures w.Ptr(k / BSIZE) != 0
      ensures ByteAt(w, k) == if off <= k < off + tot + m then src[k - off] else ByteAt(v0, k)
    {
      StepByte(v0, v, size, len, off, src, tot, m, k);
    }
    assert Backed(w, FF.Max(len, off + tot + m)) by { StepBacked(v, w, size, len, off, tot, m); }
    forall b: nat | Foreign(v0, size, b) ensures w.blocks[b] == v0.blocks[b] {
      assert v.Ptr(t) != b;
    }
  }

  lemma StepBacked(v: Vol, w: Vol, size: nat, len: nat, off: nat, tot: nat, m: nat)
    requires Tree(v, size) && Tree(w, size) && Backed(v, FF.Max(len, off + tot)) && off + tot < LIMIT
    requires FF.Max(len, off + tot + m) <= LIMIT
    requires (off + tot) % BSIZE + m <= BSIZE && v.Ptr((off + tot) / BSIZE) != 0
    requires forall u: nat :: u < SPAN ==> w.Ptr(u) == v.Ptr(u)
    ensures Backed(w, FF.Max(len, off + tot + m))
  {
    var t := (off + tot) / BSIZE;
    forall u: nat | u < SPAN && u * BSIZE < FF.Max(len, off + tot + m) ensures w.Ptr(u) != 0 {
      if u * BSIZE >= FF.Max(len, off + tot) { assert u == t; }
    }
  }

  lemma StepByte(v0: Vol, v: Vol, size: nat, len: nat, off: nat, src: seq<Byte>, tot: nat, m: nat, k: nat)
    requires Wrote(v0, v, size, len, off, src, tot) && tot + m <= |src| && off + tot + m <= LIMIT && off + tot < LIMIT
    requires (off + tot) % BSIZE + m <= BSIZE && v.Ptr((off + tot) / BSIZE) != 0 && k < FF.Max(len, off + tot + m)
    ensures v.Ptr((off + tot) / BSIZE) < size && v.Ptr(k / BSIZE) != 0
    ensures var w := Stored(v, (off + tot) / BSIZE, (off + tot) % BSIZE, src[tot..tot + m]);
            ByteAt(w, k) == if off <= k < off + tot + m then src[k - off] else ByteAt(v0, k)
  {
    var t, o := (off + tot) / BSIZE, (off + tot) % BSIZE;
    assert t * BSIZE + o == off + tot;
    if k < FF.Max(len, off + tot) {
      assert k / BSIZE * BSIZE <= k && v.Ptr(k / BSIZE) != 0;
    } else {
      assert k / BSIZE == t;
    }
    StoredBytes(v, size, t, o, src[tot..tot + m], k);
  }

  /** When the loop ends, the content is the old one overwritten at off. */
  lemma WroteAll(v0: Vol, v: Vol, size: nat, len: nat, off: nat, src: seq<Byte>)
    requires Wrote(v0, v, size, len, off, src, |src|)
    ensures Content(v, FF.Max(len, off + |src|)) == FF.Overwritten(Content(v0, len), off, src)
  {
    var c, d := Content(v, FF.Max(len, off + |src|)), FF.Overwritten(Content(v0, len), off, src);
    assert |c| == |d|;
    forall k | 0 <= k < |c| ensures c[k] == d[k] {
    }
  }

  /** One round of writei, with its cost: w is the volume when bmap has returned. */
  lemma RoundWrote(v0: Vol, v: Vol, w: Vol, size: nat, len: nat, off: nat, src: seq<Byte>, tot: nat, m: nat, lo: nat)
    requires Wrote(v0, v, size, len, off, src, tot) && 0 < m && tot + m <= |src| && off + tot + m <= LIMIT
    requires (off + tot) % BSIZE + m <= BSIZE
    requires Got(v, w, size, (off + tot) / BSIZE)
    requires Steady(v, (off + tot) / BSIZE, w, (off + tot) / BSIZE + 1, size, (off + tot) / BSIZE + 1)
    requires Steady(v0, off / BSIZE, v, (off + tot) / BSIZE, size, lo) && (off + tot) / BSIZE + 1 <= lo
    ensures w.Ptr((off + tot) / BSIZE) < size
    ensures var x := Stored(w, (off + tot) / BSIZE, (off + tot) % BSIZE, src[tot..tot + m]);
            && Wrote(v0, x, size, len, off, src, tot + m)
            && Steady(v0, off / BSIZE, x, (off + tot + m) / BSIZE, size, lo)
  {
    hide Steady, Wrote;
    var t, o, data := (off + tot) / BSIZE, (off + tot) % BSIZE, src[tot..tot + m];
    WroteGot(v0, v, w, size, len, off, src, tot, t);
    WroteStep(v0, w, size, len, off, src, tot, m);
    var x := Stored(w, t, o, data);
    StoredTree(w, size, t, o, data);
    StoredSteady(w, size, t, o, data, t + 1, lo);
    SteadyMono(v, t, w, t + 1, size, t + 1, lo);
    SteadyTrans(v0, off / BSIZE, v, t, w, t + 1, size, lo);
    SteadyTrans(v0, off / BSIZE, w, t + 1, x, t + 1, size, lo);
    var next := (off + tot + m) / BSIZE;
    assert next == t || next == t + 1;
    if next == t {
      SteadyBack(x, size, t, lo);
      SteadyTrans(v0, off / BSIZE, x, t + 1, x, t, size, lo);
    }
  }

  lemma SteadyBack(v: Vol, size: nat, t: nat, lo: nat)
    requires v.Shaped(size) && t < SPAN && v.Ptr(t) != 0 && t + 1 <= lo
    ensures Steady(v, t + 1, v, t, size, lo)
  {
    SteadyFound(v, size, t);
  }
}
