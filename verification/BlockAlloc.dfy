/** The two block allocators: the kernel's scan with a rotating hint (kern/fs.c) and the
    straight scan of the 32-bit file system (32xvfs/fs.c). */
module BlockAlloc {

  const BPB: nat := 4096    // bitmap bits per block: 8 * BSIZE

  /** A search of the free map finds a block of the file system, hits a clear bit beyond its
      end, finds every bit set, or goes round for ever. */
  datatype Outcome = Free(b: nat) | Wild(b: nat) | OutOfBlocks | Spins

  /** The free map is stored in whole blocks, so it has bits for blocks beyond the end. */
  predicate Bitmap(bits: seq<bool>, size: nat) {
    0 < size <= |bits| && |bits| % BPB == 0
  }

  function Limit(size: nat, b: nat): nat
    requires b < size
  {
    if size - b < BPB then size - b else BPB
  }

  predicate AllSet(bits: seq<bool>, lo: nat, hi: nat) {
    hi <= |bits| && forall x :: lo <= x < hi ==> bits[x]
  }

  // The test for a byte without a clear bit, which skips the bit in hand.
  predicate ByteFull(bits: seq<bool>, at: nat)
    requires |bits| % 8 == 0 && at < |bits|
  {
    var o := at / 8 * 8;
    && bits[o] && bits[o + 1] && bits[o + 2] && bits[o + 3]
    && bits[o + 4] && bits[o + 5] && bits[o + 6] && bits[o + 7]
  }

  lemma ByteFullSkips(bits: seq<bool>, at: nat)
    requires |bits| % 8 == 0 && at < |bits| && ByteFull(bits, at)
    ensures bits[at]
  {
    var o := at / 8 * 8;
    assert at == o || at == o + 1 || at == o + 2 || at == o + 3 || at == o + 4 || at == o + 5 || at == o + 6
           || at == o + 7;
  }

  /** What a scan of one bitmap block must report.  It starts at lastbi and wraps round; if
      the group is shorter than lastbi the wrap never gets back there. */
  ghost predicate GroupResult(bits: seq<bool>, size: nat, b: nat, lastbi: nat, o: Outcome)
    requires b < size <= |bits|
  {
    var end := b + Limit(size, b);
    if b + lastbi < end then
      match o
      case Free(x) => b <= x < end && !bits[x] && AllSet(bits, b + lastbi, if x < b + lastbi then end else x)
                      && (x < b + lastbi ==> AllSet(bits, b, x))
      case OutOfBlocks => AllSet(bits, b, end)
      case _ => false
    else
      match o
      case Wild(x) => x == b + lastbi < |bits| && !bits[x]
      case Free(x) => b + lastbi < |bits| && bits[b + lastbi] && b <= x < end && !bits[x] && AllSet(bits, b, x)
      case Spins => b + lastbi < |bits| && bits[b + lastbi] && AllSet(bits, b, end)
      case OutOfBlocks => false
  }

  lemma WholeBytes(bits: seq<bool>)
    requires |bits| % BPB == 0
    ensures |bits| % 8 == 0
  {
    var q := |bits| / BPB;
    assert |bits| == 8 * (512 * q);
  }

  // One look at the free map, by way of the byte test.
  method Probe(bits: seq<bool>, at: nat) returns (free: bool)
    requires |bits| % BPB == 0 && at < |bits|
    ensures free == !bits[at]
  {
    WholeBytes(bits);
    if ByteFull(bits, at) {
      ByteFullSkips(bits, at);
      return false;
    }
    return !bits[at];
  }

  lemma GroupFits(bits: seq<bool>, size: nat, b: nat)
    requires Bitmap(bits, size) && b < size && b % BPB == 0
    ensures b + BPB <= |bits|
  {
  }

  /** The scan is about to look at bit bi; `wrapped` tells whether it has passed the end. */
  ghost predicate Scanned(bits: seq<bool>, size: nat, b: nat, lastbi: nat, bi: nat, wrapped: bool) {
    && b < size && bi < BPB && lastbi < BPB && b + BPB <= |bits|
    && var end := b + Limit(size, b);
       if !wrapped then lastbi <= bi && AllSet(bits, b + lastbi, b + bi) && (bi != lastbi ==> b + bi < end)
       else if b + lastbi < end then bi < lastbi && AllSet(bits, b + lastbi, end) && AllSet(bits, b, b + bi)
       else b + bi < end && bits[b + lastbi] && AllSet(bits, b, b + bi)
  }

  lemma ScanHit(bits: seq<bool>, size: nat, b: nat, lastbi: nat, bi: nat, wrapped: bool)
    requires Scanned(bits, size, b, lastbi, bi, wrapped) && !bits[b + bi] && size <= |bits|
    ensures GroupResult(bits, size, b, lastbi, if b + bi < size then Free(b + bi) else Wild(b + bi))
  {
  }

  // Moving on from a set bit: to the next one, round the end, or to a verdict.
  lemma ScanStep(bits: seq<bool>, size: nat, b: nat, lastbi: nat, bi: nat, wrapped: bool)
    requires Scanned(bits, size, b, lastbi, bi, wrapped) && bits[b + bi] && size <= |bits|
    ensures var over := bi + 1 >= BPB || b + bi + 1 >= size;
            if !over then
              if bi + 1 == lastbi then GroupResult(bits, size, b, lastbi, OutOfBlocks)
              else Scanned(bits, size, b, lastbi, bi + 1, wrapped)
            else if wrapped then GroupResult(bits, size, b, lastbi, Spins)
            else if lastbi == 0 then GroupResult(bits, size, b, lastbi, OutOfBlocks)
            else Scanned(bits, size, b, lastbi, 0, true)
  {
  }

  /** The inner loop of the kernel's balloc. */
  method ScanGroup(bits: seq<bool>, size: nat, b: nat, lastbi: nat) returns (o: Outcome)
    requires Bitmap(bits, size) && b < size && b % BPB == 0 && lastbi < BPB
    ensures GroupResult(bits, size, b, lastbi, o)
  {
    hide GroupResult, AllSet, Limit;
    GroupFits(bits, size, b);
    var bi: nat, wrapped := lastbi, false;
    assert Scanned(bits, size, b, lastbi, bi, wrapped) by { ScanBegins(bits, size, b, lastbi); }
    while true
      invariant Scanned(bits, size, b, lastbi, bi, wrapped)
      decreases !wrapped, BPB - bi
    {
      var free := Probe(bits, b + bi);
      if free {
        ScanHit(bits, size, b, lastbi, bi, wrapped);
        return if b + bi < size then Free(b + bi) else Wild(b + bi);
      }
      ScanStep(bits, size, b, lastbi, bi, wrapped);
      bi := bi + 1;
      if bi >= BPB || b + bi >= size {
        bi := 0;
        if wrapped { return Spins; }
        wrapped := true;
      }
      if bi == lastbi { break; }
    }
    o := OutOfBlocks;
  }

  lemma ScanBegins(bits: seq<bool>, size: nat, b: nat, lastbi: nat)
    requires b < size && lastbi < BPB && b + BPB <= |bits|
    ensures Scanned(bits, size, b, lastbi, lastbi, false)
  {
  }

  // ----- all groups -----------------------------------------------------------------

  function LastGroup(size: nat): nat
    requires 0 < size
  {
    (size - 1) / BPB * BPB
  }

  /** The hint lies beyond the last, short group of the free map. */
  predicate ShortHint(size: nat, lastbi: nat)
    requires 0 < size
  {
    LastGroup(size) + lastbi >= size
  }

  /** The search goes astray: every group before the last is full from the hint on, and the
      short last group either has a clear bit just at the hint or no block left. */
  ghost predicate Astray(bits: seq<bool>, size: nat, lastballoc: nat, lastbi: nat)
    requires Bitmap(bits, size) && lastbi < BPB
  {
    var g := LastGroup(size);
    ShortHint(size, lastbi) && AllSet(bits, lastballoc, g) && (!bits[g + lastbi] || AllSet(bits, g, size))
  }

  /** The groups before the one at b, in the order of the search, are full. */
  ghost predicate FullBefore(bits: seq<bool>, size: nat, lastballoc: nat, b: nat) {
    if lastballoc <= b then AllSet(bits, lastballoc, b) else AllSet(bits, lastballoc, size) && AllSet(bits, 0, b)
  }

  /** What the search reports: the first free block in its order, a clear bit beyond the end of
      the last group, that there is no free block, or that it never ends. */
  ghost predicate SearchResult(bits: seq<bool>, size: nat, lastballoc: nat, lastbi: nat, o: Outcome)
    requires Bitmap(bits, size) && lastbi < BPB
  {
    var g := LastGroup(size);
    && (match o
        case Free(x) =>
          && x < size && !bits[x] && FullBefore(bits, size, lastballoc, x / BPB * BPB)
          && GroupResult(bits, size, x / BPB * BPB, lastbi, o)
        case Wild(x) => size <= x == g + lastbi < |bits| && !bits[x]
        case OutOfBlocks => AllSet(bits, 0, size)
        case Spins => g + lastbi < |bits| && bits[g + lastbi] && AllSet(bits, g, size))
    && (o.Wild? || o.Spins? <==> Astray(bits, size, lastballoc, lastbi))
  }

  lemma GroupPlace(size: nat, b: nat)
    requires b < size && b % BPB == 0
    ensures var g := LastGroup(size);
            && b <= g && (b < g ==> b + BPB <= g) && g < size <= g + BPB
            && b + Limit(size, b) == if b < g then b + BPB else size
    ensures forall x :: b <= x < b + BPB ==> x / BPB * BPB == b
  {
    var q, last := b / BPB, (size - 1) / BPB;
    assert b == q * BPB && q <= last;
    assert q < last ==> q + 1 <= last;
    forall x | b <= x < b + BPB ensures x / BPB * BPB == b {
      assert x / BPB == q;
    }
  }

  lemma GroupVerdict(bits: seq<bool>, size: nat, b: nat, lastballoc: nat, lastbi: nat, o: Outcome)
    requires Bitmap(bits, size) && b < size && b % BPB == 0 && lastbi < BPB && lastballoc <= LastGroup(size)
    requires GroupResult(bits, size, b, lastbi, o) && !o.OutOfBlocks?
    requires FullBefore(bits, size, lastballoc, b) && (b < lastballoc ==> !ShortHint(size, lastbi))
    ensures SearchResult(bits, size, lastballoc, lastbi, o)
  {
    if o.Free? {
      FreeVerdict(bits, size, b, lastballoc, lastbi, o.b);
    } else {
      AstrayVerdict(bits, size, b, lastballoc, lastbi, o);
    }
  }

  lemma FreeVerdict(bits: seq<bool>, size: nat, b: nat, lastballoc: nat, lastbi: nat, x: nat)
    requires Bitmap(bits, size) && b < size && b % BPB == 0 && lastbi < BPB && lastballoc <= LastGroup(size)
    requires GroupResult(bits, size, b, lastbi, Free(x))
    requires FullBefore(bits, size, lastballoc, b) && (b < lastballoc ==> !ShortHint(size, lastbi))
    ensures SearchResult(bits, size, lastballoc, lastbi, Free(x))
  {
    var g := LastGroup(size);
    GroupPlace(size, b);
    assert b <= x < size && !bits[x] && x / BPB * BPB == b;
    hide LastGroup, Limit, FullBefore;
    assert !Astray(bits, size, lastballoc, lastbi) by {
      if lastballoc <= b < g { assert lastballoc <= x < g; }
    }
  }

  lemma AstrayVerdict(bits: seq<bool>, size: nat, b: nat, lastballoc: nat, lastbi: nat, o: Outcome)
    requires Bitmap(bits, size) && b < size && b % BPB == 0 && lastbi < BPB && lastballoc <= LastGroup(size)
    requires GroupResult(bits, size, b, lastbi, o) && (o.Wild? || o.Spins?)
    requires FullBefore(bits, size, lastballoc, b) && (b < lastballoc ==> !ShortHint(size, lastbi))
    ensures SearchResult(bits, size, lastballoc, lastbi, o)
  {
    GroupPlace(size, b);
    hide LastGroup, Limit;
  }

  lemma GroupDone(bits: seq<bool>, size: nat, b: nat, lastbi: nat)
    requires Bitmap(bits, size) && b < size && b % BPB == 0 && lastbi < BPB
    requires GroupResult(bits, size, b, lastbi, OutOfBlocks)
    ensures if b + BPB < size then AllSet(bits, b, b + BPB) else AllSet(bits, b, size) && !ShortHint(size, lastbi)
  {
  }

  /** The kernel's balloc, up to marking the block: it goes astray exactly in the states that
      Astray describes, and otherwise finds a free block unless there is none. */
  method Search(bits: seq<bool>, size: nat, lastballoc: nat, lastbi: nat) returns (o: Outcome)
    requires Bitmap(bits, size) && lastballoc < size && lastballoc % BPB == 0 && lastbi < BPB
    ensures SearchResult(bits, size, lastballoc, lastbi, o)
  {
    hide GroupResult, SearchResult, ShortHint, LastGroup;
    StartsInside(size, lastballoc);
    var b: nat := lastballoc;
    ghost var wrapped := false;
    while true
      invariant b < size && b % BPB == 0
      invariant !wrapped ==> lastballoc <= b && AllSet(bits, lastballoc, b)
      invariant wrapped ==> b < lastballoc && AllSet(bits, lastballoc, size) && AllSet(bits, 0, b)
      invariant wrapped ==> !ShortHint(size, lastbi)
      decreases !wrapped, size - b
    {
      o := ScanGroup(bits, size, b, lastbi);
      if !o.OutOfBlocks? {
        GroupVerdict(bits, size, b, lastballoc, lastbi, o);
        return;
      }
      GroupDone(bits, size, b, lastbi);
      b := b + BPB;
      if b >= size {
        b := 0;
        wrapped := true;
      }
      if b == lastballoc { break; }
    }
    NothingFree(bits, size, lastballoc, lastbi);
  }

  lemma StartsInside(size: nat, lastballoc: nat)
    requires lastballoc < size && lastballoc % BPB == 0
    ensures lastballoc <= LastGroup(size)
  {
  }

  lemma NothingFree(bits: seq<bool>, size: nat, lastballoc: nat, lastbi: nat)
    requires Bitmap(bits, size) && lastballoc < size && lastbi < BPB
    requires AllSet(bits, lastballoc, size) && AllSet(bits, 0, lastballoc) && !ShortHint(size, lastbi)
    ensures SearchResult(bits, size, lastballoc, lastbi, OutOfBlocks)
  {
  }

  /** With a hint that fits every group, the rotating search finds a block exactly when the
      straight scan does. */
  lemma HintedSearchIsComplete(bits: seq<bool>, size: nat, lastballoc: nat, lastbi: nat, o: Outcome)
    requires Bitmap(bits, size) && lastbi < BPB && SearchResult(bits, size, lastballoc, lastbi, o)
    requires !ShortHint(size, lastbi)
    ensures o.Free? || o.OutOfBlocks?
    ensures o.Free? <==> exists x :: 0 <= x < size && !bits[x]
  {
  }

  /** The geometry of the shipped disk image (FSSIZE 9000), with the first two groups full but
      for block 900: the search finds it. */
  lemma HintIsSet(o: Outcome)
    requires SearchResult(seq(3 * BPB, x => x < 2 * BPB && x != 900), 9000, 0, 0, o)
    ensures o == Free(900)
  {
    var bits := seq(3 * BPB, x => x < 2 * BPB && x != 900);
    assert !bits[900] && AllSet(bits, 0, 900);
  }

  /** Block 900 is now the hint, and the next search returns block 9092, beyond the end. */
  lemma HintGoesAstray(o: Outcome)
    requires SearchResult(seq(3 * BPB, x => x < 2 * BPB && x != 900)[900 := true], 9000, 0, 900, o)
    ensures o == Wild(9092)
  {
    var bits := seq(3 * BPB, x => x < 2 * BPB && x != 900)[900 := true];
    assert !bits[9092] && AllSet(bits, 0, 2 * BPB);
    assert Astray(bits, 9000, 0, 900);
  }

  /** balloc of the 32-bit file system: the first free block. */
  method StraightScan(bits: seq<bool>, size: nat) returns (o: Outcome)
    requires Bitmap(bits, size)
    ensures o.Free? || o.OutOfBlocks?
    ensures o.Free? ==> o.b < size && !bits[o.b] && AllSet(bits, 0, o.b)
    ensures o.OutOfBlocks? ==> AllSet(bits, 0, size)
  {
    var b := 0;
    while b < size
      invariant 0 <= b && b % BPB == 0 && AllSet(bits, 0, if b < size then b else size)
    {
      var bi := 0;
      while bi < BPB && b + bi < size
        invariant 0 <= bi <= BPB && b + bi <= size && AllSet(bits, 0, b + bi)
      {
        if !bits[b + bi] { return Free(b + bi); }
        bi := bi + 1;
      }
      b := b + BPB;
    }
    return OutOfBlocks;
  }
}
