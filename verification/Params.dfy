/** Sizes that several parts of the system share (include/xv6/param.h, include/xv6/fs.h), and
    what it means for a list to hold nothing twice. */
module Params {

  type Byte = x: int | 0 <= x < 256

  const WORD: nat := 0x1_0000_0000  // one more than the largest 32-bit number
  const BSIZE: nat := 512           // bytes in a block
  const NDIRECT: nat := 11          // direct blocks of an inode
  const NINDIRECT: nat := 128       // pointers in an indirect block
  const MAXOPBLOCKS: nat := 10      // blocks that one operation may log
  const LOGSIZE: nat := 100         // blocks that a log header can list

  predicate Distinct<T(==)>(s: seq<T>) {
    forall i, j :: 0 <= i < j < |s| ==> s[i] != s[j]
  }

  /** Members of a set, listed without repetition, are no more than the set has. */
  lemma {:induction false} CountDistinct<T>(s: seq<T>, cover: set<T>)
    requires Distinct(s) && forall i :: 0 <= i < |s| ==> s[i] in cover
    ensures |s| <= |cover|
  {
    if s != [] {
      var last := s[|s| - 1];
      CountDistinct(s[..|s| - 1], cover - {last});
    }
  }
}
