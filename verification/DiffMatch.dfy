/** The matching half of diff (cmds/simple/diff.c): the k-candidate algorithm that finds a
    longest common subsequence of two sequences of line hashes, read off a table that lists
    for each line of file 0 the equal lines of file 1. */
module DiffMatch {

  /** Lines are numbered from 1; a pair (x, y) matches line x of A with line y of B. */
  type Pairs = seq<(int, int)>

  /** A common subsequence of the first r lines of A and all of B. */
  ghost predicate IsChain(A: seq<int>, B: seq<int>, r: int, ch: Pairs) {
    && 0 <= r <= |A|
    && (forall t :: 0 <= t < |ch| ==>
          1 <= ch[t].0 <= r && 1 <= ch[t].1 <= |B| && A[ch[t].0 - 1] == B[ch[t].1 - 1])
    && (forall s, t :: 0 <= s < t < |ch| ==> ch[s].0 < ch[t].0 && ch[s].1 < ch[t].1)
  }

  // Element t of a chain uses lines numbered above t, and leaves room for the rest.
  lemma {:induction false} ChainRises(A: seq<int>, B: seq<int>, r: int, ch: Pairs, t: nat)
    requires IsChain(A, B, r, ch) && t < |ch|
    ensures t < ch[t].0 && t < ch[t].1
  {
    if t > 0 {
      ChainRises(A, B, r, ch, t - 1);
    }
  }

  lemma {:induction false} ChainLeavesRoom(A: seq<int>, B: seq<int>, r: int, ch: Pairs, t: nat)
    requires IsChain(A, B, r, ch) && t < |ch|
    ensures ch[t].0 + (|ch| - 1 - t) <= r && ch[t].1 + (|ch| - 1 - t) <= |B|
    decreases |ch| - t
  {
    if t + 1 < |ch| {
      ChainLeavesRoom(A, B, r, ch, t + 1);
    }
  }

  lemma ChainLength(A: seq<int>, B: seq<int>, r: int, ch: Pairs)
    requires IsChain(A, B, r, ch)
    ensures |ch| <= r && |ch| <= |B|
  {
    if ch != [] {
      ChainRises(A, B, r, ch, |ch| - 1);
    }
  }

  predicate Increasing(s: seq<int>) {
    forall i, j :: 0 <= i < j < |s| ==> s[i] < s[j]
  }

  /** T[l] is no larger than the last line of B used by any common subsequence of length l
      of the first r lines of A, and no such subsequence is longer than T allows. */
  ghost predicate Optimal(A: seq<int>, B: seq<int>, r: int, T: seq<int>) {
    forall ch: Pairs :: IsChain(A, B, r, ch) && ch != [] ==> |ch| < |T| && T[|ch|] <= ch[|ch| - 1].1
  }

  /** ys are the lines of B equal to line r of A, in increasing order. */
  predicate RowMatches(A: seq<int>, B: seq<int>, r: int, ys: seq<int>) {
    && 1 <= r <= |A| && Increasing(ys)
    && (forall q :: 0 <= q < |ys| ==> 1 <= ys[q] <= |B| && B[ys[q] - 1] == A[r - 1])
    && (forall y :: 1 <= y <= |B| && B[y - 1] == A[r - 1] ==> y in ys)
  }

  // Every y in ys that extends a subsequence of length l bounds the new T'[l + 1].
  predicate RowDone(T: seq<int>, T': seq<int>, ys: seq<int>) {
    forall q, l :: 0 <= q < |ys| && 0 <= l < |T| && T[l] < ys[q] ==> l + 1 < |T'| && T'[l + 1] <= ys[q]
  }

  lemma RowOptimal(A: seq<int>, B: seq<int>, r: int, T: seq<int>, T': seq<int>, ys: seq<int>)
    requires |T| >= 1 && T[0] == 0 && Optimal(A, B, r - 1, T)
    requires RowMatches(A, B, r, ys) && RowDone(T, T', ys)
    requires |T| <= |T'| && forall l :: 0 <= l < |T| ==> T'[l] <= T[l]
    ensures Optimal(A, B, r, T')
  {
    hide IsChain, RowMatches, RowDone;
    forall ch: Pairs | IsChain(A, B, r, ch) && ch != []
      ensures |ch| < |T'| && T'[|ch|] <= ch[|ch| - 1].1
    {
      RowBound(A, B, r, T, T', ys, ch);
    }
  }

  // A subsequence that does not use line r is an old one; one that does extends an old one.
  lemma RowBound(A: seq<int>, B: seq<int>, r: int, T: seq<int>, T': seq<int>, ys: seq<int>, ch: Pairs)
    requires |T| >= 1 && T[0] == 0 && Optimal(A, B, r - 1, T)
    requires RowMatches(A, B, r, ys) && RowDone(T, T', ys)
    requires |T| <= |T'| && forall l :: 0 <= l < |T| ==> T'[l] <= T[l]
    requires IsChain(A, B, r, ch) && ch != []
    ensures |ch| < |T'| && T'[|ch|] <= ch[|ch| - 1].1
  {
    var l, last := |ch|, ch[|ch| - 1];
    if last.0 < r {
      assert IsChain(A, B, r - 1, ch);
    } else {
      var front := ch[..l - 1];
      assert IsChain(A, B, r - 1, front);
      assert T[l - 1] < last.1;
      assert last.1 in ys;
    }
  }

  // ----- one row of stone -----------------------------------------------------------

  /** The thresholds T' part-way through a row: T are those before the row, the first q
      matches are dealt with, the last improved level is oldl, and oldc stands for the
      candidate that held level mm before the row. */
  ghost predicate RowState(T: seq<int>, T': seq<int>, ys: seq<int>, q: nat, oldl: nat, mm: nat) {
    && q <= |ys| && |T| == |T'| && oldl <= mm < |T| && T[0] == 0 && T'[0] == 0
    && Increasing(T) && Increasing(T') && Increasing(ys)
    && (forall y :: 0 <= y < |ys| ==> ys[y] > 0)
    && (forall l :: 0 <= l < |T| ==> T'[l] <= T[l])
    && (forall l :: oldl < l < |T| ==> T'[l] == T[l])
    && (oldl > 0 ==> q > 0 && T'[oldl] <= ys[q - 1])
    && (mm > oldl ==> q > 0 && mm + 1 < |T| && T[mm + 1] == ys[q - 1])
    && RowDone(T, T', ys[..q])
  }

  lemma RowStart(T: seq<int>, ys: seq<int>)
    requires |T| >= 1 && T[0] == 0 && Increasing(T) && Increasing(ys)
    requires forall y :: 0 <= y < |ys| ==> ys[y] > 0
    ensures RowState(T, T, ys, 0, 0, 0)
  {
  }

  // y lies between the improved level oldl and what it was: it improves nothing.
  lemma RowSkip(T: seq<int>, T': seq<int>, ys: seq<int>, q: nat, oldl: nat, mm: nat)
    requires RowState(T, T', ys, q, oldl, mm) && q < |ys| && ys[q] <= T[mm]
    ensures RowState(T, T', ys, q + 1, oldl, mm)
  {
    assert ys[..q + 1] == ys[..q] + [ys[q]];
  }

  // What search returns once y is above oldc.
  predicate Found(T': seq<int>, y: int, l: nat) {
    1 <= l <= |T'| && T'[l - 1] < y && (l < |T'| ==> y <= T'[l])
  }

  lemma RowFound(T: seq<int>, T': seq<int>, ys: seq<int>, q: nat, oldl: nat, mm: nat, l: nat)
    requires RowState(T, T', ys, q, oldl, mm) && q < |ys| && T[mm] < ys[q]
    requires Found(T', ys[q], l)
    ensures oldl < l && T[l - 1] < ys[q]
    ensures if l == oldl + 1 then mm == oldl else T'[l - 1] == T[l - 1]
  {
    assert T'[mm] <= T[mm];
    if mm > oldl {
      assert T'[mm + 1] == T[mm + 1];
    }
  }

  // The row condition for y once T'[l] <= y.
  lemma RowLevel(T: seq<int>, T': seq<int>, ys: seq<int>, q: nat, l: nat)
    requires Increasing(T) && Increasing(T') && |T| <= |T'| && q < |ys|
    requires RowDone(T, T', ys[..q]) && 1 <= l < |T'| && T'[l] <= ys[q]
    requires l < |T| ==> ys[q] <= T[l]
    requires l <= |T|
    ensures RowDone(T, T', ys[..q + 1])
  {
    assert ys[..q + 1] == ys[..q] + [ys[q]];
  }

  lemma RowEqual(T: seq<int>, T': seq<int>, ys: seq<int>, q: nat, oldl: nat, mm: nat, l: nat)
    requires RowState(T, T', ys, q, oldl, mm) && q < |ys| && T[mm] < ys[q]
    requires Found(T', ys[q], l) && l < |T'| && T'[l] <= ys[q]
    ensures RowState(T, T', ys, q + 1, oldl, l - 1)
  {
    RowFound(T, T', ys, q, oldl, mm, l);
    RowLevel(T, T', ys, q, l);
  }

  lemma DoneMonotone(T: seq<int>, T': seq<int>, T'': seq<int>, ys: seq<int>)
    requires RowDone(T, T', ys) && |T'| <= |T''|
    requires forall l :: 0 <= l < |T'| ==> T''[l] <= T'[l]
    ensures RowDone(T, T'', ys)
  {
  }

  lemma IncreasingUpdate(s: seq<int>, l: nat, v: int)
    requires Increasing(s) && 1 <= l < |s| && s[l - 1] < v < s[l]
    ensures Increasing(s[l := v])
  {
  }

  lemma RowReplace(T: seq<int>, T': seq<int>, ys: seq<int>, q: nat, oldl: nat, mm: nat, l: nat)
    requires RowState(T, T', ys, q, oldl, mm) && q < |ys| && T[mm] < ys[q]
    requires Found(T', ys[q], l) && l < |T'| && ys[q] < T'[l]
    ensures RowState(T, T'[l := ys[q]], ys, q + 1, l, l)
  {
    RowFound(T, T', ys, q, oldl, mm, l);
    IncreasingUpdate(T', l, ys[q]);
    hide Increasing, RowDone;
    var T'' := T'[l := ys[q]];
    DoneMonotone(T, T', T'', ys[..q]);
    RowLevel(T, T'', ys, q, l);
  }

  lemma ExtendIncreases(T': seq<int>, y: int)
    requires Increasing(T') && Found(T', y, |T'|)
    ensures Increasing(T' + [y]) && forall l :: 0 <= l < |T'| + 1 ==> (T' + [y])[l] <= y
  {
  }

  // Once no threshold exceeds match q, no later match of the row matters.
  lemma ExtendDone(T: seq<int>, T': seq<int>, ys: seq<int>, q: nat)
    requires q < |ys| && Increasing(ys) && |T'| == |T| + 1 && RowDone(T, T', ys[..q])
    requires forall l :: 0 <= l < |T'| ==> T'[l] <= ys[q]
    ensures RowDone(T, T', ys)
  {
    forall p, l | 0 <= p < |ys| && 0 <= l < |T| && T[l] < ys[p] ensures T'[l + 1] <= ys[p] {
      if p < q {
        assert ys[..q][p] == ys[p];
      } else {
        assert T'[l + 1] <= ys[q];
      }
    }
  }

  // y opens a new level.
  lemma RowExtend(T: seq<int>, T': seq<int>, ys: seq<int>, q: nat, oldl: nat, mm: nat)
    requires RowState(T, T', ys, q, oldl, mm) && q < |ys| && T[mm] < ys[q]
    requires Found(T', ys[q], |T'|)
    ensures RowDone(T, T' + [ys[q]], ys) && Increasing(T' + [ys[q]])
  {
    hide Increasing, RowDone, Found;
    ExtendIncreases(T', ys[q]);
    DoneMonotone(T, T', T' + [ys[q]], ys[..q]);
    ExtendDone(T, T' + [ys[q]], ys, q);
  }

  // ----- candidates -----------------------------------------------------------------

  /** struct cand; pred is the index of the previous element of the subsequence. */
  datatype Cand = Cand(x: int, y: int, pred: int)

  /** Every stored candidate ends a common subsequence; lev is the length of that
      subsequence. */
  ghost predicate CandsOk(A: seq<int>, B: seq<int>, clist: seq<Cand>, lev: seq<nat>) {
    && |clist| == |lev| >= 1 && clist[0] == Cand(0, 0, 0) && lev[0] == 0
    && forall p :: 1 <= p < |clist| ==>
         var q := clist[p];
         && 0 <= q.pred < p && lev[p] == lev[q.pred] + 1
         && clist[q.pred].x < q.x <= |A| && clist[q.pred].y < q.y <= |B|
         && 1 <= q.x && 1 <= q.y && A[q.x - 1] == B[q.y - 1]
  }

  /** c[l] is a candidate of level l with y-coordinate T[l]; those above `fixed` date from
      before row i. */
  ghost predicate KlistOk(clist: seq<Cand>, lev: seq<nat>, c: seq<int>, T: seq<int>, i: int, fixed: nat) {
    && |lev| == |clist| && |c| == |T|
    && (forall l :: 0 <= l < |c| ==>
          0 <= c[l] < |clist| && lev[c[l]] == l && clist[c[l]].y == T[l] && clist[c[l]].x <= i)
    && (forall l :: fixed < l < |c| ==> clist[c[l]].x < i)
  }

  lemma NewCandOk(A: seq<int>, B: seq<int>, clist: seq<Cand>, lev: seq<nat>, i: int, y: int, pred: int)
    requires CandsOk(A, B, clist, lev) && 0 <= pred < |clist|
    requires clist[pred].x < i <= |A| && clist[pred].y < y <= |B| && 1 <= i && 1 <= y
    requires A[i - 1] == B[y - 1]
    ensures CandsOk(A, B, clist + [Cand(i, y, pred)], lev + [lev[pred] + 1])
  {
  }

  /** Binary search for the level that y belongs to. */
  method Search(clist: seq<Cand>, c: seq<int>, k: nat, y: int, ghost T: seq<int>) returns (r: nat)
    requires |c| == |T| == k + 1 && Increasing(T) && T[0] < y
    requires forall l :: 0 <= l <= k ==> 0 <= c[l] < |clist| && clist[c[l]].y == T[l]
    ensures Found(T, y, r)
  {
    if clist[c[k]].y < y { return k + 1; }
    var i, j := 0, k + 1;
    var l := (i + j) / 2;
    while l > i
      decreases j - i
      invariant 0 <= i < j <= k + 1 && l == (i + j) / 2
      invariant T[i] < y && (j <= k ==> y < T[j]) && y <= T[k]
    {
      var t := clist[c[l]].y;
      if t > y {
        j := l;
      } else if t < y {
        i := l;
      } else {
        return l;
      }
      l := (i + j) / 2;
    }
    return l + 1;
  }

  /** Everything known part-way through row i. */
  ghost predicate InRow(A: seq<int>, B: seq<int>, i: int, ys: seq<int>, T: seq<int>,
                        clist: seq<Cand>, lev: seq<nat>, c: seq<int>, T': seq<int>,
                        q: nat, oldc: int, oldl: nat, mm: nat) {
    && RowState(T, T', ys, q, oldl, mm) && CandsOk(A, B, clist, lev) && KlistOk(clist, lev, c, T', i, oldl)
    && 0 <= oldc < |clist| && clist[oldc].y == T[mm] && lev[oldc] == mm && clist[oldc].x < i
  }

  lemma KlistReplace(clist: seq<Cand>, lev: seq<nat>, c: seq<int>, T: seq<int>, i: int, fixed: nat, l: nat, y: int,
                     pred: int)
    requires KlistOk(clist, lev, c, T, i, fixed) && fixed < l < |c|
    requires 0 <= pred < |clist| && lev[pred] == l - 1
    ensures KlistOk(clist + [Cand(i, y, pred)], lev + [l], c[l := |clist|], T[l := y], i, l)
  {
  }

  lemma KlistExtend(clist: seq<Cand>, lev: seq<nat>, c: seq<int>, T: seq<int>, i: int, fixed: nat, y: int, pred: int)
    requires KlistOk(clist, lev, c, T, i, fixed)
    requires 0 <= pred < |clist| && lev[pred] + 1 == |c|
    ensures KlistOk(clist + [Cand(i, y, pred)], lev + [|c|], c + [|clist|], T + [y], i, |c| + 1)
  {
  }

  /** stone's treatment of one match y of row i (the body of its do loop).  When y opens a
      new level the row is finished. */
  method Step(ghost A: seq<int>, ghost B: seq<int>, i: int, ghost ys: seq<int>, ghost T: seq<int>,
              clist0: seq<Cand>, ghost lev0: seq<nat>, c0: seq<int>, ghost T0: seq<int>, y: int,
              ghost q: nat, oldc0: int, oldl0: nat, ghost mm0: nat)
    returns (clist: seq<Cand>, ghost lev: seq<nat>, c: seq<int>, ghost T': seq<int>,
             oldc: int, oldl: nat, ghost mm: nat, extended: bool)
    requires InRow(A, B, i, ys, T, clist0, lev0, c0, T0, q, oldc0, oldl0, mm0)
    requires q < |ys| && y == ys[q] && RowMatches(A, B, i, ys)
    ensures !extended ==> InRow(A, B, i, ys, T, clist, lev, c, T', q + 1, oldc, oldl, mm)
    ensures extended ==>
              && CandsOk(A, B, clist, lev) && KlistOk(clist, lev, c, T', i, |T'|)
              && |T'| == |T| + 1 && Increasing(T') && T'[0] == 0 && RowDone(T, T', ys)
              && forall l :: 0 <= l < |T| ==> T'[l] <= T[l]
  {
    hide CandsOk, RowState, KlistOk, RowDone, Increasing;
    clist, lev, c, T', oldc, oldl, mm, extended := clist0, lev0, c0, T0, oldc0, oldl0, mm0, false;
    if y <= clist[oldc].y {
      RowSkip(T, T0, ys, q, oldl, mm);
      return;
    }
    StepFacts(A, B, i, ys, T, clist0, lev0, c0, T0, q, oldc0, oldl0, mm0);
    var l := Search(clist, c, |c| - 1, y, T0);
    RowFound(T, T0, ys, q, oldl0, mm0, l);
    if l != oldl + 1 { oldc := c[l - 1]; }
    PredFacts(A, B, i, ys, T, clist0, lev0, c0, T0, q, oldc0, oldl0, mm0, l, oldc);
    if l < |c| {
      if clist[c[l]].y <= y {
        RowEqual(T, T0, ys, q, oldl0, mm0, l);
        mm := l - 1;
        return;
      }
      TopFacts(A, B, i, ys, T, clist0, lev0, c0, T0, q, oldc0, oldl0, mm0, l);
      RowReplace(T, T0, ys, q, oldl0, mm0, l);
      NewCandOk(A, B, clist, lev, i, y, oldc);
      KlistReplace(clist, lev, c, T0, i, oldl0, l, y, oldc);
      var tc := c[l];
      T', mm := T0[l := y], l;
      lev, clist, c := lev + [l], clist + [Cand(i, y, oldc)], c[l := |clist|];
      oldc, oldl := tc, l;
    } else {
      RowExtend(T, T0, ys, q, oldl0, mm0);
      NewCandOk(A, B, clist, lev, i, y, oldc);
      KlistExtend(clist, lev, c, T0, i, oldl0, y, oldc);
      ExtendFacts(A, B, i, ys, T, clist0, lev0, c0, T0, q, oldc0, oldl0, mm0, y);
      T' := T0 + [y];
      lev, clist, c := lev + [|c|], clist + [Cand(i, y, oldc)], c + [|clist|];
      extended := true;
    }
  }

  lemma StepFacts(A: seq<int>, B: seq<int>, i: int, ys: seq<int>, T: seq<int>, clist: seq<Cand>, lev: seq<nat>,
                  c: seq<int>, T': seq<int>, q: nat, oldc: int, oldl: nat, mm: nat)
    requires InRow(A, B, i, ys, T, clist, lev, c, T', q, oldc, oldl, mm)
    requires q < |ys| && RowMatches(A, B, i, ys)
    ensures |c| == |T'| >= 1 && Increasing(T') && T'[0] < ys[q] && |T| == |T'| && mm < |T| && |lev| == |clist|
    ensures forall l :: 0 <= l < |c| ==> 0 <= c[l] < |clist| && clist[c[l]].y == T'[l]
    ensures 1 <= i <= |A| && 1 <= ys[q] <= |B| && A[i - 1] == B[ys[q] - 1]
  {
  }

  lemma PredFacts(A: seq<int>, B: seq<int>, i: int, ys: seq<int>, T: seq<int>, clist: seq<Cand>, lev: seq<nat>,
                  c: seq<int>, T': seq<int>, q: nat, oldc: int, oldl: nat, mm: nat, l: nat, pred: int)
    requires InRow(A, B, i, ys, T, clist, lev, c, T', q, oldc, oldl, mm) && q < |ys|
    requires T[mm] < ys[q] && Found(T', ys[q], l) && |c| == |T'| && 0 < l
    requires pred == if l != oldl + 1 then c[l - 1] else oldc
    ensures 0 <= pred < |clist| && |lev| == |clist| && lev[pred] == l - 1
    ensures clist[pred].x < i && clist[pred].y == T[l - 1] && oldl < l
  {
    RowFound(T, T', ys, q, oldl, mm, l);
  }

  lemma TopFacts(A: seq<int>, B: seq<int>, i: int, ys: seq<int>, T: seq<int>, clist: seq<Cand>, lev: seq<nat>,
                 c: seq<int>, T': seq<int>, q: nat, oldc: int, oldl: nat, mm: nat, l: nat)
    requires InRow(A, B, i, ys, T, clist, lev, c, T', q, oldc, oldl, mm) && oldl < l < |c|
    ensures |T| == |T'| == |c| && |lev| == |clist| && 0 <= c[l] < |clist|
    ensures clist[c[l]].y == T[l] && lev[c[l]] == l && clist[c[l]].x < i
  {
  }

  lemma ExtendFacts(A: seq<int>, B: seq<int>, i: int, ys: seq<int>, T: seq<int>, clist: seq<Cand>, lev: seq<nat>,
                    c: seq<int>, T': seq<int>, q: nat, oldc: int, oldl: nat, mm: nat, y: int)
    requires InRow(A, B, i, ys, T, clist, lev, c, T', q, oldc, oldl, mm)
    ensures var T'' := T' + [y];
            |T''| == |T| + 1 && T''[0] == 0 && forall l :: 0 <= l < |T| ==> T''[l] <= T[l]
  {
  }

  /** In table b the lines equal to some line of file 0 are -b[j], b[j+1], b[j+2], ... up to
      the next entry that is not positive. */
  predicate RunOf(b: seq<int>, j: int, ys: seq<int>) {
    && |ys| >= 1 && 0 <= j && j + |ys| < |b|
    && b[j] == -ys[0] && b[j + |ys|] <= 0
    && forall q :: 1 <= q < |ys| ==> b[j + q] == ys[q]
  }

  /** What stone knows after the first i rows: c[l] ends a common subsequence of length l
      whose last line of B is least possible, and there is no longer one. */
  ghost predicate AfterRows(A: seq<int>, B: seq<int>, i: int, clist: seq<Cand>, lev: seq<nat>, c: seq<int>,
                            T: seq<int>) {
    && CandsOk(A, B, clist, lev) && KlistOk(clist, lev, c, T, i, |T|)
    && |T| >= 1 && T[0] == 0 && Increasing(T) && Optimal(A, B, i, T)
  }

  lemma RowBegins(A: seq<int>, B: seq<int>, i: int, ys: seq<int>, clist: seq<Cand>, lev: seq<nat>, c: seq<int>,
                  T: seq<int>)
    requires AfterRows(A, B, i - 1, clist, lev, c, T) && RowMatches(A, B, i, ys)
    ensures |c| >= 1 && InRow(A, B, i, ys, T, clist, lev, c, T, 0, c[0], 0, 0)
  {
    RowStart(T, ys);
  }

  lemma RowEnds(A: seq<int>, B: seq<int>, i: int, ys: seq<int>, T: seq<int>,
                clist: seq<Cand>, lev: seq<nat>, c: seq<int>, T': seq<int>, oldc: int, oldl: nat, mm: nat)
    requires InRow(A, B, i, ys, T, clist, lev, c, T', |ys|, oldc, oldl, mm)
    requires RowMatches(A, B, i, ys) && Optimal(A, B, i - 1, T)
    ensures AfterRows(A, B, i, clist, lev, c, T')
  {
    assert ys[..|ys|] == ys;
    RowOptimal(A, B, i, T, T', ys);
  }

  /** One row of stone: walk the run of matches that starts at b[j0]. */
  method Row(ghost A: seq<int>, ghost B: seq<int>, i: int, b: seq<int>, j0: int, ghost ys: seq<int>,
             clist0: seq<Cand>, ghost lev0: seq<nat>, c0: seq<int>, ghost T: seq<int>)
    returns (clist: seq<Cand>, ghost lev: seq<nat>, c: seq<int>, ghost T': seq<int>)
    requires AfterRows(A, B, i - 1, clist0, lev0, c0, T)
    requires RowMatches(A, B, i, ys) && RunOf(b, j0, ys)
    ensures AfterRows(A, B, i, clist, lev, c, T')
  {
    hide CandsOk, RowState, KlistOk, RowDone, Increasing, Optimal, InRow, RowMatches;
    clist, lev, c, T' := clist0, lev0, c0, T;
    RowBegins(A, B, i, ys, clist, lev, c, T);
    var j, y, oldl, oldc := j0, -b[j0], 0, c[0];
    ghost var q: nat, mm: nat := 0, 0;
    var extended := false;
    while true
      invariant InRow(A, B, i, ys, T, clist, lev, c, T', q, oldc, oldl, mm)
      invariant q < |ys| && j == j0 + q && y == ys[q]
      decreases |ys| - q
    {
      clist, lev, c, T', oldc, oldl, mm, extended :=
        Step(A, B, i, ys, T, clist, lev, c, T', y, q, oldc, oldl, mm);
      if extended { break; }
      q, j := q + 1, j + 1;
      if q == |ys| {
        assert b[j] <= 0;
      } else {
        RunPositive(A, B, i, ys, q);
        assert b[j] == ys[q];
      }
      y := b[j];
      if y <= 0 { break; }
    }
    if extended {
      RowOptimal(A, B, i, T, T', ys);
    } else {
      RowEnds(A, B, i, ys, T, clist, lev, c, T', oldc, oldl, mm);
    }
  }

  lemma RunPositive(A: seq<int>, B: seq<int>, i: int, ys: seq<int>, q: nat)
    requires RowMatches(A, B, i, ys) && q < |ys|
    ensures ys[q] > 0
  {
  }

  /** The table stone reads: class[i] is 0 if no line of B equals line i of A, and else
      points at the run of its matches in member. */
  ghost predicate MatchTable(A: seq<int>, B: seq<int>, cls: seq<int>, member: seq<int>, runs: seq<seq<int>>) {
    && |cls| == |runs| && |A| < |cls|
    && forall i :: 1 <= i <= |A| ==>
         && RowMatches(A, B, i, runs[i])
         && (if cls[i] == 0 then runs[i] == [] else RunOf(member, cls[i], runs[i]))
  }

  lemma EmptyRow(A: seq<int>, B: seq<int>, i: int, clist: seq<Cand>, lev: seq<nat>, c: seq<int>, T: seq<int>)
    requires AfterRows(A, B, i - 1, clist, lev, c, T) && RowMatches(A, B, i, [])
    ensures AfterRows(A, B, i, clist, lev, c, T)
  {
    RowOptimal(A, B, i, T, T, []);
  }

  lemma NoRows(A: seq<int>, B: seq<int>)
    ensures AfterRows(A, B, 0, [Cand(0, 0, 0)], [0], [0], [0])
  {
    forall ch: Pairs | IsChain(A, B, 0, ch) ensures ch == [] {
      ChainLength(A, B, 0, ch);
    }
  }

  /** stone: k is the length of a longest common subsequence, and candidate c[k] ends one. */
  method Stone(ghost A: seq<int>, ghost B: seq<int>, cls: seq<int>, n: nat, member: seq<int>, ghost runs: seq<seq<int>>)
    returns (k: nat, c: seq<int>, clist: seq<Cand>, ghost lev: seq<nat>, ghost T: seq<int>)
    requires n == |A| && MatchTable(A, B, cls, member, runs)
    ensures AfterRows(A, B, n, clist, lev, c, T) && |c| == k + 1
    ensures forall ch: Pairs :: IsChain(A, B, n, ch) ==> |ch| <= k
    ensures exists ch: Pairs :: IsChain(A, B, n, ch) && |ch| == k
  {
    hide CandsOk, KlistOk, Increasing, Optimal, AfterRows, RowMatches, RunOf, IsChain;
    clist, lev, c, T := [Cand(0, 0, 0)], [0], [0], [0];
    NoRows(A, B);
    var i := 1;
    while i <= n
      invariant 1 <= i <= n + 1 && AfterRows(A, B, i - 1, clist, lev, c, T)
    {
      if cls[i] == 0 {
        EmptyRow(A, B, i, clist, lev, c, T);
      } else {
        clist, lev, c, T := Row(A, B, i, member, cls[i], runs[i], clist, lev, c, T);
      }
      i := i + 1;
    }
    ghost var best := LongestLength(A, B, n, clist, lev, c, T);
    k := |c| - 1;
  }

  // ----- what the thresholds mean ---------------------------------------------------

  /** The common subsequence that a candidate ends, read off its predecessors. */
  lemma {:induction false} CandidateChain(A: seq<int>, B: seq<int>, clist: seq<Cand>, lev: seq<nat>, p: nat)
    returns (ch: Pairs)
    requires CandsOk(A, B, clist, lev) && p < |clist|
    ensures 0 <= clist[p].x <= |A| && 0 <= clist[p].y
    ensures IsChain(A, B, clist[p].x, ch) && |ch| == lev[p]
    ensures if p == 0 then ch == [] else ch != [] && ch[|ch| - 1] == (clist[p].x, clist[p].y)
    decreases p
  {
    hide IsChain;
    if p == 0 {
      ch := [];
      EmptyChain(A, B);
    } else {
      var front := CandidateChain(A, B, clist, lev, clist[p].pred);
      ch := front + [(clist[p].x, clist[p].y)];
      ChainAppend(A, B, clist[clist[p].pred].x, front, clist[p].x, clist[p].y);
    }
  }

  lemma EmptyChain(A: seq<int>, B: seq<int>)
    ensures IsChain(A, B, 0, [])
  {
  }

  lemma ChainAppend(A: seq<int>, B: seq<int>, r: int, ch: Pairs, x: int, y: int)
    requires IsChain(A, B, r, ch) && r < x <= |A| && 1 <= y <= |B| && 1 <= x && A[x - 1] == B[y - 1]
    requires ch != [] ==> ch[|ch| - 1].1 < y
    ensures IsChain(A, B, x, ch + [(x, y)])
  {
  }

  /** After i rows, T[l] is the least y such that the first i lines of A and the first y lines
      of B have a common subsequence of length l, and there is none longer than |T| - 1. */
  lemma LeastEnd(A: seq<int>, B: seq<int>, i: int, clist: seq<Cand>, lev: seq<nat>, c: seq<int>, T: seq<int>, l: nat)
    returns (best: Pairs)
    requires AfterRows(A, B, i, clist, lev, c, T) && 0 <= i <= |A| && 1 <= l < |T|
    ensures IsChain(A, B, i, best) && |best| == l && best[l - 1].1 == T[l] == clist[c[l]].y
    ensures forall ch: Pairs :: IsChain(A, B, i, ch) && |ch| == l ==> T[l] <= ch[l - 1].1
    ensures forall ch: Pairs :: IsChain(A, B, i, ch) ==> |ch| < |T|
  {
    hide IsChain, Optimal, Increasing, CandsOk;
    best := CandidateChain(A, B, clist, lev, c[l]);
    WiderChain(A, B, clist[c[l]].x, i, best);
    OptimalMeans(A, B, i, T);
  }

  lemma WiderChain(A: seq<int>, B: seq<int>, r: int, i: int, ch: Pairs)
    requires IsChain(A, B, r, ch) && r <= i <= |A|
    ensures IsChain(A, B, i, ch)
  {
  }

  lemma OptimalMeans(A: seq<int>, B: seq<int>, i: int, T: seq<int>)
    requires Optimal(A, B, i, T) && |T| >= 1
    ensures forall ch: Pairs :: IsChain(A, B, i, ch) ==> |ch| < |T|
    ensures forall ch: Pairs :: IsChain(A, B, i, ch) && ch != [] ==> T[|ch|] <= ch[|ch| - 1].1
  {
    hide IsChain;
  }

  /** After i rows, |c| - 1 is the length of a longest common subsequence. */
  lemma LongestLength(A: seq<int>, B: seq<int>, i: int, clist: seq<Cand>, lev: seq<nat>, c: seq<int>, T: seq<int>)
    returns (best: Pairs)
    requires AfterRows(A, B, i, clist, lev, c, T) && 0 <= i <= |A|
    ensures |c| >= 1 && IsChain(A, B, i, best) && |best| == |c| - 1
    ensures forall ch: Pairs :: IsChain(A, B, i, ch) ==> |ch| <= |c| - 1
  {
    if |T| == 1 {
      best := [];
    } else {
      best := LeastEnd(A, B, i, clist, lev, c, T, |T| - 1);
    }
  }
}
