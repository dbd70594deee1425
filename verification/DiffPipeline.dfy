/** diff from two files of line hashes to the match vector J (cmds/simple/diff.c). */
module DiffPipeline {
  import opened DiffMatch
  import opened DiffTable

  /** sort, sort, equiv and unsort: the table that stone reads. */
  method BuildTable(A: seq<int>, B: seq<int>, gap0: int, gap1: int)
    returns (cls: seq<int>, member: seq<int>, ghost runs: seq<seq<int>>)
    requires forall y :: 0 <= y < |B| ==> B[y] != 0
    ensures MatchTable(A, B, cls, member, runs)
    ensures |A| < |cls| && forall i :: 1 <= i <= |A| ==> (cls[i] == 0 <==> A[i - 1] !in B)
  {
    hide Rearranged, SortedTo, Tagged, MatchTable;
    var n, m := |A|, |B|;
    var a := Number(A);
    var b := Number(B);
    ghost var a0, b0 := a[..], b[..];
    Sort(a, n, gap0);
    RearrangedTagged(a0, a[..], n, A);
    Sort(b, m, gap1);
    RearrangedTagged(b0, b[..], m, B);
    ghost var sa, sb := a[..], b[..];
    Classify(a, n, b, m);
    TaggedNonzero(sb, m, B);
    var c := Members(b, m);
    TaggedSerials(sa, n, A);
    cls := Unsort(a, n);
    member := c[..];
    UnsortedClasses(A, sa, a[..], cls, sb, m);
    runs := ClassifiedTable(A, B, cls, sb, member);
    TableClasses(A, B, cls, member, runs);
  }

  lemma TableClasses(A: seq<int>, B: seq<int>, cls: seq<int>, member: seq<int>, runs: seq<seq<int>>)
    requires MatchTable(A, B, cls, member, runs)
    ensures |A| < |cls| && forall i :: 1 <= i <= |A| ==> (cls[i] == 0 <==> A[i - 1] !in B)
  {
    forall i | 1 <= i <= |A| ensures cls[i] == 0 <==> A[i - 1] !in B {
      assert RowMatches(A, B, i, runs[i]);
      if A[i - 1] in B {
        var y :| 0 <= y < |B| && B[y] == A[i - 1];
        assert B[y + 1 - 1] == A[i - 1] && y + 1 in runs[i];
      }
    }
  }

  lemma TaggedNonzero(s: seq<Line>, m: nat, B: seq<int>)
    requires Tagged(s, m, B) && forall y :: 0 <= y < |B| ==> B[y] != 0
    ensures forall t :: 1 <= t <= m ==> s[t].value != 0
  {
  }

  lemma TaggedSerials(s: seq<Line>, n: nat, A: seq<int>)
    requires Tagged(s, n, A)
    ensures forall t :: 1 <= t <= n ==> 1 <= s[t].serial <= n
    ensures forall p, q :: 1 <= p < q <= n ==> s[p].serial != s[q].serial
  {
  }

  lemma UnsortedClasses(A: seq<int>, sa: seq<Line>, a: seq<Line>, cls: seq<int>, sb: seq<Line>, m: nat)
    requires Tagged(sa, |A|, A) && |a| == |sa| && m < |sb| && |cls| == |A| + 1
    requires forall t :: 1 <= t <= |A| ==> a[t].serial == sa[t].serial && IsClass(sb, m, sa[t].value, a[t].value)
    requires forall t :: 1 <= t <= |A| ==> cls[a[t].serial] == a[t].value
    ensures Classified(A, cls, sb, m)
  {
    forall i | 1 <= i <= |A| ensures 0 <= cls[i] <= m && IsClass(sb, m, A[i - 1], cls[i]) {
      assert HasLine(sa, |A|, Line(i - 1 + 1, A[i - 1]));
      var t :| 1 <= t <= |A| && sa[t] == Line(i, A[i - 1]);
      assert IsClass(sb, m, sa[t].value, a[t].value);
    }
  }

  // ----- prune ----------------------------------------------------------------------

  /** prune: the longest common prefix, then the longest common suffix of what is left. */
  method Prune(f0: seq<int>, f1: seq<int>) returns (pref: nat, suff: nat)
    ensures pref + suff <= |f0| && pref + suff <= |f1|
    ensures f0[..pref] == f1[..pref] && f0[|f0| - suff..] == f1[|f1| - suff..]
    ensures pref < |f0| && pref < |f1| ==> f0[pref] != f1[pref]
    ensures pref + suff < |f0| && pref + suff < |f1| ==> f0[|f0| - suff - 1] != f1[|f1| - suff - 1]
  {
    pref := 0;
    while pref < |f0| && pref < |f1| && f0[pref] == f1[pref]
      invariant pref <= |f0| && pref <= |f1| && f0[..pref] == f1[..pref]
    {
      pref := pref + 1;
    }
    suff := 0;
    while suff < |f0| - pref && suff < |f1| - pref && f0[|f0| - suff - 1] == f1[|f1| - suff - 1]
      invariant pref + suff <= |f0| && pref + suff <= |f1| && f0[|f0| - suff..] == f1[|f1| - suff..]
    {
      suff := suff + 1;
    }
  }

  lemma CoreIsChain(f0: seq<int>, f1: seq<int>, pref: nat, suff: nat, ch: Pairs, mid: Pairs)
    requires pref + suff <= |f0| && pref + suff <= |f1| && IsChain(f0, f1, |f0|, ch)
    requires |ch| == pref + |mid| + suff
    requires forall t :: 0 <= t < |mid| ==> mid[t] == (ch[pref + t].0 - pref, ch[pref + t].1 - pref)
    ensures var A, B := f0[pref..|f0| - suff], f1[pref..|f1| - suff]; IsChain(A, B, |A|, mid)
  {
    forall t | 0 <= t < |mid|
      ensures 1 <= mid[t].0 <= |f0| - suff - pref && 1 <= mid[t].1 <= |f1| - suff - pref
    {
      ChainRises(f0, f1, |f0|, ch, t + pref);
      ChainLeavesRoom(f0, f1, |f0|, ch, t + pref);
    }
  }

  /** Pruning loses nothing: whatever a common subsequence of the files matches, all but
      pref + suff of its pairs lie in the parts that are left. */
  lemma PruneBound(f0: seq<int>, f1: seq<int>, pref: nat, suff: nat, ch: Pairs) returns (mid: Pairs)
    requires pref + suff <= |f0| && pref + suff <= |f1| && IsChain(f0, f1, |f0|, ch)
    ensures var A, B := f0[pref..|f0| - suff], f1[pref..|f1| - suff];
            IsChain(A, B, |A|, mid) && |ch| <= pref + |mid| + suff
  {
    if |ch| <= pref + suff {
      mid := [];
    } else {
      var core := ch[pref..|ch| - suff];
      mid := seq(|core|, t requires 0 <= t < |core| => (core[t].0 - pref, core[t].1 - pref));
      CoreIsChain(f0, f1, pref, suff, ch, mid);
    }
  }

  // ----- match vectors --------------------------------------------------------------

  /** A match vector: the non-zero entries are increasing and pair equal lines. */
  ghost predicate IsMatching(J: seq<int>, f0: seq<int>, f1: seq<int>) {
    && |J| == |f0| + 2
    && (forall i :: 1 <= i <= |f0| ==> 0 <= J[i] <= |f1| && (J[i] != 0 ==> f0[i - 1] == f1[J[i] - 1]))
    && (forall i, j :: 1 <= i < j <= |f0| && J[i] != 0 && J[j] != 0 ==> J[i] < J[j])
  }

  /** The pairs that J matches among the first n lines. */
  ghost function PairsOf(J: seq<int>, n: nat): Pairs
    requires n < |J|
  {
    if n == 0 then [] else PairsOf(J, n - 1) + (if J[n] != 0 then [(n, J[n])] else [])
  }

  lemma {:induction false} PairsFromJ(J: seq<int>, n: nat, t: nat)
    requires n < |J| && t < |PairsOf(J, n)|
    ensures var p := PairsOf(J, n)[t]; 1 <= p.0 <= n && J[p.0] != 0 && p.1 == J[p.0]
    ensures forall s :: 0 <= s < t ==> PairsOf(J, n)[s].0 < PairsOf(J, n)[t].0
    decreases n
  {
    if t < |PairsOf(J, n - 1)| {
      PairsFromJ(J, n - 1, t);
    } else {
      forall s | 0 <= s < t ensures PairsOf(J, n)[s].0 < n {
        PairsFromJ(J, n - 1, s);
      }
    }
  }

  lemma MatchingIsChain(J: seq<int>, f0: seq<int>, f1: seq<int>)
    requires IsMatching(J, f0, f1)
    ensures IsChain(f0, f1, |f0|, PairsOf(J, |f0|))
  {
    var ch := PairsOf(J, |f0|);
    forall t | 0 <= t < |ch|
      ensures 1 <= ch[t].0 <= |f0| && J[ch[t].0] != 0 && ch[t].1 == J[ch[t].0]
      ensures forall s :: 0 <= s < t ==> ch[s].0 < ch[t].0
    {
      PairsFromJ(J, |f0|, t);
    }
  }

  /** J matches at least as many lines as any chain that J contains. */
  lemma {:induction false} PairsCount(J: seq<int>, n: nat, ch: Pairs)
    requires n < |J|
    requires forall t :: 0 <= t < |ch| ==> 1 <= ch[t].0 <= n && J[ch[t].0] == ch[t].1 != 0
    requires forall s, t :: 0 <= s < t < |ch| ==> ch[s].0 < ch[t].0
    ensures |ch| <= |PairsOf(J, n)|
    decreases n
  {
    if ch == [] {
    } else if ch[|ch| - 1].0 == n {
      PairsCount(J, n - 1, ch[..|ch| - 1]);
    } else {
      PairsCount(J, n - 1, ch);
    }
  }

  // ----- unravel --------------------------------------------------------------------

  /** J while unravel follows the candidates: entries for the pruned ends are set, those for
      the middle lines up to x are still 0, and nothing in the middle matches a line up to y. */
  ghost predicate Unravelling(J: seq<int>, f0: seq<int>, f1: seq<int>, pref: nat, suff: nat, x: int, y: int) {
    && IsMatching(J, f0, f1) && pref + suff <= |f0| && pref + suff <= |f1|
    && (forall i :: 1 <= i <= pref ==> J[i] == i)
    && (forall i :: |f0| - suff < i <= |f0| ==> J[i] == i + |f1| - |f0|)
    && (forall i :: pref < i <= pref + x && i <= |f0| - suff ==> J[i] == 0)
    && (forall i :: pref < i <= |f0| - suff && J[i] != 0 ==> pref + y < J[i] <= |f1| - suff)
  }

  /** The first loop of unravel. */
  method EndsOnly(f0: seq<int>, f1: seq<int>, pref: nat, suff: nat) returns (J: array<int>)
    requires pref + suff <= |f0| && pref + suff <= |f1|
    requires f0[..pref] == f1[..pref] && f0[|f0| - suff..] == f1[|f1| - suff..]
    ensures fresh(J) && Unravelling(J[..], f0, f1, pref, suff, |f0|, |f1|)
  {
    hide Unravelling;
    J := new int[|f0| + 2];
    var i := 0;
    while i <= |f0|
      invariant 0 <= i <= |f0| + 1
      invariant forall t :: 0 <= t < i ==> J[t] == EndEntry(|f0|, |f1|, pref, suff, t)
    {
      J[i] := EndEntry(|f0|, |f1|, pref, suff, i);
      i := i + 1;
    }
    EndsUnravelled(J[..], f0, f1, pref, suff);
  }

  // What J holds at t when only the pruned ends are matched.
  function EndEntry(m: int, n: int, pref: nat, suff: nat, t: int): int {
    if t <= pref then t else if t > m - suff then t + n - m else 0
  }

  lemma EndsUnravelled(J: seq<int>, f0: seq<int>, f1: seq<int>, pref: nat, suff: nat)
    requires pref + suff <= |f0| && pref + suff <= |f1| && |J| == |f0| + 2
    requires f0[..pref] == f1[..pref] && f0[|f0| - suff..] == f1[|f1| - suff..]
    requires forall t :: 0 <= t <= |f0| ==> J[t] == EndEntry(|f0|, |f1|, pref, suff, t)
    ensures Unravelling(J, f0, f1, pref, suff, |f0|, |f1|)
  {
    forall t | 1 <= t <= |f0| && J[t] != 0 ensures f0[t - 1] == f1[J[t] - 1] {
      if t <= pref {
        assert f0[..pref][t - 1] == f1[..pref][t - 1];
      } else {
        var o := t - 1 - (|f0| - suff);
        assert f0[|f0| - suff..][o] == f1[|f1| - suff..][o];
      }
    }
  }

  // Recording one candidate keeps J a matching and makes room for its predecessor.
  lemma Record(J: seq<int>, f0: seq<int>, f1: seq<int>, pref: nat, suff: nat, x: int, y: int, px: int, py: int)
    requires Unravelling(J, f0, f1, pref, suff, x, y)
    requires 0 <= px < x && 0 <= py < y && pref + x <= |f0| - suff && pref + y <= |f1| - suff
    requires f0[pref + x - 1] == f1[pref + y - 1]
    ensures Unravelling(J[pref + x := pref + y], f0, f1, pref, suff, px, py)
  {
  }

  /** The pairs recorded so far: increasing, beyond middle line x, and present in J. */
  ghost predicate Recorded(J: seq<int>, lo: int, hi: int, ch: Pairs) {
    && (forall t :: 0 <= t < |ch| ==> 0 <= lo < ch[t].0 <= hi < |J| && J[ch[t].0] == ch[t].1 != 0)
    && (forall s, t :: 0 <= s < t < |ch| ==> ch[s].0 < ch[t].0)
  }

  lemma RecordedMore(J: seq<int>, x: int, y: int, lo: int, hi: int, ch: Pairs)
    requires Recorded(J, x, hi, ch) && 0 <= lo < x <= hi < |J| && y != 0
    ensures Recorded(J[x := y], lo, hi, [(x, y)] + ch)
  {
  }

  lemma CountAll(J: seq<int>, f0: seq<int>, f1: seq<int>, pref: nat, suff: nat, ch: Pairs)
    requires Unravelling(J, f0, f1, pref, suff, 0, 0) && Recorded(J, pref, |f0| - suff, ch)
    ensures pref + |ch| + suff <= |PairsOf(J, |f0|)|
  {
    var front: Pairs := seq(pref, i => (i + 1, i + 1));
    var back: Pairs := seq(suff, i => (|f0| - suff + i + 1, |f1| - suff + i + 1));
    PairsCount(J, |f0|, front + ch + back);
  }

  /** Unravelling from p0 has come to candidate p after recording the pairs ch. */
  ghost predicate Walking(f0: seq<int>, f1: seq<int>, pref: nat, suff: nat, clist: seq<Cand>, lev: seq<nat>,
                          p0: int, J: seq<int>, p: int, ch: Pairs) {
    && pref + suff <= |f0| && pref + suff <= |f1| && |J| == |f0| + 2
    && CandsOk(f0[pref..|f0| - suff], f1[pref..|f1| - suff], clist, lev)
    && 0 <= p0 < |clist| && 0 <= p < |clist| && |ch| + lev[p] == lev[p0]
    && Unravelling(J, f0, f1, pref, suff, clist[p].x, clist[p].y)
    && Recorded(J, pref + clist[p].x, |f0| - suff, ch)
  }

  // What a candidate other than the first says about the whole files.
  lemma CandFacts(f0: seq<int>, f1: seq<int>, pref: nat, suff: nat, clist: seq<Cand>, lev: seq<nat>, p: int)
    requires pref + suff <= |f0| && pref + suff <= |f1| && 0 <= p < |clist| && clist[p].y != 0
    requires CandsOk(f0[pref..|f0| - suff], f1[pref..|f1| - suff], clist, lev)
    ensures var q := clist[p];
            && 0 <= q.pred < p && lev[p] == lev[q.pred] + 1
            && 0 <= clist[q.pred].x < q.x <= |f0| - suff - pref && 0 <= clist[q.pred].y < q.y <= |f1| - suff - pref
            && f0[pref + q.x - 1] == f1[pref + q.y - 1]
  {
    hide CandsOk;
    var A, B, q := f0[pref..|f0| - suff], f1[pref..|f1| - suff], clist[p];
    CandRange(A, B, clist, lev, p);
    CandRange(A, B, clist, lev, q.pred);
    assert A[q.x - 1] == f0[pref + q.x - 1] && B[q.y - 1] == f1[pref + q.y - 1];
  }

  lemma WalkStep(f0: seq<int>, f1: seq<int>, pref: nat, suff: nat, clist: seq<Cand>, lev: seq<nat>,
                 p0: int, J: seq<int>, p: int, ch: Pairs)
    requires Walking(f0, f1, pref, suff, clist, lev, p0, J, p, ch) && clist[p].y != 0
    ensures var q := clist[p];
            && 0 <= q.pred < p && 0 <= q.x + pref < |J|
            && Walking(f0, f1, pref, suff, clist, lev, p0, J[q.x + pref := q.y + pref], q.pred,
                       [(pref + q.x, pref + q.y)] + ch)
  {
    hide Unravelling, Recorded, CandsOk;
    var q := clist[p];
    CandFacts(f0, f1, pref, suff, clist, lev, p);
    Record(J, f0, f1, pref, suff, q.x, q.y, clist[q.pred].x, clist[q.pred].y);
    RecordedMore(J, pref + q.x, pref + q.y, pref + clist[q.pred].x, |f0| - suff, ch);
  }

  lemma WalkStart(f0: seq<int>, f1: seq<int>, pref: nat, suff: nat, clist: seq<Cand>, lev: seq<nat>, p0: int,
                  J: seq<int>)
    requires pref + suff <= |f0| && pref + suff <= |f1|
    requires CandsOk(f0[pref..|f0| - suff], f1[pref..|f1| - suff], clist, lev) && 0 <= p0 < |clist|
    requires Unravelling(J, f0, f1, pref, suff, |f0|, |f1|)
    ensures Walking(f0, f1, pref, suff, clist, lev, p0, J, p0, [])
  {
    CandRange(f0[pref..|f0| - suff], f1[pref..|f1| - suff], clist, lev, p0);
    Weaken(J, f0, f1, pref, suff, clist[p0].x, clist[p0].y);
  }

  lemma WalkEnd(f0: seq<int>, f1: seq<int>, pref: nat, suff: nat, clist: seq<Cand>, lev: seq<nat>,
                p0: int, J: seq<int>, p: int, ch: Pairs)
    requires Walking(f0, f1, pref, suff, clist, lev, p0, J, p, ch) && clist[p].y == 0
    ensures IsMatching(J, f0, f1) && pref + lev[p0] + suff <= |PairsOf(J, |f0|)|
  {
    CandRange(f0[pref..|f0| - suff], f1[pref..|f1| - suff], clist, lev, p);
    CountAll(J, f0, f1, pref, suff, ch);
  }

  /** unravel: follow the candidates from p and add the pruned ends.  J matches equal lines
      in increasing order, one for each candidate and each pruned line. */
  method Unravel(f0: seq<int>, f1: seq<int>, pref: nat, suff: nat, clist: seq<Cand>, ghost lev: seq<nat>, p0: int)
    returns (J: array<int>)
    requires pref + suff <= |f0| && pref + suff <= |f1|
    requires f0[..pref] == f1[..pref] && f0[|f0| - suff..] == f1[|f1| - suff..]
    requires CandsOk(f0[pref..|f0| - suff], f1[pref..|f1| - suff], clist, lev) && 0 <= p0 < |clist|
    ensures fresh(J) && IsMatching(J[..], f0, f1)
    ensures pref + lev[p0] + suff <= |PairsOf(J[..], |f0|)|
  {
    hide IsMatching, Unravelling, Recorded, PairsOf, CandsOk;
    J := EndsOnly(f0, f1, pref, suff);
    var p := p0;
    ghost var ch: Pairs := [];
    WalkStart(f0, f1, pref, suff, clist, lev, p0, J[..]);
    while clist[p].y != 0
      invariant Walking(f0, f1, pref, suff, clist, lev, p0, J[..], p, ch)
      decreases p
    {
      var q := clist[p];
      ghost var j := J[..];
      WalkStep(f0, f1, pref, suff, clist, lev, p0, j, p, ch);
      J[q.x + pref] := q.y + pref;
      assert J[..] == j[q.x + pref := q.y + pref];
      ch := [(pref + q.x, pref + q.y)] + ch;
      p := q.pred;
    }
    WalkEnd(f0, f1, pref, suff, clist, lev, p0, J[..], p, ch);
  }

  lemma CandRange(A: seq<int>, B: seq<int>, clist: seq<Cand>, lev: seq<nat>, p: int)
    requires CandsOk(A, B, clist, lev) && 0 <= p < |clist|
    ensures 0 <= clist[p].x <= |A| && 0 <= clist[p].y <= |B|
    ensures if p == 0 then clist[p] == Cand(0, 0, 0) && lev[p] == 0
            else
              var q := clist[p];
              && 0 <= q.pred < p && lev[p] == lev[q.pred] + 1 && 1 <= q.x && 1 <= q.y
              && clist[q.pred].x < q.x && clist[q.pred].y < q.y && A[q.x - 1] == B[q.y - 1]
  {
  }

  lemma Weaken(J: seq<int>, f0: seq<int>, f1: seq<int>, pref: nat, suff: nat, x: int, y: int)
    requires Unravelling(J, f0, f1, pref, suff, |f0|, |f1|) && 0 <= x <= |f0| && 0 <= y <= |f1|
    ensures Unravelling(J, f0, f1, pref, suff, x, y)
  {
  }

  // ----- the whole of diff's matching -----------------------------------------------

  /** No common subsequence of the files is longer than what J matches. */
  ghost predicate IsLongest(J: seq<int>, f0: seq<int>, f1: seq<int>)
    requires |f0| < |J|
  {
    forall ch: Pairs :: IsChain(f0, f1, |f0|, ch) ==> |ch| <= |PairsOf(J, |f0|)|
  }

  lemma LongestOverall(f0: seq<int>, f1: seq<int>, pref: nat, suff: nat, T: seq<int>, J: seq<int>)
    requires pref + suff <= |f0| && pref + suff <= |f1| && |f0| < |J| && |T| >= 1
    requires Optimal(f0[pref..|f0| - suff], f1[pref..|f1| - suff], |f0| - suff - pref, T)
    requires pref + (|T| - 1) + suff <= |PairsOf(J, |f0|)|
    ensures IsLongest(J, f0, f1)
  {
    forall ch: Pairs | IsChain(f0, f1, |f0|, ch) ensures |ch| <= |PairsOf(J, |f0|)| {
      var mid := PruneBound(f0, f1, pref, suff, ch);
    }
  }

  /** diff up to unravel: J is a matching of the two files with as many pairs as possible. */
  method MatchFiles(f0: seq<int>, f1: seq<int>, gap0: int, gap1: int) returns (J: array<int>)
    requires forall y :: 0 <= y < |f1| ==> f1[y] != 0
    ensures fresh(J) && IsMatching(J[..], f0, f1) && IsLongest(J[..], f0, f1)
    ensures IsChain(f0, f1, |f0|, PairsOf(J[..], |f0|))
  {
    hide MatchTable, IsMatching, IsLongest, PairsOf, IsChain;
    var pref, suff := Prune(f0, f1);
    var A, B := f0[pref..|f0| - suff], f1[pref..|f1| - suff];
    var cls, member, runs := BuildTable(A, B, gap0, gap1);
    var k, c, clist, lev, T := Stone(A, B, cls, |A|, member, runs);
    J := Unravel(f0, f1, pref, suff, clist, lev, c[k]);
    MatchingLength(J[..], f0, f1);
    LongestOverall(f0, f1, pref, suff, T, J[..]);
    MatchingIsChain(J[..], f0, f1);
  }

  lemma MatchingLength(J: seq<int>, f0: seq<int>, f1: seq<int>)
    requires IsMatching(J, f0, f1)
    ensures |J| == |f0| + 2
  {
  }
}
