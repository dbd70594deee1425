/** diff's script is a shortest one: no script that turns file 0 into file 1 deletes, or inserts,
    fewer lines (cmds/simple/diff.c). */
module DiffMinimal {
  import opened DiffMatch
  import opened DiffPipeline
  import opened DiffHunks
  import opened DiffScript

  /** The number of lines of file 0 that a script deletes. */
  ghost function Deleted(script: seq<Hunk>): int {
    if script == [] then 0
    else Deleted(script[..|script| - 1]) + script[|script| - 1].b - script[|script| - 1].a + 1
  }

  ghost function Inserted(script: seq<Hunk>): int {
    if script == [] then 0
    else Inserted(script[..|script| - 1]) + script[|script| - 1].d - script[|script| - 1].c + 1
  }

  // ----- any script keeps a common subsequence --------------------------------------

  /** The lines that a script keeps, with their places in the text it produces. */
  ghost function KeptPairs(f0: seq<int>, f1: seq<int>, script: seq<Hunk>): Pairs
    requires InOrder(script, |f0|, |f1|)
  {
    if script == [] then []
    else
      var h, front := script[|script| - 1], script[..|script| - 1];
      InOrderFront(script, |f0|, |f1|);
      KeptPairs(f0, f1, front) + Block(Done(front), h.a - 1, |Produced(f0, f1, front)|)
  }

  // Lines from+1..to, placed after p others.
  ghost function Block(from: int, to: int, p: int): (r: Pairs)
    ensures |r| == if from <= to then to - from else 0
  {
    seq(if from <= to then to - from else 0, t => (from + 1 + t, p + 1 + t))
  }

  // Pairs within the first x and y lines that match two texts.
  ghost predicate Fit(a: seq<int>, b: seq<int>, x: int, y: int, ch: Pairs) {
    && 0 <= x <= |a| && 0 <= y <= |b|
    && (forall t :: 0 <= t < |ch| ==>
          1 <= ch[t].0 <= x && 1 <= ch[t].1 <= y && a[ch[t].0 - 1] == b[ch[t].1 - 1])
    && (forall s, t :: 0 <= s < t < |ch| ==> ch[s].0 < ch[t].0 && ch[s].1 < ch[t].1)
  }

  lemma FitBlock(a: seq<int>, b: seq<int>, x: int, y: int, ch: Pairs, to: int)
    requires Fit(a, b, x, y, ch) && x <= to <= |a| && y + (to - x) <= |b| && a[x..to] == b[y..y + (to - x)]
    ensures Fit(a, b, to, y + (to - x), ch + Block(x, to, y))
  {
    var more := Block(x, to, y);
    forall t | 0 <= t < |more| ensures a[more[t].0 - 1] == b[more[t].1 - 1] {
      assert a[x..to][t] == b[y..y + (to - x)][t];
    }
  }

  lemma FitWider(a: seq<int>, b: seq<int>, x: int, y: int, ch: Pairs, x': int, b': seq<int>)
    requires Fit(a, b, x, y, ch) && x <= x' <= |a| && b <= b'
    ensures Fit(a, b', x', |b|, ch)
  {
  }

  lemma LastFits(script: seq<Hunk>, n: int, m: int)
    requires InOrder(script, n, m) && script != []
    ensures script[|script| - 1].Fits(n, m)
  {
  }

  lemma KeptLast(f0: seq<int>, f1: seq<int>, script: seq<Hunk>)
    requires InOrder(script, |f0|, |f1|) && script != [] && InOrder(script[..|script| - 1], |f0|, |f1|)
    requires 0 <= Done(script[..|script| - 1]) < script[|script| - 1].a && script[|script| - 1].Fits(|f0|, |f1|)
    ensures var h, front := script[|script| - 1], script[..|script| - 1];
            && Produced(f0, f1, script) == Produced(f0, f1, front) + f0[Done(front)..h.a - 1] + f1[h.c - 1..h.d]
            && Deleted(script) == Deleted(front) + h.b - h.a + 1
            && KeptPairs(f0, f1, script) ==
                 KeptPairs(f0, f1, front) + Block(Done(front), h.a - 1, |Produced(f0, f1, front)|)
  {
    hide InOrder, Block;
  }

  lemma KeptNothing(f0: seq<int>, f1: seq<int>)
    ensures InOrder([], |f0|, |f1|) && Produced(f0, f1, []) == [] && KeptPairs(f0, f1, []) == [] && Deleted([]) == 0
  {
  }

  lemma FitNothing(a: seq<int>)
    ensures Fit(a, [], 0, 0, [])
  {
  }

  // A text whose next part is kept lines of a, and then others.
  lemma KeptStep(a: seq<int>, p: seq<int>, x: int, ch: Pairs, to: int, end: int, more: seq<int>)
    requires Fit(a, p, x, |p|, ch) && 0 <= x <= to <= end <= |a|
    ensures var r := p + a[x..to] + more; Fit(a, r, end, |r|, ch + Block(x, to, |p|))
  {
    var q := p + a[x..to];
    FitWider(a, p, x, |p|, ch, x, q);
    assert q[|p|..|p| + (to - x)] == a[x..to];
    FitBlock(a, q, x, |p|, ch, to);
    assert q <= q + more;
    FitWider(a, q, to, |q|, ch + Block(x, to, |p|), end, q + more);
    FitLonger(a, q + more, end, |q|, ch + Block(x, to, |p|));
  }

  lemma FitLonger(a: seq<int>, b: seq<int>, x: int, y: int, ch: Pairs)
    requires Fit(a, b, x, y, ch)
    ensures Fit(a, b, x, |b|, ch)
  {
  }

  lemma {:induction false} KeptFit(f0: seq<int>, f1: seq<int>, script: seq<Hunk>)
    requires InOrder(script, |f0|, |f1|)
    ensures 0 <= Done(script) <= |f0|
    ensures Fit(f0, Produced(f0, f1, script), Done(script), |Produced(f0, f1, script)|, KeptPairs(f0, f1, script))
    ensures |KeptPairs(f0, f1, script)| == Done(script) - Deleted(script)
  {
    hide Fit, InOrder, KeptPairs, Produced, Deleted, Block;
    FitNothing(f0);
    KeptNothing(f0, f1);
    if script != [] {
      var h, front := script[|script| - 1], script[..|script| - 1];
      InOrderFront(script, |f0|, |f1|);
      KeptFit(f0, f1, front);
      var p := Produced(f0, f1, front);
      LastFits(script, |f0|, |f1|);
      KeptLast(f0, f1, script);
      KeptStep(f0, p, Done(front), KeptPairs(f0, f1, front), h.a - 1, h.b, f1[h.c - 1..h.d]);
    }
  }

  /** Whatever a script that makes file 1 of file 0 does not delete is a common subsequence. */
  lemma ScriptKeepsChain(f0: seq<int>, f1: seq<int>, script: seq<Hunk>) returns (ch: Pairs)
    requires InOrder(script, |f0|, |f1|) && 0 <= Done(script) <= |f0| && Patch(f0, f1, script) == f1
    ensures IsChain(f0, f1, |f0|, ch) && |ch| == |f0| - Deleted(script)
  {
    KeptFit(f0, f1, script);
    var p, d := Produced(f0, f1, script), Done(script);
    assert p <= f1;
    FitWider(f0, p, d, |p|, KeptPairs(f0, f1, script), d, f1);
    assert f1[|p|..|p| + (|f0| - d)] == f0[d..|f0|];
    FitBlock(f0, f1, d, |p|, KeptPairs(f0, f1, script), |f0|);
    ch := KeptPairs(f0, f1, script) + Block(d, |f0|, |p|);
  }

  lemma {:induction false} ProducedLength(f0: seq<int>, f1: seq<int>, script: seq<Hunk>)
    requires InOrder(script, |f0|, |f1|)
    ensures |Produced(f0, f1, script)| == Done(script) - Deleted(script) + Inserted(script)
  {
    if script != [] {
      InOrderFront(script, |f0|, |f1|);
      ProducedLength(f0, f1, script[..|script| - 1]);
    }
  }

  // ----- what the exact script of a match vector deletes ----------------------------

  ghost function Zeros(J: seq<int>, k: nat): nat
    requires k < |J|
  {
    if k == 0 then 0 else Zeros(J, k - 1) + (if J[k] == 0 then 1 else 0)
  }

  lemma {:induction false} ZerosAndPairs(J: seq<int>, k: nat)
    requires k < |J|
    ensures Zeros(J, k) + |PairsOf(J, k)| == k
  {
    if k > 0 { ZerosAndPairs(J, k - 1); }
  }

  lemma {:induction false} ZerosBetween(J: seq<int>, k: nat, l: nat, zero: bool)
    requires k <= l < |J| && forall i :: k < i <= l ==> (J[i] == 0 <==> zero)
    ensures Zeros(J, l) == Zeros(J, k) + (if zero then l - k else 0)
  {
    if k < l { ZerosBetween(J, k, l - 1, zero); }
  }

  lemma {:induction false} RisingFar(script: seq<Hunk>, n: int, m: int, k: nat, l: nat)
    requires Rising(script) && k < l < |script| && forall t :: 0 <= t < |script| ==> script[t].Fits(n, m)
    ensures script[k].b + 1 < script[l].a
    decreases l - k
  {
    if k + 1 < l { RisingFar(script, n, m, k, l - 1); }
  }

  // Lines between two hunks are not deleted.
  lemma Between(J: seq<int>, n: int, m: int, script: seq<Hunk>, k: nat, i: int)
    requires Exact(J, n, m, script) && Rising(script) && k <= |script| && 1 <= i <= n
    requires (k > 0 ==> script[k - 1].b < i) && (k < |script| ==> i < script[k].a)
    ensures J[i] != 0
  {
    if t :| 0 <= t < |script| && script[t].a <= i <= script[t].b {
      if t < k - 1 { RisingFar(script, n, m, t, k - 1); }
      if t > k { RisingFar(script, n, m, k, t); }
    }
  }

  // Hunk k deletes the lines without a match since the hunk before it.
  lemma DeletedStep(J: seq<int>, n: int, m: int, script: seq<Hunk>, k: nat, from: int)
    requires Exact(J, n, m, script) && Rising(script) && k < |script| && n >= 0
    requires from == if k == 0 then 0 else script[k - 1].b
    ensures var h := script[k];
            0 <= from <= h.a - 1 <= h.b <= n < |J| && Zeros(J, h.b) == Zeros(J, from) + h.b - h.a + 1
  {
    var h := script[k];
    assert h.Fits(n, m) && (k > 0 ==> script[k - 1].Fits(n, m));
    forall i | from < i <= h.a - 1 ensures J[i] != 0 {
      Between(J, n, m, script, k, i);
    }
    ZerosBetween(J, from, h.a - 1, false);
    forall i | h.a - 1 < i <= h.b ensures J[i] == 0 {
      assert Deletes(script, i);
    }
    ZerosBetween(J, h.a - 1, h.b, true);
  }

  lemma {:induction false} DeletedUpTo(J: seq<int>, n: int, m: int, script: seq<Hunk>, k: nat)
    requires Exact(J, n, m, script) && Rising(script) && k <= |script| && n >= 0
    ensures 0 <= Done(script[..k]) <= n && Deleted(script[..k]) == Zeros(J, Done(script[..k]))
  {
    assert n < |J|;
    hide Exact, Rising;
    if k > 0 {
      DeletedUpTo(J, n, m, script, k - 1);
      var front := script[..k - 1];
      assert script[..k][..k - 1] == front;
      if k > 1 { assert front[|front| - 1] == script[k - 2]; }
      DeletedStep(J, n, m, script, k - 1, Done(front));
    }
  }

  lemma ExactDeleted(J: seq<int>, n: int, m: int, script: seq<Hunk>)
    requires Exact(J, n, m, script) && Rising(script) && n >= 0
    ensures Deleted(script) == n - |PairsOf(J, n)|
  {
    DeletedUpTo(J, n, m, script, |script|);
    assert script[..|script|] == script;
    forall i | Done(script) < i <= n ensures J[i] != 0 {
      Between(J, n, m, script, |script|, i);
    }
    ZerosBetween(J, Done(script), n, false);
    ZerosAndPairs(J, n);
  }

  /** With a match vector of maximum size, no script that makes file 1 of file 0 deletes or inserts
      fewer lines. */
  lemma ScriptIsShortest(f0: seq<int>, f1: seq<int>, J: seq<int>, script: seq<Hunk>, other: seq<Hunk>)
    requires |f0| < |J| && IsLongest(J, f0, f1) && Exact(J, |f0|, |f1|, script) && Rising(script)
    requires InOrder(script, |f0|, |f1|) && 0 <= Done(script) <= |f0| && Patch(f0, f1, script) == f1
    requires InOrder(other, |f0|, |f1|) && 0 <= Done(other) <= |f0| && Patch(f0, f1, other) == f1
    ensures Deleted(script) <= Deleted(other) && Inserted(script) <= Inserted(other)
  {
    ProducedLength(f0, f1, script);
    ProducedLength(f0, f1, other);
    ExactDeleted(J, |f0|, |f1|, script);
    var ch := ScriptKeepsChain(f0, f1, other);
  }

  /** diff, from two files of line hashes to its report. */
  method Diff(f0: seq<int>, f1: seq<int>, gap0: int, gap1: int) returns (script: seq<Hunk>)
    requires forall y :: 0 <= y < |f1| ==> f1[y] != 0
    ensures InOrder(script, |f0|, |f1|) && 0 <= Done(script) <= |f0| && Patch(f0, f1, script) == f1
    ensures forall other :: InOrder(other, |f0|, |f1|) && 0 <= Done(other) <= |f0| && Patch(f0, f1, other) == f1 ==>
              Deleted(script) <= Deleted(other) && Inserted(script) <= Inserted(other)
  {
    hide Exact, Rising, IsMatching, IsLongest, Patch;
    var J := MatchFiles(f0, f1, gap0, gap1);
    ghost var j := J[..];
    MatchingLength(j, f0, f1);
    script := Forward(f0, f1, J);
    forall other | InOrder(other, |f0|, |f1|) && 0 <= Done(other) <= |f0| && Patch(f0, f1, other) == f1
      ensures Deleted(script) <= Deleted(other) && Inserted(script) <= Inserted(other)
    {
      ScriptIsShortest(f0, f1, j, script, other);
    }
  }

  // ----- patch and ed ---------------------------------------------------------------

  function Reverse(script: seq<Hunk>): (r: seq<Hunk>)
    ensures |r| == |script|
  {
    if script == [] then [] else [script[|script| - 1]] + Reverse(script[..|script| - 1])
  }

  // What a script has produced depends only on the lines it has dealt with.
  lemma {:induction false} ProducedSame(f0: seq<int>, g0: seq<int>, f1: seq<int>, script: seq<Hunk>)
    requires InOrder(script, |f0|, |f1|) && InOrder(script, |g0|, |f1|)
    requires 0 <= Done(script) <= |f0| && Done(script) <= |g0| && f0[..Done(script)] == g0[..Done(script)]
    ensures Produced(f0, f1, script) == Produced(g0, f1, script)
  {
    if script != [] {
      var h, front := script[|script| - 1], script[..|script| - 1];
      InOrderFront(script, |f0|, |f1|);
      InOrderFront(script, |g0|, |f1|);
      var d := Done(front);
      assert h.Fits(|f0|, |f1|);
      hide InOrder;
      SameSlice(f0, g0, h.b, 0, d);
      assert f0[0..d] == f0[..d] && g0[0..d] == g0[..d];
      ProducedSame(f0, g0, f1, front);
      SameSlice(f0, g0, h.b, d, h.a - 1);
    }
  }

  lemma SameSlice(a: seq<int>, b: seq<int>, k: int, lo: int, hi: int)
    requires 0 <= lo <= hi <= k <= |a| && k <= |b| && a[..k] == b[..k]
    ensures a[lo..hi] == b[lo..hi]
  {
    assert a[lo..hi] == a[..k][lo..hi] && b[lo..hi] == b[..k][lo..hi];
  }

  lemma FrontFits(script: seq<Hunk>, n: int, n': int, m: int)
    requires InOrder(script, n, m) && Done(script) <= n'
    requires forall t :: 0 <= t < |script| ==> script[t].b <= Done(script)
    ensures InOrder(script, n', m)
  {
  }

  lemma {:induction false} DoneIsGreatest(script: seq<Hunk>, n: int, m: int, t: nat)
    requires InOrder(script, n, m) && t < |script|
    ensures script[t].b <= Done(script)
    decreases |script| - t
  {
    if t + 1 < |script| {
      DoneIsGreatest(script, n, m, t + 1);
      assert script[t + 1].Fits(n, m) && script[t + 1 - 1].b < script[t + 1].a;
    }
  }

  /** The two readings of a script agree: patching by the line numbers of the original file is the
      same as running its hunks in ed one after another, the last hunk first. */
  lemma {:induction false} PatchIsEd(f0: seq<int>, f1: seq<int>, script: seq<Hunk>)
    requires InOrder(script, |f0|, |f1|) && 0 <= Done(script) <= |f0|
    ensures EdYields(f0, f1, Reverse(script), Patch(f0, f1, script))
    decreases |script|
  {
    if script == [] {
      assert f0[0..] == f0;
    } else {
      var h, front := script[|script| - 1], script[..|script| - 1];
      InOrderFront(script, |f0|, |f1|);
      var g0 := EdCommand(f0, f1, h);
      forall t | 0 <= t < |front| ensures front[t].b <= Done(front) {
        DoneIsGreatest(front, |f0|, |f1|, t);
      }
      FrontFits(front, |f0|, |g0|, |f1|);
      var d := Done(front);
      assert g0[..d] == f0[..d];
      ProducedSame(f0, g0, f1, front);
      assert g0[d..] == f0[d..h.a - 1] + f1[h.c - 1..h.d] + f0[h.b..];
      assert Patch(g0, f1, front) == Patch(f0, f1, script);
      PatchIsEd(g0, f1, front);
      assert Reverse(script)[1..] == Reverse(front);
    }
  }
}
