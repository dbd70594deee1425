/** The reporting half of diff (cmds/simple/diff.c): the generator that turns a match vector
    into hunks, in file order, or in reverse order for an ed script (-e). */
module DiffScript {
  import opened DiffPipeline
  import opened DiffHunks

  // ----- what a script means --------------------------------------------------------

  /** The last line of file 0 that a script in file order has dealt with. */
  function Done(script: seq<Hunk>): int {
    if script == [] then 0 else script[|script| - 1].b
  }

  /** Hunks in file order, each starting after the one before. */
  predicate InOrder(script: seq<Hunk>, n: int, m: int) {
    && (forall i :: 0 <= i < |script| ==> script[i].Fits(n, m))
    && (forall i :: 0 < i < |script| ==> script[i - 1].b < script[i].a)
  }

  lemma InOrderFront(script: seq<Hunk>, n: int, m: int)
    requires InOrder(script, n, m) && script != []
    ensures InOrder(script[..|script| - 1], n, m)
    ensures 0 <= Done(script[..|script| - 1]) < script[|script| - 1].a
  {
  }

  /** The text produced by the time the last hunk of the script is used up. */
  ghost function Produced(f0: seq<int>, f1: seq<int>, script: seq<Hunk>): seq<int>
    requires InOrder(script, |f0|, |f1|)
  {
    if script == [] then []
    else
      var h, front := script[|script| - 1], script[..|script| - 1];
      InOrderFront(script, |f0|, |f1|);
      Produced(f0, f1, front) + f0[Done(front)..h.a - 1] + f1[h.c - 1..h.d]
  }

  /** patch: line numbers refer to the original file 0. */
  ghost function Patch(f0: seq<int>, f1: seq<int>, script: seq<Hunk>): seq<int>
    requires InOrder(script, |f0|, |f1|) && 0 <= Done(script) <= |f0|
  {
    Produced(f0, f1, script) + f0[Done(script)..]
  }

  /** One ed command, applied to the text at hand. */
  function EdCommand(text: seq<int>, f1: seq<int>, h: Hunk): seq<int>
    requires h.Fits(|text|, |f1|)
  {
    text[..h.a - 1] + f1[h.c - 1..h.d] + text[h.b..]
  }

  /** ed: the commands one after another, each on the result of the one before. */
  ghost predicate EdYields(text: seq<int>, f1: seq<int>, script: seq<Hunk>, result: seq<int>)
    decreases |script|
  {
    if script == [] then text == result
    else script[0].Fits(|text|, |f1|) && EdYields(EdCommand(text, f1, script[0]), f1, script[1..], result)
  }

  lemma {:induction false} EdAppend(text: seq<int>, f1: seq<int>, script: seq<Hunk>, mid: seq<int>, h: Hunk)
    requires EdYields(text, f1, script, mid) && h.Fits(|mid|, |f1|)
    ensures EdYields(text, f1, script + [h], EdCommand(mid, f1, h))
    decreases |script|
  {
    if script == [] {
      assert (script + [h])[1..] == [];
    } else {
      EdAppend(EdCommand(text, f1, script[0]), f1, script[1..], mid, h);
      assert (script + [h])[1..] == script[1..] + [h];
    }
  }

  // ----- forward --------------------------------------------------------------------

  /** From line i0 - 1 on, J still increases and still pairs equal lines. */
  ghost predicate Ahead(f0: seq<int>, f1: seq<int>, J: seq<int>, i0: int) {
    var m := |f0|;
    && |J| == m + 2 && 1 <= i0 <= m + 1 && J[m + 1] == |f1| + 1
    && 0 <= J[i0 - 1] <= |f1|
    && (forall i :: i0 <= i <= m ==> 0 <= J[i] <= |f1| && (J[i] != 0 ==> f0[i - 1] == f1[J[i] - 1]))
    && (forall i, j :: i0 - 1 <= i < j <= m + 1 && J[j] != 0 ==> J[i] < J[j])
  }

  /** The script deals with the lines of file 0 before i0 and produces pos lines of file 1. */
  ghost predicate Reached(f0: seq<int>, f1: seq<int>, script: seq<Hunk>, i0: int, pos: int) {
    && InOrder(script, |f0|, |f1|) && 0 <= Done(script) < i0 <= |f0| + 1 && 0 <= pos <= |f1|
    && Produced(f0, f1, script) + f0[Done(script)..i0 - 1] == f1[..pos]
  }

  lemma ForwardMatch(f0: seq<int>, f1: seq<int>, J: seq<int>, i0: int, script: seq<Hunk>)
    requires Ahead(f0, f1, J, i0) && Reached(f0, f1, script, i0, J[i0 - 1])
    requires i0 <= |f0| && J[i0] == J[i0 - 1] + 1
    ensures Ahead(f0, f1, J, i0 + 1) && Reached(f0, f1, script, i0 + 1, J[i0])
  {
    hide InOrder, Produced;
    var d := Done(script);
    assert f0[d..i0] == f0[d..i0 - 1] + [f0[i0 - 1]];
    assert f1[..J[i0]] == f1[..J[i0 - 1]] + [f1[J[i0] - 1]];
  }

  lemma AheadJumps(f0: seq<int>, f1: seq<int>, J: seq<int>, i0: int, i1: int)
    requires Ahead(f0, f1, J, i0) && i0 - 1 <= i1 <= |f0| && J[i1 + 1] != 0
    ensures J[i0 - 1] < J[i1 + 1] <= |f1| + 1
    ensures Ahead(f0, f1, J[i1 := J[i1 + 1] - 1], i1 + 1)
  {
  }

  lemma OrderAppend(script: seq<Hunk>, h: Hunk, n: int, m: int)
    requires InOrder(script, n, m) && h.Fits(n, m) && Done(script) < h.a
    ensures InOrder(script + [h], n, m) && Done(script + [h]) == h.b
  {
  }

  lemma HunkProduces(f0: seq<int>, f1: seq<int>, script: seq<Hunk>, h: Hunk)
    requires InOrder(script, |f0|, |f1|) && h.Fits(|f0|, |f1|) && 0 <= Done(script) < h.a
    ensures InOrder(script + [h], |f0|, |f1|) && Done(script + [h]) == h.b
    ensures Produced(f0, f1, script + [h]) ==
            Produced(f0, f1, script) + f0[Done(script)..h.a - 1] + f1[h.c - 1..h.d]
  {
    OrderAppend(script, h, |f0|, |f1|);
    hide InOrder;
    assert (script + [h])[..|script|] == script;
  }

  // The hunk (i0, i1, pos + 1, next - 1) brings file 1 up to just before line `next`.
  lemma ForwardHunk(f0: seq<int>, f1: seq<int>, script: seq<Hunk>, i0: int, i1: int, pos: int, next: int)
    requires Reached(f0, f1, script, i0, pos) && i0 - 1 <= i1 <= |f0| && pos < next <= |f1| + 1
    ensures Reached(f0, f1, Change(script, Hunk(i0, i1, pos + 1, next - 1)), i1 + 1, next - 1)
  {
    hide InOrder, Produced;
    var h := Hunk(i0, i1, pos + 1, next - 1);
    if !h.Silent() {
      HunkProduces(f0, f1, script, h);
      assert f1[..next - 1] == f1[..pos] + f1[pos..next - 1];
      assert f0[i1..i1] == [];
      assert Produced(f0, f1, script + [h]) == f1[..next - 1];
    }
  }

  /** What J and the script so far have to do with the match vector j0 that was given. */
  ghost predicate Follows(j0: seq<int>, n: int, J: seq<int>, script: seq<Hunk>, i0: int) {
    && |J| == |j0| == n + 2 && 1 <= i0 <= n + 1
    && Settled(j0, n, script, i0, J[i0 - 1]) && forall i :: i0 <= i <= n ==> J[i] == j0[i]
  }

  lemma FollowsMatch(j0: seq<int>, n: int, J: seq<int>, script: seq<Hunk>, i0: int)
    requires Follows(j0, n, J, script, i0) && i0 <= n && J[i0] == J[i0 - 1] + 1
    ensures Follows(j0, n, J, script, i0 + 1) && Clear(script, i0 + 1, J[i0])
  {
    hide Settled;
    SettledMatch(j0, n, script, i0, J[i0 - 1]);
  }

  lemma FollowsHunk(j0: seq<int>, n: int, J: seq<int>, script: seq<Hunk>, i0: int, i1: int)
    requires Follows(j0, n, J, script, i0) && Clear(script, i0, J[i0 - 1]) && i0 - 1 <= i1 <= n
    requires J[i0 - 1] < J[i1 + 1] && forall i :: i0 <= i <= i1 ==> J[i] == 0
    ensures Follows(j0, n, J[i1 := J[i1 + 1] - 1], Change(script, Hunk(i0, i1, J[i0 - 1] + 1, J[i1 + 1] - 1)), i1 + 1)
  {
    hide Settled, Clear;
    NextIsLeast(j0, n, script, i0, J[i0 - 1], i1);
    SettledHunk(j0, n, script, i0, i1, J[i0 - 1], J[i1 + 1]);
  }

  lemma NextIsLeast(j0: seq<int>, n: int, script: seq<Hunk>, i0: int, pos: int, i1: int)
    requires Settled(j0, n, script, i0, pos) && i0 - 1 <= i1 <= n
    ensures n + 1 < |j0| && 0 <= pos
    ensures i1 < n && j0[i1 + 1] != 0 ==> forall i :: i1 < i <= n && j0[i] != 0 ==> j0[i1 + 1] <= j0[i]
  {
  }

  // The first inner loop: lines that match the next line of file 1 need no hunk.
  method SkipMatched(f0: seq<int>, f1: seq<int>, J: array<int>, start: int, ghost script: seq<Hunk>, ghost j0: seq<int>)
    returns (i0: int)
    requires Ahead(f0, f1, J[..], start) && Reached(f0, f1, script, start, J[start - 1])
    requires Follows(j0, |f0|, J[..], script, start)
    ensures Follows(j0, |f0|, J[..], script, i0)
    ensures start < i0 || Clear(script, start, J[start - 1]) ==> Clear(script, i0, J[i0 - 1])
    ensures start <= i0 <= |f0| + 1 && (i0 <= |f0| ==> J[i0] != J[i0 - 1] + 1)
    ensures Ahead(f0, f1, J[..], i0) && Reached(f0, f1, script, i0, J[i0 - 1])
    ensures start <= |f0| && J[start] == J[start - 1] + 1 ==> start < i0
  {
    hide Ahead, Reached, Follows, Clear;
    AheadEnd(f0, f1, J[..], start);
    i0 := start;
    while i0 <= |f0| && J[i0] == J[i0 - 1] + 1
      invariant start <= i0 <= |f0| + 1 && Follows(j0, |f0|, J[..], script, i0)
      invariant start < i0 || Clear(script, start, J[start - 1]) ==> Clear(script, i0, J[i0 - 1])
      invariant Ahead(f0, f1, J[..], i0) && Reached(f0, f1, script, i0, J[i0 - 1])
    {
      ForwardMatch(f0, f1, J[..], i0, script);
      FollowsMatch(j0, |f0|, J[..], script, i0);
      i0 := i0 + 1;
    }
  }

  // The second inner loop: lines of file 0 without a match.
  method SkipUnmatched(J: array<int>, m: nat, start: int) returns (i1: int)
    requires J.Length == m + 2 && 0 <= start <= m && J[m + 1] != 0
    ensures start <= i1 <= m && J[i1 + 1] != 0 && forall i :: start < i <= i1 ==> J[i] == 0
    ensures start < m && J[start + 1] == 0 ==> start < i1
  {
    i1 := start;
    while i1 < m && J[i1 + 1] == 0
      invariant start <= i1 <= m && forall i :: start < i <= i1 ==> J[i] == 0
    {
      i1 := i1 + 1;
    }
  }

  // The hunk between two matched runs; J[i1] then stands for the end of what it inserts.
  method ForwardEmit(f0: seq<int>, f1: seq<int>, J: array<int>, script0: seq<Hunk>, i0: int, i1: int,
                     ghost j0: seq<int>)
    returns (script: seq<Hunk>)
    requires Ahead(f0, f1, J[..], i0) && Reached(f0, f1, script0, i0, J[i0 - 1])
    requires i0 - 1 <= i1 <= |f0| && J[i1 + 1] != 0 && forall i :: i0 <= i <= i1 ==> J[i] == 0
    requires Follows(j0, |f0|, J[..], script0, i0) && Clear(script0, i0, J[i0 - 1])
    modifies J
    ensures Follows(j0, |f0|, J[..], script, i1 + 1)
    ensures Ahead(f0, f1, J[..], i1 + 1) && Reached(f0, f1, script, i1 + 1, J[i1])
    ensures script == Change(script0, Hunk(i0, i1, old(J[i0 - 1]) + 1, old(J[i1 + 1]) - 1))
    ensures J[i1] == J[i1 + 1] - 1
  {
    hide Ahead, Reached, Follows, Clear;
    AheadEnd(f0, f1, J[..], i0);
    ghost var j := J[..];
    AheadJumps(f0, f1, j, i0, i1);
    FollowsHunk(j0, |f0|, j, script0, i0, i1);
    ForwardHunk(f0, f1, script0, i0, i1, J[i0 - 1], J[i1 + 1]);
    script := Change(script0, Hunk(i0, i1, J[i0 - 1] + 1, J[i1 + 1] - 1));
    J[i1] := J[i1 + 1] - 1;
    assert J[..] == j[i1 := j[i1 + 1] - 1];
  }

  /** The forward loop of output: the hunks turn file 0 into file 1, and they are those of J. */
  method Forward(f0: seq<int>, f1: seq<int>, J: array<int>) returns (script: seq<Hunk>)
    requires IsMatching(J[..], f0, f1)
    modifies J
    ensures InOrder(script, |f0|, |f1|) && 0 <= Done(script) <= |f0|
    ensures Patch(f0, f1, script) == f1
    ensures Exact(old(J[..]), |f0|, |f1|, script) && Rising(script)
  {
    hide Ahead, Reached, IsMatching, InOrder, Patch, Produced, Follows, Settled, Exact;
    var m := |f0|;
    ghost var j := J[..];
    ForwardStart(f0, f1, j);
    J[0] := 0;
    J[m + 1] := |f1| + 1;
    assert J[..] == j[0 := 0][m + 1 := |f1| + 1];
    script := [];
    var i0 := 1;
    while i0 <= m
      invariant 1 <= i0 <= m + 1 && Front(f0, f1, j, J[..], script, i0)
      invariant i0 <= m && J[i0] != J[i0 - 1] + 1 ==> Clear(script, i0, J[i0 - 1])
      invariant (i0 == m + 1 ==> J[m] == if m == 0 then 0 else |f1|) && (m == 0 ==> script == [])
      decreases m - i0, if i0 <= m && J[i0] == J[i0 - 1] + 1 then 0 else 1
    {
      i0, script := ForwardRound(f0, f1, J, i0, script, j);
    }
    if m == 0 {
      ForwardHunk(f0, f1, script, 1, 0, 0, |f1| + 1);
      NoLines(j, f1, script);
      script := Change(script, Hunk(1, 0, 1, |f1|));
    } else {
      FollowsEnd(j, m, J[..], script, |f1|);
    }
    ReachedEnd(f0, f1, script);
  }

  /** Between two rounds of the forward loop. */
  ghost predicate Front(f0: seq<int>, f1: seq<int>, j0: seq<int>, J: seq<int>, script: seq<Hunk>, i0: int) {
    && |J| == |f0| + 2 && 1 <= i0 <= |f0| + 1 && J[|f0| + 1] == |f1| + 1
    && Ahead(f0, f1, J, i0) && Reached(f0, f1, script, i0, J[i0 - 1]) && Follows(j0, |f0|, J, script, i0)
  }

  // One round of the forward loop.
  method ForwardRound(f0: seq<int>, f1: seq<int>, J: array<int>, start: int, script0: seq<Hunk>, ghost j0: seq<int>)
    returns (i0: int, script: seq<Hunk>)
    requires J.Length == |f0| + 2 && 1 <= start <= |f0| && Front(f0, f1, j0, J[..], script0, start)
    requires J[start] != J[start - 1] + 1 ==> Clear(script0, start, J[start - 1])
    modifies J
    ensures start <= i0 <= |f0| + 1 && Front(f0, f1, j0, J[..], script, i0)
    ensures i0 <= |f0| ==> J[i0] == J[i0 - 1] + 1
    ensures i0 == |f0| + 1 ==> J[|f0|] == |f1|
    ensures start < i0 || (J[i0] == J[i0 - 1] + 1 && !old(J[start] == J[start - 1] + 1))
  {
    hide Ahead, Reached, Follows, Clear;
    i0 := SkipMatched(f0, f1, J, start, script0, j0);
    AheadEnd(f0, f1, J[..], i0);
    script, i0 := ForwardGap(f0, f1, J, script0, i0, j0);
  }

  // The second half of a round: the lines without a match, and their hunk.
  method ForwardGap(f0: seq<int>, f1: seq<int>, J: array<int>, script0: seq<Hunk>, i0: int, ghost j0: seq<int>)
    returns (script: seq<Hunk>, next: int)
    requires J.Length == |f0| + 2 && 1 <= i0 <= |f0| + 1 && Front(f0, f1, j0, J[..], script0, i0)
    requires Clear(script0, i0, J[i0 - 1])
    modifies J
    ensures i0 <= next <= |f0| + 1 && Front(f0, f1, j0, J[..], script, next)
    ensures J[next - 1] == J[next] - 1 && (i0 <= |f0| && old(J[i0]) == 0 ==> i0 < next)
  {
    hide Ahead, Reached, Follows, Clear;
    var i1 := SkipUnmatched(J, |f0|, i0 - 1);
    script := ForwardEmit(f0, f1, J, script0, i0, i1, j0);
    next := i1 + 1;
    AheadEnd(f0, f1, J[..], next);
  }

  lemma FollowsEnd(j0: seq<int>, n: int, J: seq<int>, script: seq<Hunk>, m: int)
    requires Follows(j0, n, J, script, n + 1) && J[n] == m
    ensures Exact(j0, n, m, script) && Rising(script)
  {
    SettledEnd(j0, n, m, script);
  }

  lemma NoLines(j0: seq<int>, f1: seq<int>, script: seq<Hunk>)
    requires script == [] && |j0| == 2
    ensures Exact(j0, 0, |f1|, Change(script, Hunk(1, 0, 1, |f1|))) && Rising(Change(script, Hunk(1, 0, 1, |f1|)))
  {
    SettledStart(j0, 0);
    SettledHunk(j0, 0, script, 1, 0, 0, |f1| + 1);
    SettledEnd(j0, 0, |f1|, Change(script, Hunk(1, 0, 1, |f1|)));
  }

  lemma ForwardStart(f0: seq<int>, f1: seq<int>, J: seq<int>)
    requires IsMatching(J, f0, f1)
    ensures |J| == |f0| + 2
    ensures Ahead(f0, f1, J[0 := 0][|f0| + 1 := |f1| + 1], 1) && Reached(f0, f1, [], 1, 0)
    ensures Follows(J, |f0|, J[0 := 0][|f0| + 1 := |f1| + 1], [], 1) && Clear([], 1, 0)
  {
    SettledStart(J, |f0|);
  }

  lemma AheadEnd(f0: seq<int>, f1: seq<int>, J: seq<int>, i0: int)
    requires Ahead(f0, f1, J, i0)
    ensures |J| == |f0| + 2 && J[|f0| + 1] == |f1| + 1 && 1 <= i0 <= |f0| + 1
  {
  }

  lemma ReachedEnd(f0: seq<int>, f1: seq<int>, script: seq<Hunk>)
    requires Reached(f0, f1, script, |f0| + 1, |f1|)
    ensures InOrder(script, |f0|, |f1|) && 0 <= Done(script) <= |f0|
    ensures Patch(f0, f1, script) == f1
  {
    assert f1[..|f1|] == f1;
    assert f0[Done(script)..|f0|] == f0[Done(script)..];
  }

  // ----- backward -------------------------------------------------------------------

  /** Up to line i0 + 1, J still increases and still pairs equal lines. */
  ghost predicate Behind(f0: seq<int>, f1: seq<int>, J: seq<int>, i0: int) {
    var m := |f0|;
    && |J| == m + 2 && 0 <= i0 <= m && J[0] == 0
    && 1 <= J[i0 + 1] <= |f1| + 1
    && (forall i :: 1 <= i <= i0 ==> 0 <= J[i] <= |f1| && (J[i] != 0 ==> f0[i - 1] == f1[J[i] - 1]))
    && (forall i, j :: 0 <= i < j <= i0 + 1 && J[j] != 0 ==> J[i] < J[j])
  }

  /** After the script the text is the first i0 lines of file 0 and file 1 from line `next`. */
  ghost predicate Rewritten(f0: seq<int>, f1: seq<int>, script: seq<Hunk>, i0: int, next: int) {
    && 0 <= i0 <= |f0| && 1 <= next <= |f1| + 1
    && EdYields(f0, f1, script, f0[..i0] + f1[next - 1..])
  }

  lemma BackwardMatch(f0: seq<int>, f1: seq<int>, J: seq<int>, i0: int, script: seq<Hunk>)
    requires Behind(f0, f1, J, i0) && Rewritten(f0, f1, script, i0, J[i0 + 1])
    requires 1 <= i0 && J[i0] == J[i0 + 1] - 1 && J[i0] != 0
    ensures Behind(f0, f1, J, i0 - 1) && Rewritten(f0, f1, script, i0 - 1, J[i0])
  {
    assert f0[..i0] == f0[..i0 - 1] + [f0[i0 - 1]];
    assert f1[J[i0] - 1..] == [f1[J[i0] - 1]] + f1[J[i0 + 1] - 1..];
    assert f0[..i0] + f1[J[i0 + 1] - 1..] == f0[..i0 - 1] + f1[J[i0] - 1..];
  }

  lemma BehindJumps(f0: seq<int>, f1: seq<int>, J: seq<int>, i0: int, i1: int)
    requires Behind(f0, f1, J, i0) && 1 <= i1 <= i0 + 1 && (i1 > 1 ==> J[i1 - 1] != 0)
    ensures 0 <= J[i1 - 1] < J[i0 + 1] <= |f1| + 1
    ensures Behind(f0, f1, J[i1 := J[i1 - 1] + 1], i1 - 1)
  {
  }

  // The hunk (i1, i0, pos + 1, next - 1) extends the finished end of the text downwards.
  lemma BackwardHunk(f0: seq<int>, f1: seq<int>, script: seq<Hunk>, i0: int, i1: int, pos: int, next: int)
    requires Rewritten(f0, f1, script, i0, next) && 1 <= i1 <= i0 + 1 && 0 <= pos < next
    ensures Rewritten(f0, f1, Change(script, Hunk(i1, i0, pos + 1, next - 1)), i1 - 1, pos + 1)
  {
    hide EdYields;
    var h := Hunk(i1, i0, pos + 1, next - 1);
    if !h.Silent() {
      var text := f0[..i0] + f1[next - 1..];
      EdAppend(f0, f1, script, text, h);
      assert text[..i1 - 1] == f0[..i1 - 1];
      assert text[i0..] == f1[next - 1..];
      assert f1[pos..] == f1[pos..next - 1] + f1[next - 1..];
      assert EdCommand(text, f1, h) == f0[..i1 - 1] + f1[pos..];
    }
  }

  /** What J and the script so far have to do with the match vector j0 that was given. */
  ghost predicate FollowsDown(j0: seq<int>, n: int, m: int, J: seq<int>, script: seq<Hunk>, i0: int) {
    && |J| == |j0| == n + 2 && 0 <= i0 <= n
    && SettledDown(j0, n, m, script, i0, J[i0 + 1]) && forall i :: 1 <= i <= i0 ==> J[i] == j0[i]
  }

  lemma FollowsDownMatch(j0: seq<int>, n: int, m: int, J: seq<int>, script: seq<Hunk>, i0: int)
    requires FollowsDown(j0, n, m, J, script, i0) && 1 <= i0 && J[i0] == J[i0 + 1] - 1 && J[i0] != 0
    ensures FollowsDown(j0, n, m, J, script, i0 - 1) && ClearDown(script, i0 - 1, J[i0])
  {
    hide SettledDown;
    SettledDownMatch(j0, n, m, script, i0, J[i0 + 1]);
  }

  lemma FollowsDownHunk(j0: seq<int>, n: int, m: int, J: seq<int>, script: seq<Hunk>, i0: int, i1: int)
    requires FollowsDown(j0, n, m, J, script, i0) && ClearDown(script, i0, J[i0 + 1]) && 1 <= i1 <= i0 + 1
    requires J[0] == 0 && 0 <= J[i1 - 1] < J[i0 + 1] && (i1 > 1 ==> J[i1 - 1] != 0)
    requires forall i :: i1 <= i <= i0 ==> J[i] == 0
    ensures FollowsDown(j0, n, m, J[i1 := J[i1 - 1] + 1],
                        Change(script, Hunk(i1, i0, J[i1 - 1] + 1, J[i0 + 1] - 1)), i1 - 1)
  {
    hide SettledDown, ClearDown;
    LastIsGreatest(j0, n, m, script, i0, J[i0 + 1], i1);
    SettledDownHunk(j0, n, m, script, i0, i1, J[i1 - 1], J[i0 + 1]);
  }

  lemma LastIsGreatest(j0: seq<int>, n: int, m: int, script: seq<Hunk>, i0: int, next: int, i1: int)
    requires SettledDown(j0, n, m, script, i0, next) && 1 <= i1 <= i0 + 1
    ensures n + 1 < |j0|
    ensures i1 > 1 && j0[i1 - 1] != 0 ==> forall i :: 1 <= i < i1 ==> j0[i] <= j0[i1 - 1]
  {
  }

  /** Between two rounds of the backward loop. */
  ghost predicate Back(f0: seq<int>, f1: seq<int>, j0: seq<int>, J: seq<int>, script: seq<Hunk>, i0: int) {
    && |J| == |f0| + 2 && 0 <= i0 <= |f0| && J[0] == 0
    && Behind(f0, f1, J, i0) && Rewritten(f0, f1, script, i0, J[i0 + 1])
    && FollowsDown(j0, |f0|, |f1|, J, script, i0)
  }

  method SkipMatchedDown(f0: seq<int>, f1: seq<int>, J: array<int>, start: int, ghost script: seq<Hunk>,
                         ghost j0: seq<int>) returns (i0: int)
    requires J.Length == |f0| + 2 && 0 <= start <= |f0| && Back(f0, f1, j0, J[..], script, start)
    ensures 0 <= i0 <= start && (i0 >= 1 ==> J[i0] == 0 || J[i0] != J[i0 + 1] - 1)
    ensures Back(f0, f1, j0, J[..], script, i0)
    ensures start >= 1 && J[start] == J[start + 1] - 1 && J[start] != 0 ==> i0 < start
    ensures i0 < start || ClearDown(script, start, J[start + 1]) ==> ClearDown(script, i0, J[i0 + 1])
  {
    hide Behind, Rewritten, FollowsDown, ClearDown;
    i0 := start;
    while i0 >= 1 && J[i0] == J[i0 + 1] - 1 && J[i0] != 0
      invariant 0 <= i0 <= start && Back(f0, f1, j0, J[..], script, i0)
      invariant i0 < start || ClearDown(script, start, J[start + 1]) ==> ClearDown(script, i0, J[i0 + 1])
    {
      BackwardMatch(f0, f1, J[..], i0, script);
      FollowsDownMatch(j0, |f0|, |f1|, J[..], script, i0);
      i0 := i0 - 1;
    }
  }

  method SkipUnmatchedDown(J: array<int>, start: int) returns (i1: int)
    requires 1 <= start < J.Length
    ensures 1 <= i1 <= start && (i1 > 1 ==> J[i1 - 1] != 0) && forall i :: i1 <= i < start ==> J[i] == 0
    ensures start > 1 && J[start - 1] == 0 ==> i1 < start
  {
    i1 := start;
    while i1 > 1 && J[i1 - 1] == 0
      invariant 1 <= i1 <= start && forall i :: i1 <= i < start ==> J[i] == 0
    {
      i1 := i1 - 1;
    }
  }

  method BackwardEmit(f0: seq<int>, f1: seq<int>, J: array<int>, script0: seq<Hunk>, i0: int, i1: int,
                      ghost j0: seq<int>)
    returns (script: seq<Hunk>)
    requires J.Length == |f0| + 2 && Back(f0, f1, j0, J[..], script0, i0) && ClearDown(script0, i0, J[i0 + 1])
    requires 1 <= i1 <= i0 + 1 && (i1 > 1 ==> J[i1 - 1] != 0) && forall i :: i1 <= i <= i0 ==> J[i] == 0
    modifies J
    ensures Back(f0, f1, j0, J[..], script, i1 - 1)
    ensures script == Change(script0, Hunk(i1, i0, old(J[i1 - 1]) + 1, old(J[i0 + 1]) - 1))
    ensures J[i1] == J[i1 - 1] + 1 && J[i1 - 1] == old(J[i1 - 1])
  {
    hide Behind, Rewritten, FollowsDown, ClearDown;
    ghost var j := J[..];
    BehindJumps(f0, f1, j, i0, i1);
    BackwardHunk(f0, f1, script0, i0, i1, J[i1 - 1], J[i0 + 1]);
    FollowsDownHunk(j0, |f0|, |f1|, j, script0, i0, i1);
    script := Change(script0, Hunk(i1, i0, J[i1 - 1] + 1, J[i0 + 1] - 1));
    J[i1] := J[i1 - 1] + 1;
    assert J[..] == j[i1 := j[i1 - 1] + 1];
  }

  lemma BackwardStart(f0: seq<int>, f1: seq<int>, J: seq<int>)
    requires IsMatching(J, f0, f1)
    ensures |J| == |f0| + 2
    ensures Behind(f0, f1, J[0 := 0][|f0| + 1 := |f1| + 1], |f0|) && Rewritten(f0, f1, [], |f0|, |f1| + 1)
    ensures FollowsDown(J, |f0|, |f1|, J[0 := 0][|f0| + 1 := |f1| + 1], [], |f0|) && ClearDown([], |f0|, |f1| + 1)
  {
    SettledDownStart(J, |f0|, |f1|);
    assert f0[..|f0|] + f1[|f1|..] == f0;
  }

  lemma RewrittenEnd(f0: seq<int>, f1: seq<int>, script: seq<Hunk>)
    requires Rewritten(f0, f1, script, 0, 1)
    ensures EdYields(f0, f1, script, f1)
  {
    assert f0[..0] + f1[0..] == f1;
  }

  // One round of the backward loop.
  method BackwardRound(f0: seq<int>, f1: seq<int>, J: array<int>, start: int, script0: seq<Hunk>, ghost j0: seq<int>)
    returns (i0: int, script: seq<Hunk>)
    requires J.Length == |f0| + 2 && 1 <= start <= |f0| && Back(f0, f1, j0, J[..], script0, start)
    requires (J[start] == J[start + 1] - 1 && J[start] != 0) || ClearDown(script0, start, J[start + 1])
    modifies J
    ensures 0 <= i0 <= start && Back(f0, f1, j0, J[..], script, i0)
    ensures i0 == 0 ==> J[1] == 1
    ensures i0 >= 1 ==> J[i0] == J[i0 + 1] - 1 && J[i0] != 0
    ensures i0 < start || !old(J[start] == J[start + 1] - 1 && J[start] != 0)
  {
    hide Behind, Rewritten, FollowsDown, ClearDown;
    i0 := SkipMatchedDown(f0, f1, J, start, script0, j0);
    var i1 := SkipUnmatchedDown(J, i0 + 1);
    script := BackwardEmit(f0, f1, J, script0, i0, i1, j0);
    i0 := i1 - 1;
  }

  /** The backward (-e) loop of output: the commands, run by ed in the order in which they
      are printed, turn file 0 into file 1, and they are those of J. */
  method Backward(f0: seq<int>, f1: seq<int>, J: array<int>) returns (script: seq<Hunk>)
    requires IsMatching(J[..], f0, f1)
    modifies J
    ensures EdYields(f0, f1, script, f1)
    ensures Exact(old(J[..]), |f0|, |f1|, script) && Falling(script)
  {
    hide Behind, Rewritten, IsMatching, EdYields, FollowsDown, ClearDown, Exact, SettledDown;
    var m := |f0|;
    ghost var j := J[..];
    BackwardStart(f0, f1, j);
    J[0] := 0;
    J[m + 1] := |f1| + 1;
    assert J[..] == j[0 := 0][m + 1 := |f1| + 1];
    script := [];
    var i0 := m;
    while i0 >= 1
      invariant 0 <= i0 <= m && Back(f0, f1, j, J[..], script, i0)
      invariant i0 >= 1 ==> (J[i0] == J[i0 + 1] - 1 && J[i0] != 0) || ClearDown(script, i0, J[i0 + 1])
      invariant (i0 == 0 ==> J[1] == if m == 0 then |f1| + 1 else 1) && (m == 0 ==> script == [])
      decreases i0, if i0 >= 1 && J[i0] == J[i0 + 1] - 1 && J[i0] != 0 then 0 else 1
    {
      i0, script := BackwardRound(f0, f1, J, i0, script, j);
    }
    if m == 0 {
      BackwardHunk(f0, f1, script, 0, 1, 0, |f1| + 1);
      NoLinesDown(j, f1, script);
      script := Change(script, Hunk(1, 0, 1, |f1|));
    } else {
      FollowsDownEnd(j, m, |f1|, J[..], script);
    }
    RewrittenEnd(f0, f1, script);
  }

  lemma FollowsDownEnd(j0: seq<int>, n: int, m: int, J: seq<int>, script: seq<Hunk>)
    requires FollowsDown(j0, n, m, J, script, 0) && J[1] == 1
    ensures Exact(j0, n, m, script) && Falling(script)
  {
    SettledDownEnd(j0, n, m, script);
  }

  lemma NoLinesDown(j0: seq<int>, f1: seq<int>, script: seq<Hunk>)
    requires script == [] && |j0| == 2
    ensures Exact(j0, 0, |f1|, Change(script, Hunk(1, 0, 1, |f1|))) && Falling(Change(script, Hunk(1, 0, 1, |f1|)))
  {
    SettledDownStart(j0, 0, |f1|);
    SettledDownHunk(j0, 0, |f1|, script, 0, 1, 0, |f1| + 1);
    SettledDownEnd(j0, 0, |f1|, Change(script, Hunk(1, 0, 1, |f1|)));
  }
}
