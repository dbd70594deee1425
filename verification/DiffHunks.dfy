/** The hunks that diff reports (cmds/simple/diff.c, change), and which hunks belong to a match
    vector: they cover exactly the lines without a match, and a matched line stands between any
    two of them. */
module DiffHunks {

  /** change(a, b, c, d): lines a..b of file 0 give way to lines c..d of file 1. */
  datatype Hunk = Hunk(a: int, b: int, c: int, d: int) {
    // change prints nothing when there is nothing to delete and nothing to insert.
    predicate Silent() {
      a > b && c > d
    }

    predicate Fits(n: int, m: int) {
      1 <= a <= b + 1 <= n + 1 && 1 <= c <= d + 1 <= m + 1
    }
  }

  function Change(script: seq<Hunk>, h: Hunk): seq<Hunk> {
    if h.Silent() then script else script + [h]
  }

  ghost predicate Deletes(script: seq<Hunk>, i: int) {
    exists k :: 0 <= k < |script| && script[k].a <= i <= script[k].b
  }

  ghost predicate Inserts(script: seq<Hunk>, y: int) {
    exists k :: 0 <= k < |script| && script[k].c <= y <= script[k].d
  }

  /** Line y of file 1 has a partner. */
  ghost predicate Matched(J: seq<int>, n: int, y: int)
    requires n < |J|
  {
    exists i :: 1 <= i <= n && J[i] == y
  }

  /** A hunk deletes a line exactly if it has no match, and inserts one exactly if it has none; none
      is silent, and between two of them there is a line that both files keep. */
  ghost predicate Exact(J: seq<int>, n: int, m: int, script: seq<Hunk>) {
    && n + 1 < |J|
    && (forall i :: 1 <= i <= n ==> (Deletes(script, i) <==> J[i] == 0))
    && (forall y :: 1 <= y <= m ==> (Inserts(script, y) <==> !Matched(J, n, y)))
    && (forall k :: 0 <= k < |script| ==> script[k].Fits(n, m) && !script[k].Silent())
  }

  ghost predicate Rising(script: seq<Hunk>) {
    forall k :: 0 < k < |script| ==> script[k - 1].b + 1 < script[k].a && script[k - 1].d + 1 < script[k].c
  }

  ghost predicate Falling(script: seq<Hunk>) {
    forall k :: 0 < k < |script| ==> script[k].b + 1 < script[k - 1].a && script[k].d + 1 < script[k - 1].c
  }

  // J increases, as far as its entries are not 0.
  ghost predicate Increases(J: seq<int>, n: int) {
    n + 1 < |J| && (forall i :: 1 <= i <= n ==> 0 <= J[i])
    && forall i, j :: 1 <= i < j <= n && J[i] != 0 && J[j] != 0 ==> J[i] < J[j]
  }

  // ----- from the front -------------------------------------------------------------

  /** The lines before i0, and those up to pos, are dealt with as they should be. */
  ghost predicate Settled(J: seq<int>, n: int, script: seq<Hunk>, i0: int, pos: int) {
    && Increases(J, n) && 1 <= i0 <= n + 1 && 0 <= pos
    && (forall i :: 1 <= i < i0 ==> (Deletes(script, i) <==> J[i] == 0) && J[i] <= pos)
    && (forall i :: i0 <= i <= n && J[i] != 0 ==> pos < J[i])
    && (forall y :: 1 <= y <= pos ==> (Inserts(script, y) <==> !Matched(J, n, y)))
    && (forall k :: 0 <= k < |script| ==>
          script[k].Fits(n, script[k].d) && !script[k].Silent() && script[k].b < i0 && script[k].d <= pos)
    && Rising(script)
  }

  // A matched line lies between the last hunk and here.
  ghost predicate Clear(script: seq<Hunk>, i0: int, pos: int) {
    script == [] || (script[|script| - 1].b + 1 < i0 && script[|script| - 1].d < pos)
  }

  lemma SettledStart(J: seq<int>, n: int)
    requires Increases(J, n) && n >= 0
    ensures Settled(J, n, [], 1, 0) && Clear([], 1, 0)
  {
  }

  lemma SettledMatch(J: seq<int>, n: int, script: seq<Hunk>, i0: int, pos: int)
    requires Settled(J, n, script, i0, pos) && i0 <= n && J[i0] == pos + 1
    ensures Settled(J, n, script, i0 + 1, pos + 1) && Clear(script, i0 + 1, pos + 1)
  {
    assert Matched(J, n, pos + 1);
  }

  lemma SettledHunk(J: seq<int>, n: int, script: seq<Hunk>, i0: int, i1: int, pos: int, next: int)
    requires Settled(J, n, script, i0, pos) && Clear(script, i0, pos) && i0 - 1 <= i1 <= n && pos < next
    requires forall i :: i0 <= i <= i1 ==> J[i] == 0
    requires forall i :: i1 < i <= n && J[i] != 0 ==> next <= J[i]
    ensures Settled(J, n, Change(script, Hunk(i0, i1, pos + 1, next - 1)), i1 + 1, next - 1)
  {
    hide Deletes, Inserts, Matched, Rising;
    var h := Hunk(i0, i1, pos + 1, next - 1);
    if !h.Silent() {
      DeletesMore(script, h);
      GapUnmatched(J, n, i0, i1, pos, next);
      RisingMore(script, h);
    }
  }

  // No line of file 1 between two matched ones has a partner.
  lemma GapUnmatched(J: seq<int>, n: int, i0: int, i1: int, pos: int, next: int)
    requires n < |J| && (forall i :: 1 <= i < i0 && i <= n ==> J[i] <= pos)
    requires forall i :: i0 <= i <= i1 && 1 <= i <= n ==> J[i] == 0
    requires forall i :: i1 < i <= n && 1 <= i && J[i] != 0 ==> next <= J[i]
    requires 0 <= pos
    ensures forall y :: pos < y < next ==> !Matched(J, n, y)
  {
  }

  lemma RisingMore(script: seq<Hunk>, h: Hunk)
    requires Rising(script) && Clear(script, h.a, h.c - 1)
    ensures Rising(script + [h])
  {
  }

  lemma FallingMore(script: seq<Hunk>, h: Hunk)
    requires Falling(script) && ClearDown(script, h.b, h.d + 1)
    ensures Falling(script + [h])
  {
  }

  lemma DeletesMore(script: seq<Hunk>, h: Hunk)
    ensures forall i :: Deletes(script + [h], i) <==> Deletes(script, i) || h.a <= i <= h.b
    ensures forall y :: Inserts(script + [h], y) <==> Inserts(script, y) || h.c <= y <= h.d
  {
    var s := script + [h];
    assert s[|script|] == h;
    forall i ensures Deletes(s, i) <==> Deletes(script, i) || h.a <= i <= h.b {
      if k :| 0 <= k < |script| && script[k].a <= i <= script[k].b { assert s[k] == script[k]; }
    }
    forall y ensures Inserts(s, y) <==> Inserts(script, y) || h.c <= y <= h.d {
      if k :| 0 <= k < |script| && script[k].c <= y <= script[k].d { assert s[k] == script[k]; }
    }
  }

  lemma SettledEnd(J: seq<int>, n: int, m: int, script: seq<Hunk>)
    requires Settled(J, n, script, n + 1, m)
    ensures Exact(J, n, m, script) && Rising(script)
  {
  }

  // ----- from the back --------------------------------------------------------------

  /** The lines after i0, and those from next on, are dealt with as they should be. */
  ghost predicate SettledDown(J: seq<int>, n: int, m: int, script: seq<Hunk>, i0: int, next: int) {
    && Increases(J, n) && 0 <= i0 <= n && 1 <= next <= m + 1
    && (forall i :: i0 < i <= n ==> (Deletes(script, i) <==> J[i] == 0) && (J[i] != 0 ==> next <= J[i]))
    && (forall i :: 1 <= i <= i0 ==> J[i] < next)
    && (forall y :: next <= y <= m ==> (Inserts(script, y) <==> !Matched(J, n, y)))
    && (forall k :: 0 <= k < |script| ==>
          script[k].Fits(n, m) && !script[k].Silent() && i0 < script[k].a && next <= script[k].c)
    && Falling(script)
  }

  ghost predicate ClearDown(script: seq<Hunk>, i0: int, next: int) {
    script == [] || (i0 + 1 < script[|script| - 1].a && next < script[|script| - 1].c)
  }

  lemma SettledDownStart(J: seq<int>, n: int, m: int)
    requires Increases(J, n) && n >= 0 && m >= 0 && forall i :: 1 <= i <= n ==> J[i] <= m
    ensures SettledDown(J, n, m, [], n, m + 1) && ClearDown([], n, m + 1)
  {
  }

  lemma SettledDownMatch(J: seq<int>, n: int, m: int, script: seq<Hunk>, i0: int, next: int)
    requires SettledDown(J, n, m, script, i0, next) && 1 <= i0 && J[i0] == next - 1 && J[i0] != 0
    ensures SettledDown(J, n, m, script, i0 - 1, next - 1) && ClearDown(script, i0 - 1, next - 1)
  {
    assert Matched(J, n, next - 1);
  }

  lemma SettledDownHunk(J: seq<int>, n: int, m: int, script: seq<Hunk>, i0: int, i1: int, pos: int, next: int)
    requires SettledDown(J, n, m, script, i0, next) && ClearDown(script, i0, next)
    requires 1 <= i1 <= i0 + 1 && 0 <= pos < next
    requires forall i :: i1 <= i <= i0 ==> J[i] == 0
    requires forall i :: 1 <= i < i1 ==> J[i] <= pos
    ensures SettledDown(J, n, m, Change(script, Hunk(i1, i0, pos + 1, next - 1)), i1 - 1, pos + 1)
  {
    hide Deletes, Inserts, Matched, Falling;
    var h := Hunk(i1, i0, pos + 1, next - 1);
    if !h.Silent() {
      DeletesMore(script, h);
      GapUnmatched(J, n, i1, i0, pos, next);
      FallingMore(script, h);
    }
  }

  lemma SettledDownEnd(J: seq<int>, n: int, m: int, script: seq<Hunk>)
    requires SettledDown(J, n, m, script, 0, 1)
    ensures Exact(J, n, m, script) && Falling(script)
  {
  }
}
