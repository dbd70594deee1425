/** The table-building half of diff (cmds/simple/diff.c): lines are sorted by hash with a
    Shell sort, merged into equivalence classes, and put back in file order. */
module DiffTable {
  import opened Params
  import opened DiffMatch

  datatype Line = Line(serial: int, value: int)

  // The order of the Shell sort: by value, then by serial.
  predicate Before(a: Line, b: Line) {
    a.value < b.value || (a.value == b.value && a.serial < b.serial)
  }

  predicate NotAfter(a: Line, b: Line) {
    a == b || Before(a, b)
  }

  predicate SortedTo(s: seq<Line>, lo: nat, hi: nat) {
    forall p, q :: lo <= p < q < hi && q < |s| ==> NotAfter(s[p], s[q])
  }

  function Swap(s: seq<Line>, p: nat, q: nat): seq<Line>
    requires p < |s| && q < |s|
  {
    s[p := s[q]][q := s[p]]
  }

  /** t holds the elements 1..n of s in some order and agrees with s elsewhere. */
  ghost predicate Rearranged(s: seq<Line>, t: seq<Line>, n: nat) {
    && n < |s| == |t| && t[0] == s[0] && t[n + 1..] == s[n + 1..]
    && multiset(t[1..n + 1]) == multiset(s[1..n + 1])
    && (Distinct(s[1..n + 1]) ==> Distinct(t[1..n + 1]))
  }

  lemma SwapMultiset(s: seq<Line>, p: nat, q: nat)
    requires p < q < |s|
    ensures multiset(Swap(s, p, q)) == multiset(s)
  {
    var a, b, c := s[..p], s[p + 1..q], s[q + 1..];
    assert s == a + [s[p]] + b + [s[q]] + c;
    assert Swap(s, p, q) == a + [s[q]] + b + [s[p]] + c;
  }

  lemma SwapDistinct(s: seq<Line>, p: nat, q: nat)
    requires p < q < |s| && Distinct(s)
    ensures Distinct(Swap(s, p, q))
  {
  }

  lemma SwapMiddle(s: seq<Line>, n: nat, p: nat, q: nat)
    requires n < |s| && 1 <= p < q <= n
    ensures var t := Swap(s, p, q);
            && |t| == |s| && t[0] == s[0] && t[n + 1..] == s[n + 1..]
            && t[1..n + 1] == Swap(s[1..n + 1], p - 1, q - 1)
  {
  }

  lemma SwapRearranges(s: seq<Line>, n: nat, p: nat, q: nat)
    requires n < |s| && 1 <= p < q <= n
    ensures Rearranged(s, Swap(s, p, q), n)
  {
    hide Distinct, Swap;
    var mid := s[1..n + 1];
    SwapMiddle(s, n, p, q);
    SwapMultiset(mid, p - 1, q - 1);
    if Distinct(mid) { SwapDistinct(mid, p - 1, q - 1); }
  }

  lemma RearrangedTrans(s: seq<Line>, t: seq<Line>, u: seq<Line>, n: nat)
    requires Rearranged(s, t, n) && Rearranged(t, u, n)
    ensures Rearranged(s, u, n)
  {
  }

  // Elements 1..j+1 are in order except that the one at p+1 may have to move left.
  predicate Sifting(s: seq<Line>, p: nat, j: nat) {
    forall x, y :: 1 <= x < y <= j + 1 && y < |s| && y != p + 1 ==> NotAfter(s[x], s[y])
  }

  lemma SiftStep(s: seq<Line>, p: nat, j: nat)
    requires 1 <= p <= j && j + 1 < |s| && Sifting(s, p, j) && NotAfter(s[p + 1], s[p])
    ensures Sifting(Swap(s, p, p + 1), p - 1, j)
  {
  }

  lemma SiftEnd(s: seq<Line>, p: nat, j: nat)
    requires j + 1 < |s| && p <= j && Sifting(s, p, j)
    requires p > 0 ==> NotAfter(s[p], s[p + 1])
    ensures SortedTo(s, 1, j + 2)
  {
    forall x, y | 1 <= x < y < j + 2 ensures NotAfter(s[x], s[y]) {
      if y == p + 1 && x < p {
        assert NotAfter(s[x], s[p]);
      }
    }
  }

  method SwapAt(a: array<Line>, p: nat, q: nat)
    requires p < q < a.Length
    modifies a
    ensures a[..] == Swap(old(a[..]), p, q)
  {
    a[p], a[q] := a[q], a[p];
  }

  /** The innermost loop of sort: with gap m, sift element j + m down.  A negative gap would lead
      below element j, and the loop leaves at once. */
  method Sift(a: array<Line>, n: nat, m: int, j: nat)
    requires n < a.Length && m != 0 && 1 <= j && (m > 0 ==> j + m <= n)
    modifies a
    ensures Rearranged(old(a[..]), a[..], n)
    ensures m == 1 && SortedTo(old(a[..]), 1, j + 1) ==> SortedTo(a[..], 1, j + 2)
  {
    hide SiftInv, Swap, Rearranged, SortedTo;
    ghost var was := a[..];
    var ai: int := j;
    if m > 0 { SiftStart(was, n, m, j); } else { RearrangedSelf(was, n); }
    while ai > 0
      invariant ai <= j && if m > 0 then SiftInv(was, a[..], n, m, ai, j) else a[..] == was
      decreases ai
    {
      var aim := ai + m;
      if aim < ai { break; }
      if Before(a[ai], a[aim]) { break; }
      SiftRound(was, a[..], n, m, ai, j);
      SwapAt(a, ai, aim);
      ai := ai - m;
    }
    if m > 0 { SiftDone(was, a[..], n, m, ai, j); }
  }

  // The array while element j + m is on its way down, at ai + m: with gap 1 and a sorted
  // part before it, everything else is in order.
  ghost predicate SiftInv(was: seq<Line>, s: seq<Line>, n: nat, m: nat, ai: int, j: nat) {
    && n < |s| == |was| && Rearranged(was, s, n)
    && (m == 1 && SortedTo(was, 1, j + 1) ==> ai >= 0 && Sifting(s, ai, j))
  }

  lemma SiftStart(s: seq<Line>, n: nat, m: nat, j: nat)
    requires n < |s|
    ensures SiftInv(s, s, n, m, j, j)
  {
    RearrangedSelf(s, n);
  }

  lemma SiftRound(was: seq<Line>, s: seq<Line>, n: nat, m: nat, ai: nat, j: nat)
    requires SiftInv(was, s, n, m, ai, j) && 1 <= ai <= j && 1 <= m && j + m <= n
    requires !Before(s[ai], s[ai + m])
    ensures SiftInv(was, Swap(s, ai, ai + m), n, m, ai - m, j)
  {
    hide Rearranged, SortedTo, Sifting, Swap;
    SwapRearranges(s, n, ai, ai + m);
    RearrangedTrans(was, s, Swap(s, ai, ai + m), n);
    if m == 1 && SortedTo(was, 1, j + 1) { SiftStep(s, ai, j); }
    SwapLength(s, ai, ai + m);
  }

  lemma SwapLength(s: seq<Line>, p: nat, q: nat)
    requires p < |s| && q < |s|
    ensures |Swap(s, p, q)| == |s|
  {
  }

  lemma SiftDone(was: seq<Line>, s: seq<Line>, n: nat, m: nat, ai: int, j: nat)
    requires SiftInv(was, s, n, m, ai, j) && ai <= j && 1 <= m && 1 <= j && j + m <= n
    requires ai > 0 ==> Before(s[ai], s[ai + m])
    ensures Rearranged(was, s, n) && (m == 1 && SortedTo(was, 1, j + 1) ==> SortedTo(s, 1, j + 2))
  {
    hide Rearranged, SortedTo, Sifting;
    if m == 1 && SortedTo(was, 1, j + 1) { SiftEnd(s, ai, j); }
  }

  lemma RearrangedSelf(s: seq<Line>, n: nat)
    requires n < |s|
    ensures Rearranged(s, s, n)
  {
  }

  /** One pass of the Shell sort with gap m; with gap 1 it is an insertion sort. */
  method Pass(a: array<Line>, n: nat, m: int)
    requires n < a.Length && m != 0
    modifies a
    ensures Rearranged(old(a[..]), a[..], n)
    ensures m == 1 ==> SortedTo(a[..], 1, n + 1)
  {
    hide Rearranged;
    var k := n - m;
    var j := 1;
    RearrangedSelf(a[..], n);
    while j <= k
      invariant 1 <= j && (j <= k + 1 || j == 1)
      invariant Rearranged(old(a[..]), a[..], n)
      invariant m == 1 ==> SortedTo(a[..], 1, j + 1)
    {
      ghost var s := a[..];
      Sift(a, n, m, j);
      RearrangedTrans(old(a[..]), s, a[..], n);
      j := j + 1;
    }
  }

  // C's division by two, which rounds toward zero.
  function Half(m: int): int {
    if m < 0 then -(-m / 2) else m / 2
  }

  ghost function Pow2(e: nat): nat {
    if e == 0 then 1 else 2 * Pow2(e - 1)
  }

  /** sort: lines 1..n end in increasing order of value and serial.  For n = 0 the program
      starts from an uninitialised gap, here `garbage`. */
  method Sort(a: array<Line>, n: nat, garbage: int)
    requires n < a.Length
    modifies a
    ensures Rearranged(old(a[..]), a[..], n)
    ensures SortedTo(a[..], 1, n + 1)
  {
    hide Rearranged;
    RearrangedSelf(a[..], n);
    var m: int, j := garbage, 1;
    ghost var e: nat := 0;
    while j <= n
      invariant j == Pow2(e) && 1 <= j
      invariant if j == 1 then m == garbage else m == j - 1
    {
      m := 2 * j - 1;
      j := j * 2;
      e := e + 1;
    }
    m := Half(m);
    e := if e == 0 then 0 else e - 1;
    while m != 0
      invariant n > 0 ==> m >= 0 && m + 1 == Pow2(e)
      invariant Rearranged(old(a[..]), a[..], n)
      invariant n > 0 && m == 0 ==> SortedTo(a[..], 1, n + 1)
      decreases if m < 0 then -m else m
    {
      ghost var s := a[..];
      Pass(a, n, m);
      RearrangedTrans(old(a[..]), s, a[..], n);
      e := if e == 0 then 0 else e - 1;
      m := Half(m);
    }
  }

  // ----- equivalence classes --------------------------------------------------------

  /** j is where the lines of value v start among the sorted lines s[1..m], or 0. */
  ghost predicate IsClass(s: seq<Line>, m: nat, v: int, j: int)
    requires m < |s|
  {
    if j == 0 then forall t :: 1 <= t <= m ==> s[t].value != v
    else 1 <= j <= m && s[j].value == v && forall t :: 1 <= t < j ==> s[t].value != v
  }

  /** The merging loops of equiv: each line of file 0 gets the class of its value. */
  method Classify(a: array<Line>, n: nat, b: array<Line>, m: nat)
    requires a != b && n < a.Length && m < b.Length
    requires SortedTo(a[..], 1, n + 1) && SortedTo(b[..], 1, m + 1)
    modifies a
    ensures forall i :: 1 <= i <= n ==>
            a[i].serial == old(a[i].serial) && IsClass(b[..], m, old(a[i].value), a[i].value)
  {
    hide IsClass, SortedTo;
    ghost var was, bs := a[..], b[..];
    var i: nat, j: nat := 1, 1;
    assert Merging(was, a[..], n, bs, m, i, j);
    while i <= n && j <= m
      invariant 1 <= i <= n + 1 && 1 <= j <= m + 1 && b[..] == bs && Merging(was, a[..], n, bs, m, i, j)
      decreases n - i + m - j
    {
      ghost var s := a[..];
      MergeStep(was, s, n, bs, m, i, j);
      if a[i].value < b[j].value {
        a[i] := a[i].(value := 0);
        assert a[..] == s[i := s[i].(value := 0)];
        i := i + 1;
      } else if a[i].value == b[j].value {
        a[i] := a[i].(value := j);
        assert a[..] == s[i := s[i].(value := j)];
        i := i + 1;
      } else {
        j := j + 1;
      }
    }
    while i <= n
      invariant 1 <= i <= n + 1 && (i <= n ==> j == m + 1) && b[..] == bs && Merging(was, a[..], n, bs, m, i, j)
    {
      ghost var s := a[..];
      MergeRest(was, s, n, bs, m, i);
      a[i] := a[i].(value := 0);
      assert a[..] == s[i := s[i].(value := 0)];
      i := i + 1;
    }
  }

  /** The merge of equiv: the lines of a before i have their classes, and the values of b before j
      are less than that of line i. */
  ghost predicate Merging(was: seq<Line>, s: seq<Line>, n: nat, b: seq<Line>, m: nat, i: nat, j: nat) {
    && n < |s| == |was| && m < |b| && 1 <= i
    && (forall t :: i <= t <= n ==> s[t] == was[t])
    && (forall t :: 1 <= t < i && t <= n ==> s[t].serial == was[t].serial && IsClass(b, m, was[t].value, s[t].value))
    && (i <= n ==> forall t :: 1 <= t < j && t <= m ==> b[t].value < was[i].value)
  }

  lemma MergeStep(was: seq<Line>, s: seq<Line>, n: nat, b: seq<Line>, m: nat, i: nat, j: nat)
    requires Merging(was, s, n, b, m, i, j) && SortedTo(was, 1, n + 1) && SortedTo(b, 1, m + 1)
    requires 1 <= i <= n && 1 <= j <= m
    ensures if s[i].value < b[j].value then Merging(was, s[i := s[i].(value := 0)], n, b, m, i + 1, j)
            else if s[i].value == b[j].value then Merging(was, s[i := s[i].(value := j)], n, b, m, i + 1, j)
            else Merging(was, s, n, b, m, i, j + 1)
  {
    forall t | j <= t <= m ensures b[j].value <= b[t].value {
      assert NotAfter(b[j], b[t]) || t == j;
    }
    if i < n { assert NotAfter(was[i], was[i + 1]); }
  }

  lemma MergeRest(was: seq<Line>, s: seq<Line>, n: nat, b: seq<Line>, m: nat, i: nat)
    requires Merging(was, s, n, b, m, i, m + 1) && SortedTo(was, 1, n + 1) && 1 <= i <= n
    ensures Merging(was, s[i := s[i].(value := 0)], n, b, m, i + 1, m + 1)
  {
    if i < n { assert NotAfter(was[i], was[i + 1]); }
  }

  // member[t]: the serial of line t of sorted file 1, negated at the head of each class.
  function MemberAt(s: seq<Line>, t: int): int
    requires 1 <= t < |s|
  {
    if t == 1 || s[t - 1].value != s[t].value then -s[t].serial else s[t].serial
  }

  /** The rest of equiv: the table of class members, closed by -1. */
  method Members(b: array<Line>, m: nat) returns (c: array<int>)
    requires m + 1 < b.Length && forall t :: 1 <= t <= m ==> b[t].value != 0
    modifies b
    ensures fresh(c) && c.Length == m + 2 && c[m + 1] == -1
    ensures forall t :: 0 <= t < b.Length && t != m + 1 ==> b[t] == old(b[t])
    ensures forall t :: 1 <= t <= m ==> c[t] == MemberAt(old(b[..]), t)
  {
    b[m + 1] := b[m + 1].(value := 0);
    c := new int[m + 2];
    var j := 1;
    while j <= m
      modifies c
      invariant 1 <= j <= m + 1 && (1 < j <= m ==> b[j - 1].value != b[j].value)
      invariant forall t :: 1 <= t < j ==> c[t] == MemberAt(b[..], t)
    {
      c[j] := -b[j].serial;
      while b[j + 1].value == b[j].value
        modifies c
        invariant 1 <= j <= m
        invariant forall t :: 1 <= t <= j ==> c[t] == MemberAt(b[..], t)
        decreases m - j
      {
        j := j + 1;
        c[j] := b[j].serial;
      }
      j := j + 1;
    }
    c[j] := -1;
    assert forall t :: 1 <= t <= m ==> MemberAt(b[..], t) == MemberAt(old(b[..]), t);
  }

  // ----- the runs that stone walks --------------------------------------------------

  /** The serials of the lines of s[..m] that share the value of s[j], from j on. */
  ghost function RunSerials(s: seq<Line>, m: nat, j: nat): (ys: seq<int>)
    requires 1 <= j <= m < |s|
    ensures 1 <= |ys| <= m - j + 1 && ys[0] == s[j].serial
    decreases m - j
  {
    if j < m && s[j + 1].value == s[j].value then [s[j].serial] + RunSerials(s, m, j + 1) else [s[j].serial]
  }

  lemma {:induction false} RunElements(s: seq<Line>, m: nat, j: nat, q: nat)
    requires 1 <= j <= m < |s| && q < |RunSerials(s, m, j)|
    ensures RunSerials(s, m, j)[q] == s[j + q].serial && s[j + q].value == s[j].value
    ensures q > 0 ==> s[j + q - 1].value == s[j].value
    decreases q
  {
    if q > 0 {
      RunElements(s, m, j + 1, q - 1);
    }
  }

  lemma {:induction false} RunStops(s: seq<Line>, m: nat, j: nat)
    requires 1 <= j <= m < |s|
    ensures var e := j + |RunSerials(s, m, j)|;
            e <= m + 1 && (e <= m ==> s[e].value != s[j].value && s[e - 1].value == s[j].value)
    decreases m - j
  {
    if j < m && s[j + 1].value == s[j].value {
      RunStops(s, m, j + 1);
    }
  }

  lemma {:induction false} RunComplete(s: seq<Line>, m: nat, j: nat, t: nat)
    requires 1 <= j <= t <= m < |s| && SortedTo(s, 1, m + 1) && s[t].value == s[j].value
    ensures s[t].serial in RunSerials(s, m, j)
    decreases m - j
  {
    if j < t {
      assert NotAfter(s[j], s[j + 1]) && NotAfter(s[j + 1], s[t]);
      RunComplete(s, m, j + 1, t);
    }
  }

  ghost predicate HasLine(s: seq<Line>, m: nat, l: Line) {
    exists t :: 1 <= t <= m < |s| && s[t] == l
  }

  /** s[1..m] are the lines of B, each tagged with its number, in some order. */
  ghost predicate Tagged(s: seq<Line>, m: nat, B: seq<int>) {
    && m == |B| && m < |s|
    && (forall t :: 1 <= t <= m ==> 1 <= s[t].serial <= m && s[t].value == B[s[t].serial - 1])
    && (forall y :: 0 <= y < m ==> HasLine(s, m, Line(y + 1, B[y])))
    && (forall p, q :: 1 <= p < q <= m ==> s[p].serial != s[q].serial)
  }

  lemma RunIncreasing(B: seq<int>, s: seq<Line>, m: nat, j: nat, p: nat, q: nat)
    requires Tagged(s, m, B) && SortedTo(s, 1, m + 1) && 1 <= j <= m
    requires p < q < |RunSerials(s, m, j)|
    ensures RunSerials(s, m, j)[p] < RunSerials(s, m, j)[q]
  {
    RunElements(s, m, j, p);
    RunElements(s, m, j, q);
    assert NotAfter(s[j + p], s[j + q]);
  }

  lemma RunHasMatch(B: seq<int>, s: seq<Line>, m: nat, v: int, j: nat, y: int)
    requires Tagged(s, m, B) && SortedTo(s, 1, m + 1) && IsClass(s, m, v, j)
    requires 0 <= y < m && B[y] == v
    ensures j != 0 && y + 1 in RunSerials(s, m, j)
  {
    assert HasLine(s, m, Line(y + 1, B[y]));
    var t :| 1 <= t <= m && s[t] == Line(y + 1, B[y]);
    assert s[t].value == v;
    assert j != 0 && j <= t;
    RunComplete(s, m, j, t);
  }

  lemma RunValue(B: seq<int>, s: seq<Line>, m: nat, v: int, j: nat, q: nat)
    requires Tagged(s, m, B) && IsClass(s, m, v, j) && j != 0 && q < |RunSerials(s, m, j)|
    ensures 1 <= RunSerials(s, m, j)[q] <= |B| && B[RunSerials(s, m, j)[q] - 1] == v
  {
    RunElements(s, m, j, q);
  }

  // The lines of a class, in file order, or none.
  ghost function RowOf(s: seq<Line>, m: nat, j: int): seq<int> {
    if 1 <= j <= m < |s| then RunSerials(s, m, j) else []
  }

  lemma RunRises(B: seq<int>, s: seq<Line>, m: nat, j: int)
    requires Tagged(s, m, B) && SortedTo(s, 1, m + 1)
    ensures Increasing(RowOf(s, m, j))
  {
    hide Tagged, SortedTo, RunSerials;
    forall p, q | 0 <= p < q < |RowOf(s, m, j)| ensures RowOf(s, m, j)[p] < RowOf(s, m, j)[q] {
      RunIncreasing(B, s, m, j, p, q);
    }
  }

  lemma RunValues(B: seq<int>, s: seq<Line>, m: nat, v: int, j: int)
    requires Tagged(s, m, B) && m < |s| && IsClass(s, m, v, j)
    ensures forall q :: 0 <= q < |RowOf(s, m, j)| ==> 1 <= RowOf(s, m, j)[q] <= |B| && B[RowOf(s, m, j)[q] - 1] == v
  {
    hide Tagged, IsClass, RunSerials;
    forall q | 0 <= q < |RowOf(s, m, j)| ensures 1 <= RowOf(s, m, j)[q] <= |B| && B[RowOf(s, m, j)[q] - 1] == v {
      RunValue(B, s, m, v, j, q);
    }
  }

  lemma RunIsRow(A: seq<int>, B: seq<int>, i: int, s: seq<Line>, m: nat, j: nat)
    requires 1 <= i <= |A| && Tagged(s, m, B) && SortedTo(s, 1, m + 1)
    requires j <= m < |s| && IsClass(s, m, A[i - 1], j)
    ensures RowMatches(A, B, i, RowOf(s, m, j))
  {
    hide SortedTo, Tagged, IsClass, RunSerials, Increasing;
    TaggedSize(s, m, B);
    RunRises(B, s, m, j);
    RunValues(B, s, m, A[i - 1], j);
    forall y | 1 <= y <= |B| && B[y - 1] == A[i - 1] ensures y in RowOf(s, m, j) {
      RunHasMatch(B, s, m, A[i - 1], j, y - 1);
    }
  }

  lemma TaggedSize(s: seq<Line>, m: nat, B: seq<int>)
    requires Tagged(s, m, B)
    ensures m == |B| && m < |s| && forall t :: 1 <= t <= m ==> s[t].serial >= 1
  {
  }

  lemma RunInTable(s: seq<Line>, m: nat, j: nat, member: seq<int>)
    requires 1 <= j <= m < |s| && (j > 1 ==> s[j - 1].value != s[j].value)
    requires forall t :: 1 <= t <= m ==> s[t].serial >= 1
    requires |member| == m + 2 && member[m + 1] == -1
    requires forall t :: 1 <= t <= m ==> member[t] == MemberAt(s, t)
    ensures RunOf(member, j, RunSerials(s, m, j))
  {
    var ys := RunSerials(s, m, j);
    RunStops(s, m, j);
    var e := j + |ys|;
    assert member[e] <= 0 by {
      if e <= m { assert MemberAt(s, e) == -s[e].serial; }
    }
    forall q | 1 <= q < |ys| ensures member[j + q] == ys[q] {
      RunElements(s, m, j, q);
    }
  }

  // ----- from two files to the table ------------------------------------------------

  lemma RearrangedMember(s: seq<Line>, t: seq<Line>, n: nat, l: Line)
    requires Rearranged(s, t, n)
    ensures HasLine(t, n, l) <==> HasLine(s, n, l)
  {
    assert l in multiset(t[1..n + 1]) <==> l in multiset(s[1..n + 1]);
    if HasLine(t, n, l) {
      var x :| 1 <= x <= n && t[x] == l;
      assert t[1..n + 1][x - 1] == l;
    }
    if HasLine(s, n, l) {
      var x :| 1 <= x <= n && s[x] == l;
      assert s[1..n + 1][x - 1] == l;
    }
    if l in s[1..n + 1] {
      var y :| 0 <= y < n && s[1..n + 1][y] == l;
      assert s[y + 1] == l;
    }
    if l in t[1..n + 1] {
      var y :| 0 <= y < n && t[1..n + 1][y] == l;
      assert t[y + 1] == l;
    }
  }

  lemma RearrangedTagged(s: seq<Line>, t: seq<Line>, n: nat, B: seq<int>)
    requires Rearranged(s, t, n) && Tagged(s, n, B)
    ensures Tagged(t, n, B)
  {
    assert Distinct(s[1..n + 1]);
    assert Distinct(t[1..n + 1]);
    hide Rearranged, Distinct;
    forall x | 1 <= x <= n ensures 1 <= t[x].serial <= n && t[x].value == B[t[x].serial - 1] {
      assert HasLine(t, n, t[x]);
      RearrangedMember(s, t, n, t[x]);
    }
    forall y | 0 <= y < n ensures HasLine(t, n, Line(y + 1, B[y])) {
      RearrangedMember(s, t, n, Line(y + 1, B[y]));
    }
    forall p, q | 1 <= p < q <= n ensures t[p].serial != t[q].serial {
      DistinctAt(t, n, p, q);
    }
  }

  lemma DistinctAt(t: seq<Line>, n: nat, p: nat, q: nat)
    requires n < |t| && 1 <= p < q <= n && Distinct(t[1..n + 1])
    ensures t[p] != t[q]
  {
    assert t[1..n + 1][p - 1] != t[1..n + 1][q - 1];
  }

  /** The lines of a file between the pruned ends, numbered from 1. */
  method Number(f: seq<int>) returns (a: array<Line>)
    ensures fresh(a) && a.Length == |f| + 2 && Tagged(a[..], |f|, f)
  {
    a := new Line[|f| + 2](i => Line(0, 0));
    var i := 1;
    while i <= |f|
      invariant 1 <= i <= |f| + 1
      invariant forall t :: 1 <= t < i ==> a[t] == Line(t, f[t - 1])
    {
      a[i] := Line(i, f[i - 1]);
      i := i + 1;
    }
    forall y | 0 <= y < |f| ensures HasLine(a[..], |f|, Line(y + 1, f[y])) {
      assert a[..][y + 1] == Line(y + 1, f[y]);
    }
  }

  /** unsort: back from sorted order to file order. */
  method Unsort(f: array<Line>, l: nat) returns (b: seq<int>)
    requires l < f.Length
    requires forall t :: 1 <= t <= l ==> 1 <= f[t].serial <= l
    requires forall p, q :: 1 <= p < q <= l ==> f[p].serial != f[q].serial
    ensures |b| == l + 1 && forall t :: 1 <= t <= l ==> b[f[t].serial] == f[t].value
  {
    var a := new int[l + 1];
    var i := 1;
    while i <= l
      invariant 1 <= i <= l + 1
      invariant forall t :: 1 <= t < i ==> a[f[t].serial] == f[t].value
    {
      a[f[i].serial] := f[i].value;
      i := i + 1;
    }
    b := a[..];
  }

  /** What BuildTable leaves behind, line by line of file 0. */
  ghost predicate Classified(A: seq<int>, cls: seq<int>, s: seq<Line>, m: nat) {
    && m < |s| && |cls| == |A| + 1
    && forall i :: 1 <= i <= |A| ==> 0 <= cls[i] <= m && IsClass(s, m, A[i - 1], cls[i])
  }

  lemma ClassifiedTable(A: seq<int>, B: seq<int>, cls: seq<int>, s: seq<Line>, member: seq<int>)
    returns (runs: seq<seq<int>>)
    requires Classified(A, cls, s, |B|) && Tagged(s, |B|, B) && SortedTo(s, 1, |B| + 1)
    requires |member| == |B| + 2 && member[|B| + 1] == -1
    requires forall t :: 1 <= t <= |B| ==> member[t] == MemberAt(s, t)
    ensures MatchTable(A, B, cls, member, runs)
  {
    hide MatchTable, RowMatches, RunOf, SortedTo, Tagged, IsClass, Classified, RunSerials, MemberAt;
    var m := |B|;
    ClassifiedSize(A, cls, s, m);
    runs := seq(|A| + 1, i requires 0 <= i < |A| + 1 => RowOf(s, m, cls[i]));
    forall i | 1 <= i <= |A|
      ensures RowMatches(A, B, i, runs[i])
      ensures if cls[i] == 0 then runs[i] == [] else RunOf(member, cls[i], runs[i])
    {
      TableRow(A, B, cls, s, member, i);
    }
    TableRows(A, B, cls, member, runs);
  }

  lemma ClassifiedSize(A: seq<int>, cls: seq<int>, s: seq<Line>, m: nat)
    requires Classified(A, cls, s, m)
    ensures |cls| == |A| + 1 && m < |s|
  {
  }

  lemma TableRow(A: seq<int>, B: seq<int>, cls: seq<int>, s: seq<Line>, member: seq<int>, i: int)
    requires Classified(A, cls, s, |B|) && Tagged(s, |B|, B) && SortedTo(s, 1, |B| + 1) && 1 <= i <= |A|
    requires |member| == |B| + 2 && member[|B| + 1] == -1
    requires forall t :: 1 <= t <= |B| ==> member[t] == MemberAt(s, t)
    ensures RowMatches(A, B, i, RowOf(s, |B|, cls[i]))
    ensures if cls[i] == 0 then RowOf(s, |B|, cls[i]) == [] else RunOf(member, cls[i], RowOf(s, |B|, cls[i]))
  {
    hide RowMatches, RunOf, SortedTo, Tagged, RunSerials, MemberAt;
    RunIsRow(A, B, i, s, |B|, cls[i]);
    TaggedSize(s, |B|, B);
    if cls[i] != 0 { RunInTable(s, |B|, cls[i], member); }
  }

  lemma TableRows(A: seq<int>, B: seq<int>, cls: seq<int>, member: seq<int>, runs: seq<seq<int>>)
    requires |cls| == |runs| == |A| + 1
    requires forall i :: 1 <= i <= |A| ==> RowMatches(A, B, i, runs[i])
    requires forall i :: 1 <= i <= |A| ==> if cls[i] == 0 then runs[i] == [] else RunOf(member, cls[i], runs[i])
    ensures MatchTable(A, B, cls, member, runs)
  {
  }
}
