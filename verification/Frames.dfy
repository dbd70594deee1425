/** The allocator of contiguous memory frames (kern/frames.c) and its use by fork, exec and
    exit. */
module Frames {
  import opened Params

  const NFRAME: nat := 16
  const FREE: int := 0

  // ----- what the frame list means --------------------------------------------------

  /** Frames s..s+n are all free. */
  ghost predicate IsRun(l: seq<int>, s: int, n: int) {
    0 <= s && 0 <= n && s + n <= |l| && forall k :: s <= k < s + n ==> l[k] == FREE
  }

  ghost predicate HasRun(l: seq<int>, n: int) {
    exists s :: IsRun(l, s, n)
  }

  /** The list without the frames of pid. */
  function Freed(l: seq<int>, pid: int): (r: seq<int>)
    ensures |r| == |l| && forall k :: 0 <= k < |l| ==> r[k] == if l[k] == pid then FREE else l[k]
  {
    seq(|l|, k requires 0 <= k < |l| => if l[k] == pid then FREE else l[k])
  }

  /** The list with frames s..s+n given to pid. */
  function Taken(l: seq<int>, s: int, n: int, pid: int): (r: seq<int>)
    ensures |r| == |l| && forall k :: 0 <= k < |l| ==> r[k] == if s <= k < s + n then pid else l[k]
  {
    seq(|l|, k requires 0 <= k < |l| => if s <= k < s + n then pid else l[k])
  }

  /** s is where the longest run begins, the leftmost if there are several. */
  ghost predicate LongestAt(l: seq<int>, s: int, n: int) {
    && IsRun(l, s, n)
    && (forall t, m :: IsRun(l, t, m) ==> m <= n)
    && (forall t, m :: IsRun(l, t, m) && t < s ==> m < n)
  }

  // ----- the search for the longest run ---------------------------------------------

  datatype Track = Track(maxstart: int, maxnum: int, potstart: int, potnum: int)

  // A free frame, if any, lies at or after i.
  ghost predicate Broken(l: seq<int>, i: nat) {
    i == 0 || (i <= |l| && l[i - 1] != FREE)
  }

  ghost predicate Best(l: seq<int>, i: nat, maxstart: int, maxnum: int, upto: int) {
    && (if maxstart == -1 then maxnum == 0 else maxnum >= 1 && IsRun(l, maxstart, maxnum) && maxstart + maxnum <= i)
    && (forall t, m :: IsRun(l, t, m) && t + m <= i && 1 <= m && t < upto ==> m <= maxnum)
    && (forall t, m :: IsRun(l, t, m) && t + m <= i && t < upto && t < maxstart ==> m < maxnum)
  }

  /** After frames 0..i: the best run that has ended, and the run that has not. */
  ghost predicate Tracked(l: seq<int>, i: nat, t: Track) {
    && i <= |l|
    && (if t.potstart == -1 then Broken(l, i) && Best(l, i, t.maxstart, t.maxnum, i)
        else
          && 0 <= t.potstart < i && t.potstart + t.potnum == i && IsRun(l, t.potstart, t.potnum)
          && Broken(l, t.potstart) && t.maxstart + t.maxnum <= t.potstart
          && Best(l, i, t.maxstart, t.maxnum, t.potstart))
  }

  /** A run starts. */
  lemma TrackStart(l: seq<int>, i: nat, t: Track)
    requires Tracked(l, i, t) && i < |l| && l[i] == FREE && t.potstart == -1
    ensures Tracked(l, i + 1, t.(potstart := i, potnum := 1))
  {
    forall s, m | IsRun(l, s, m) && s + m <= i + 1 && s < i && 1 <= m ensures s + m <= i {
    }
    forall s, m | IsRun(l, s, m) && s + m <= i + 1 && s < i && s < t.maxstart ensures m < t.maxnum {
    }
  }

  /** The run goes on. */
  lemma TrackGrow(l: seq<int>, i: nat, t: Track)
    requires Tracked(l, i, t) && i < |l| && l[i] == FREE && t.potstart != -1
    ensures Tracked(l, i + 1, t.(potnum := t.potnum + 1))
  {
    BeforeBreak(l, i, i + 1, t);
  }

  // A run that begins before the current one also ends before it.
  lemma BeforeBreak(l: seq<int>, i: nat, j: nat, t: Track)
    requires Tracked(l, i, t) && t.potstart != -1 && i <= j <= |l|
    ensures Best(l, j, t.maxstart, t.maxnum, t.potstart)
  {
    forall s, m | IsRun(l, s, m) && s + m <= j && s < t.potstart && 1 <= m ensures s + m <= i {
    }
    forall s, m | IsRun(l, s, m) && s + m <= j && s < t.potstart && s < t.maxstart ensures m < t.maxnum {
    }
  }

  function Ended(t: Track): Track {
    if t.potstart == -1 then t
    else if t.potnum > t.maxnum then Track(t.potstart, t.potnum, -1, t.potnum)
    else t.(potstart := -1)
  }

  lemma EndedBest(l: seq<int>, i: nat, t: Track)
    requires Tracked(l, i, t) && t.potstart != -1
    ensures Best(l, i, Ended(t).maxstart, Ended(t).maxnum, i)
  {
    var e := Ended(t);
    forall s, m | IsRun(l, s, m) && s + m <= i && 1 <= m && s < i ensures m <= e.maxnum {
      if s >= t.potstart { assert m <= t.potnum; }
    }
    forall s, m | IsRun(l, s, m) && s + m <= i && s < i && s < e.maxstart ensures m < e.maxnum {
      if 1 <= m && s < t.potstart { assert m <= t.maxnum; }
    }
  }

  /** The frame is taken, so the run, if there is one, ends before it. */
  lemma TrackTaken(l: seq<int>, i: nat, t: Track)
    requires Tracked(l, i, t) && i < |l| && l[i] != FREE
    ensures Tracked(l, i + 1, Ended(t))
  {
    var e := Ended(t);
    if t.potstart != -1 { EndedBest(l, i, t); }
    forall s, m | IsRun(l, s, m) && s + m <= i + 1 && 1 <= m ensures s + m <= i {
    }
    forall s, m | IsRun(l, s, m) && s + m <= i + 1 && s < e.maxstart ensures m < e.maxnum {
    }
  }

  /** What the loop has found: every run but one of a single last frame. */
  ghost predicate Found(l: seq<int>, t: Track) {
    Best(l, |l|, t.maxstart, t.maxnum, if t.potstart == -1 then |l| else |l| - 1)
  }

  // ----- the frame list -------------------------------------------------------------

  class FrameList {
    const flist: array<int>

    predicate Sized()
    {
      flist.Length == NFRAME
    }

    constructor ()
      ensures Sized() && fresh(flist) && flist[..] == seq(NFRAME, _ => FREE)
    {
      flist := new int[NFRAME](_ => FREE);
    }

    method FreeFrames(pid: int)
      modifies flist
      ensures flist[..] == Freed(old(flist[..]), pid)
    {
      var i := 0;
      while i < flist.Length
        invariant 0 <= i <= flist.Length
        invariant forall k :: 0 <= k < i ==> flist[k] == Freed(old(flist[..]), pid)[k]
        invariant forall k :: i <= k < flist.Length ==> flist[k] == old(flist[k])
      {
        if flist[i] == pid { flist[i] := FREE; }
        i := i + 1;
      }
    }

    method Restore(blist: array<int>)
      requires blist.Length == flist.Length && blist != flist
      modifies flist
      ensures flist[..] == blist[..]
    {
      var i := 0;
      while i < flist.Length
        invariant 0 <= i <= flist.Length && blist[..] == old(blist[..])
        invariant forall k :: 0 <= k < i ==> flist[k] == blist[k]
      {
        flist[i] := blist[i];
        i := i + 1;
      }
    }

    method FirstFree() returns (r: int)
      ensures -1 <= r < flist.Length
      ensures if r == -1 then !HasRun(flist[..], 1)
              else IsRun(flist[..], r, 1) && forall k :: 0 <= k < r ==> flist[k] != FREE
    {
      var i := 0;
      while i < flist.Length
        invariant 0 <= i <= flist.Length && forall k :: 0 <= k < i ==> flist[k] != FREE
      {
        if flist[i] == FREE { return i; }
        i := i + 1;
      }
      OneFrame(flist[..]);
      return -1;
    }

    /** The loop that looks for the biggest run. */
    method BiggestRun() returns (t: Track)
      ensures Found(flist[..], t) && (t.potstart != -1 ==> t.potstart == flist.Length - 1)
      ensures t.maxstart == -1 || t.maxstart + 1 < flist.Length
    {
      hide IsRun, Best, Broken;
      ghost var l := flist[..];
      t := Track(-1, 0, -1, 0);
      Nothing(l);
      var i: nat := 0;
      while i < flist.Length
        invariant i <= flist.Length && flist[..] == l
        invariant i < flist.Length ==> Tracked(l, i, t)
        invariant (t.maxstart == -1 || t.maxstart + 1 < i) && t.potstart < i
        invariant i == flist.Length ==> Found(l, t) && (t.potstart != -1 ==> t.potstart == flist.Length - 1)
      {
        if flist[i] == FREE && t.potstart == -1 {
          TrackStart(l, i, t);
          t := t.(potstart := i, potnum := 1);
        } else if flist[i] == FREE {
          TrackGrow(l, i, t);
          t := t.(potnum := t.potnum + 1);
          if i == flist.Length - 1 {
            EndedBest(l, i + 1, t);
            t := Ended(t);
          }
        } else {
          TrackTaken(l, i, t);
          t := Ended(t);
        }
        i := i + 1;
      }
    }

    /** allocframes. */
    method AllocFrames(pid: int, nframes: int) returns (r: int)
      requires Sized()
      modifies flist
      ensures pid != FREE && nframes >= 1 ==>
                (r == -1 <==> !HasRun(Freed(old(flist[..]), pid), nframes))
      ensures nframes < 1 ==>
                (r == -1 <==> forall k :: 0 <= k < NFRAME - 1 ==> Freed(old(flist[..]), pid)[k] != FREE)
      ensures r == -1 && nframes >= 1 ==> flist[..] == old(flist[..])
      ensures r != -1 || nframes < 1 ==> flist[..] == Taken(Freed(old(flist[..]), pid), r, nframes, pid)
      ensures r != -1 ==> IsRun(Freed(old(flist[..]), pid), r, if nframes < 1 then 0 else nframes)
      ensures r != -1 && nframes >= 2 ==> exists n :: LongestAt(Freed(old(flist[..]), pid), r, n)
    {
      var blist := new int[NFRAME];
      ghost var was := flist[..];
      forall i | 0 <= i < NFRAME { blist[i] := flist[i]; }
      assert blist[..] == was && flist[..] == was;
      FreeFrames(pid);
      ghost var freed := Freed(was, pid);
      assert flist[..] == freed;
      if nframes == 1 {
        r := FirstFree();
        assert flist[..] == freed && (r != -1 ==> IsRun(freed, r, 1));
        if r == -1 { Restore(blist); } else { flist[r] := pid; }
        return;
      }
      var t := BiggestRun();
      if t.maxnum >= nframes {
        FoundAnswer(flist[..], t, nframes);
        Take(t.maxstart, nframes, pid);
        return t.maxstart;
      }
      FoundNone(flist[..], t, nframes);
      Restore(blist);
      return -1;
    }

    method Take(s: int, n: int, pid: int)
      requires n >= 1 ==> 0 <= s && s + n <= flist.Length
      modifies flist
      ensures flist[..] == Taken(old(flist[..]), s, n, pid)
    {
      var i := 0;
      while i < n
        invariant 0 <= i && (n >= 0 ==> i <= n) && (n < 0 ==> i == 0)
        invariant forall k :: 0 <= k < flist.Length ==> flist[k] == if s <= k < s + i then pid else old(flist[k])
      {
        flist[s + i] := pid;
        i := i + 1;
      }
    }
  }

  lemma OneFrame(l: seq<int>)
    ensures HasRun(l, 1) <==> exists k :: 0 <= k < |l| && l[k] == FREE
  {
    if k :| 0 <= k < |l| && l[k] == FREE { assert IsRun(l, k, 1); }
    if s :| IsRun(l, s, 1) { assert l[s] == FREE; }
  }

  lemma Nothing(l: seq<int>)
    ensures Tracked(l, 0, Track(-1, 0, -1, 0))
    ensures |l| == 0 ==> Found(l, Track(-1, 0, -1, 0))
  {
  }

  lemma FoundAnswer(l: seq<int>, t: Track, n: int)
    requires |l| == NFRAME && Found(l, t) && n != 1 && t.maxnum >= n
    requires t.potstart != -1 ==> t.potstart == |l| - 1
    requires t.maxstart == -1 || t.maxstart + 1 < |l|
    ensures n >= 2 ==> IsRun(l, t.maxstart, n) && LongestAt(l, t.maxstart, t.maxnum)
    ensures n < 1 ==> (t.maxstart == -1 <==> forall k :: 0 <= k < NFRAME - 1 ==> l[k] != FREE)
    ensures n < 1 && t.maxstart != -1 ==> IsRun(l, t.maxstart, 0)
  {
    if t.maxstart != -1 { assert l[t.maxstart] == FREE; }
    if n < 1 && t.maxstart == -1 {
      forall k | 0 <= k < NFRAME - 1 ensures l[k] != FREE {
        assert IsRun(l, k, 1) <==> l[k] == FREE;
      }
    }
  }

  lemma FoundNone(l: seq<int>, t: Track, n: int)
    requires |l| == NFRAME && Found(l, t) && n != 1 && t.maxnum < n
    ensures !HasRun(l, n)
  {
  }

  // ----- fork, exec and exit --------------------------------------------------------

  /** A process' basereg and nframes. */
  datatype Extent = Extent(base: int, n: int)

  ghost predicate Holds(l: seq<int>, pid: int, e: Extent) {
    && 0 <= e.n && (e.n > 0 ==> 0 <= e.base && e.base + e.n <= |l|)
    && forall k :: 0 <= k < |l| ==> (l[k] == pid <==> e.base <= k < e.base + e.n)
  }

  /** Every live process holds exactly the frames its table entry says, and nobody else any. */
  ghost predicate Owns(l: seq<int>, live: map<int, Extent>) {
    && FREE !in live
    && (forall k :: 0 <= k < |l| ==> l[k] == FREE || l[k] in live)
    && forall pid :: pid in live ==> Holds(l, pid, live[pid])
  }

  predicate Apart(a: Extent, b: Extent) {
    a.n == 0 || b.n == 0 || a.base + a.n <= b.base || b.base + b.n <= a.base
  }

  /** Live processes hold disjoint intervals. */
  lemma LiveApart(l: seq<int>, live: map<int, Extent>, p: int, q: int)
    requires Owns(l, live) && p in live && q in live && p != q
    ensures Apart(live[p], live[q])
  {
    assert Holds(l, p, live[p]) && Holds(l, q, live[q]);
    var a, b := live[p], live[q];
    var k := if a.base <= b.base then b.base else a.base;
    assert a.base <= k < a.base + a.n ==> l[k] == p;
    assert b.base <= k < b.base + b.n ==> l[k] == q;
  }

  lemma FreedOwns(l: seq<int>, live: map<int, Extent>, pid: int)
    requires Owns(l, live)
    ensures Owns(Freed(l, pid), live - {pid})
  {
    var f := Freed(l, pid);
    forall q | q in live && q != pid ensures Holds(f, q, live[q]) {
      assert Holds(l, q, live[q]);
    }
  }

  lemma TakenOwns(l: seq<int>, live: map<int, Extent>, pid: int, s: int, n: int)
    requires Owns(l, live) && pid !in live && pid != FREE && IsRun(l, s, n)
    ensures Owns(Taken(l, s, n, pid), live[pid := Extent(s, n)])
  {
    var t, now := Taken(l, s, n, pid), live[pid := Extent(s, n)];
    forall q | q in now ensures Holds(t, q, now[q]) {
      if q != pid {
        assert Holds(l, q, live[q]);
        forall k | 0 <= k < |t| ensures t[k] == q <==> l[k] == q {
          if s <= k < s + n { assert l[k] == FREE; }
        }
      }
    }
  }

  // No process may hold frames that its entry does not name.
  lemma NotOwned(l: seq<int>, live: map<int, Extent>, pid: int)
    requires Owns(l, live) && pid in live
    ensures Owns(Freed(l, pid), live) <==> live[pid].n == 0
  {
    FreedOwns(l, live, pid);
    var f, e := Freed(l, pid), live[pid];
    assert Holds(l, pid, e);
    if e.n == 0 {
      assert f == l;
    } else {
      assert f[e.base] == FREE;
      assert !Holds(f, pid, e);
    }
  }

  const FRAME: nat := 0x1_0000

  /** The size rounded up to frames, in 32-bit arithmetic. */
  function FramesFor(total: nat): nat {
    (total + FRAME - 1) % WORD / FRAME
  }

  // An empty program needs no frames; the sizes above 2^32 - 2^16 wrap round to none.
  lemma NoFrames(total: nat)
    requires total < WORD
    ensures FramesFor(total) >= 1 <==> 1 <= total <= WORD - FRAME
    ensures 1 <= total <= WORD - FRAME ==> (FramesFor(total) - 1) * FRAME < total <= FramesFor(total) * FRAME
  {
    if total <= WORD - FRAME {
      assert (total + FRAME - 1) % WORD == total + FRAME - 1;
    } else {
      assert (total + FRAME - 1) % WORD == total + FRAME - 1 - WORD;
    }
  }

  ghost predicate OnlyLastFree(l: seq<int>) {
    forall k :: 0 <= k < |l| - 1 ==> l[k] != FREE
  }

  /** Process 2 has the last frame and process 1 all others. When 2 executes an empty program
      its frame is freed, the call fails, and 2 goes on in memory that it does not hold. */
  lemma ExecLosesFrame()
    ensures var l := seq(NFRAME, k => if k < NFRAME - 1 then 1 else 2);
            var live := map[1 := Extent(0, NFRAME - 1), 2 := Extent(NFRAME - 1, 1)];
            Owns(l, live) && OnlyLastFree(Freed(l, 2)) && FramesFor(0) == 0 && !Owns(Freed(l, 2), live)
  {
    var l := seq(NFRAME, k => if k < NFRAME - 1 then 1 else 2);
    var live := map[1 := Extent(0, NFRAME - 1), 2 := Extent(NFRAME - 1, 1)];
    assert Owns(l, live);
    NotOwned(l, live, 2);
  }

  class Memory {
    const frames: FrameList
    var live: map<int, Extent>

    ghost predicate Valid()
      reads this, frames, frames.flist
    {
      frames.Sized() && Owns(frames.flist[..], live)
    }

    /** init, before its exec, holds nothing. */
    constructor (pid: int)
      requires pid != FREE
      ensures Valid() && live == map[pid := Extent(0, 0)] && fresh(frames) && fresh(frames.flist)
    {
      frames := new FrameList();
      live := map[pid := Extent(0, 0)];
    }

    /** The memory of sys_fork: a child of a new pid gets as many frames as its parent, or the
        fork fails and nothing changes. */
    method Fork(parent: int, child: int) returns (ok: bool)
      requires Valid() && parent in live && child !in live && child != FREE
      modifies this`live, frames.flist
      ensures Valid()
      ensures old(live)[parent].n >= 1 ==> (ok <==> HasRun(old(frames.flist[..]), old(live)[parent].n))
      ensures live.Keys == old(live).Keys + (if ok then {child} else {})
      ensures forall q :: q in old(live) ==> live[q] == old(live)[q]
      ensures ok ==> live[child].n == live[parent].n
      ensures !ok ==> frames.flist[..] == old(frames.flist[..])
    {
      ghost var l := frames.flist[..];
      NoneHeld(l, live, child);
      assert Holds(l, parent, live[parent]);
      var n := live[parent].n;
      var r := frames.AllocFrames(child, n);
      ok := r != -1;
      if ok {
        TakenOwns(l, live, child, r, n);
        live := live[child := Extent(r, n)];
      }
    }

    /** The memory of exec, for a program whose header gives this size. A failure leaves the
        process its frames, except for a size that comes to no frames at all, and then only
        if no frame but the last is free. */
    method Exec(pid: int, total: nat) returns (ok: bool)
      requires Valid() && pid in live && total < WORD
      modifies this`live, frames.flist
      ensures frames.Sized()
      ensures FramesFor(total) >= 1 ==> (ok <==> HasRun(Freed(old(frames.flist[..]), pid), FramesFor(total)))
      ensures FramesFor(total) == 0 ==> (ok <==> !OnlyLastFree(Freed(old(frames.flist[..]), pid)))
      ensures live.Keys == old(live).Keys && forall q :: q in live && q != pid ==> live[q] == old(live)[q]
      ensures if ok then live[pid].n == FramesFor(total) else live[pid] == old(live)[pid]
      ensures !ok && FramesFor(total) >= 1 ==> frames.flist[..] == old(frames.flist[..])
      ensures Valid() <==> 1 <= total <= WORD - FRAME || old(live)[pid].n == 0
                           || !OnlyLastFree(Freed(old(frames.flist[..]), pid))
    {
      ghost var l := frames.flist[..];
      FreedOwns(l, live, pid);
      NotOwned(l, live, pid);
      NoFrames(total);
      var nframes := FramesFor(total);
      var r := frames.AllocFrames(pid, nframes);
      ok := r != -1;
      if ok {
        TakenOwns(Freed(l, pid), live - {pid}, pid, r, nframes);
        live := live[pid := Extent(r, nframes)];
        assert live == (old(live) - {pid})[pid := Extent(r, nframes)];
      } else if nframes < 1 {
        assert frames.flist[..] == Freed(l, pid);
      }
    }

    /** The memory of sys_exit. */
    method Exit(pid: int)
      requires Valid()
      modifies this`live, frames.flist
      ensures Valid() && live == old(live) - {pid} && frames.flist[..] == Freed(old(frames.flist[..]), pid)
    {
      FreedOwns(frames.flist[..], live, pid);
      frames.FreeFrames(pid);
      live := live - {pid};
    }
  }

  lemma NoneHeld(l: seq<int>, live: map<int, Extent>, pid: int)
    requires Owns(l, live) && pid !in live && pid != FREE
    ensures Freed(l, pid) == l
  {
  }
}
