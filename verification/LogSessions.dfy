/** Whole lives of a disk: power-up with recovery, file-system calls, a crash at any write, and
    power-up again, as often as one likes, on the machine of LogMachine. */
module LogSessions {
  import opened Params
  import opened DiskLog
  import opened CacheModel
  import opened LogMachine

  /** One file-system call is a list of block edits. */
  type Call = seq<Write>

  ghost predicate ValidCalls(g: Geometry, calls: seq<Call>) {
    forall c :: 0 <= c < |calls| ==> FitsLog(g, calls[c])
  }

  lemma CallInRange(g: Geometry, s: Disk, calls: seq<Call>, c: nat)
    requires |s| == g.size && ValidCalls(g, calls) && c < |calls|
    ensures InRange(s, calls[c])
  {
  }

  /** The blocks after the first n calls. */
  ghost function After(g: Geometry, s: Disk, calls: seq<Call>, n: nat): (r: Disk)
    requires |s| == g.size && ValidCalls(g, calls) && n <= |calls|
    ensures |r| == g.size
  {
    if n == 0 then s
    else
      var before := After(g, s, calls, n - 1);
      CallInRange(g, before, calls, n - 1);
      Apply(before, calls[n - 1])
  }

  /** Disk d stands for the state after j calls, with lo <= j <= hi. */
  ghost predicate Ends(g: Geometry, d: Disk, s: Disk, calls: seq<Call>, lo: nat, hi: nat)
    requires |s| == g.size && ValidCalls(g, calls) && hi <= |calls|
  {
    exists j :: lo <= j <= hi && StandsFor(g, d, After(g, s, calls, j))
  }

  // ----- states that agree outside the log ------------------------------------------

  lemma {:induction false} ApplySameHome(g: Geometry, a: Disk, b: Disk, ws: seq<Write>)
    requires |a| == |b| == g.size && SameHome(g, a, b) && InRange(a, ws)
    ensures SameHome(g, Apply(a, ws), Apply(b, ws))
  {
    if ws != [] {
      ApplySameHome(g, a, b, ws[..|ws| - 1]);
    }
  }

  lemma {:induction false} AfterSameHome(g: Geometry, a: Disk, b: Disk, calls: seq<Call>, n: nat)
    requires |a| == |b| == g.size && SameHome(g, a, b) && ValidCalls(g, calls) && n <= |calls|
    ensures SameHome(g, After(g, a, calls, n), After(g, b, calls, n))
  {
    if n > 0 {
      AfterSameHome(g, a, b, calls, n - 1);
      CallInRange(g, After(g, a, calls, n - 1), calls, n - 1);
      ApplySameHome(g, After(g, a, calls, n - 1), After(g, b, calls, n - 1), calls[n - 1]);
    }
  }

  lemma StandsForSame(g: Geometry, d: Disk, a: Disk, b: Disk)
    requires |a| == |b| == g.size && SameHome(g, a, b) && StandsFor(g, d, a)
    ensures StandsFor(g, d, b)
  {
  }

  lemma EndsSame(g: Geometry, d: Disk, a: Disk, b: Disk, calls: seq<Call>, lo: nat, hi: nat)
    requires |a| == |b| == g.size && SameHome(g, a, b) && ValidCalls(g, calls) && hi <= |calls|
    requires Ends(g, d, a, calls, lo, hi)
    ensures Ends(g, d, b, calls, lo, hi)
  {
    var j :| lo <= j <= hi && StandsFor(g, d, After(g, a, calls, j));
    AfterSameHome(g, a, b, calls, j);
    StandsForSame(g, d, After(g, a, calls, j), After(g, b, calls, j));
  }

  // ----- one session ----------------------------------------------------------------

  /** After n calls: marks[c] writes had been made when c calls were done, and a crash at any
      later write leaves at least those c calls, and none in part. */
  ghost predicate Durable(g: Geometry, d: Disk, writes: seq<Write>, s: Disk, calls: seq<Call>, marks: seq<nat>,
                          n: nat) {
    && |s| == |d| == g.size && ValidCalls(g, calls) && n <= |calls| && InRange(d, writes)
    && |marks| == n + 1 && marks[n] == |writes| && (forall c :: 0 <= c <= n ==> marks[c] <= |writes|)
    && forall k, c :: 0 <= c <= n && marks[c] <= k <= |writes| ==> Ends(g, Apply(d, writes[..k]), s, calls, c, n)
  }

  // One more call, with a crash at any of its writes.
  lemma DurableStep(g: Geometry, d: Disk, w: seq<Write>, w': seq<Write>, s: Disk, calls: seq<Call>, marks: seq<nat>,
                    n: nat, before: Disk, after: Disk, header: nat)
    requires Durable(g, d, w, s, calls, marks, n) && n < |calls| && w <= w' && InRange(d, w')
    requires |before| == |after| == g.size && CrashSafe(g, d, w', |w|, header, before, after)
    requires SameHome(g, before, After(g, s, calls, n)) && SameHome(g, after, After(g, s, calls, n + 1))
    requires StandsFor(g, Apply(d, w'), after)
    ensures Durable(g, d, w', s, calls, marks + [|w'|], n + 1)
  {
    hide StandsFor, SameHome, After, Apply;
    var marks' := marks + [|w'|];
    forall k, c | 0 <= c <= n + 1 && marks'[c] <= k <= |w'|
      ensures Ends(g, Apply(d, w'[..k]), s, calls, c, n + 1)
    {
      if c == n + 1 {
        assert w'[..k] == w';
        StandsForSame(g, Apply(d, w'), after, After(g, s, calls, n + 1));
      } else if k < |w| {
        assert w'[..k] == w[..k];
        assert Ends(g, Apply(d, w[..k]), s, calls, c, n);
      } else {
        CrashedCall(g, Apply(d, w'[..k]), before, after, s, calls, c, n);
      }
    }
  }

  lemma CrashedCall(g: Geometry, d: Disk, before: Disk, after: Disk, s: Disk, calls: seq<Call>, c: nat, n: nat)
    requires |s| == |before| == |after| == g.size && ValidCalls(g, calls) && c <= n < |calls|
    requires SameHome(g, before, After(g, s, calls, n)) && SameHome(g, after, After(g, s, calls, n + 1))
    requires StandsFor(g, d, before) || StandsFor(g, d, after)
    ensures Ends(g, d, s, calls, c, n + 1)
  {
    hide StandsFor, SameHome, After;
    if StandsFor(g, d, before) {
      StandsForSame(g, d, before, After(g, s, calls, n));
    } else {
      StandsForSame(g, d, after, After(g, s, calls, n + 1));
    }
  }

  // Crashes during recovery.
  lemma RecoveryCrash(g: Geometry, d: Disk, s: Disk, k: nat)
    requires |s| == g.size && StandsFor(g, d, s) && k <= |RecoveryWrites(g, d)|
    ensures InRange(d, RecoveryWrites(g, d)) && StandsFor(g, Apply(d, RecoveryWrites(g, d)[..k]), s)
  {
    RecoveryWritesInRange(g, d);
    PartRecoveryKeepsMeaning(g, d, k);
  }

  /** d' is a disk that a crash may leave of a session of these calls, started on d, when c of
      them are known to be done: whatever d stood for, d' stands for that with the effect of at
      least c and possibly more calls, each of them whole. */
  ghost predicate CrashOf(g: Geometry, d: Disk, calls: seq<Call>, d': Disk, c: nat) {
    ValidCalls(g, calls) && forall s: Disk :: |s| == g.size && StandsFor(g, d, s) ==> Ends(g, d', s, calls, c, |calls|)
  }

  /** The machine is up and n calls are done. */
  ghost predicate Up(m: Machine, d: Disk, s: Disk, calls: seq<Call>, marks: seq<nat>, n: nat)
    reads m
  {
    && m.Valid() && m.outstanding == 0 && m.lh == [] && Idle(m.bufs) && |m.bufs| >= LOGSIZE
    && m.booted == d && Durable(m.g, d, m.writes, s, calls, marks, n)
    && |m.disk| == m.g.size && SameHome(m.g, m.disk, After(m.g, s, calls, n))
  }

  lemma EmptyLogStands(g: Geometry, d: Disk)
    requires LogEmpty(g, d)
    ensures StandsFor(g, d, d)
  {
  }

  method OneCall(m: Machine, ghost d: Disk, ghost s: Disk, calls: seq<Call>, ghost marks: seq<nat>, n: nat)
    requires Up(m, d, s, calls, marks, n) && n < |calls|
    modifies m
    ensures old(m.writes) <= m.writes && Up(m, d, s, calls, marks + [|m.writes|], n + 1)
  {
    hide Coherent, Listed, Apply, Loggable, CrashSafe, SameHome, Durable, StandsFor, Meaning;
    ghost var was := m.disk;
    CallsFit(m.g, d, m.writes, s, calls, marks, n);
    m.Transact(calls[n]);
    EmptyLogStands(m.g, m.disk);
    NextCall(m.g, d, old(m.writes), m.writes, s, calls, marks, n, was, m.disk);
  }

  lemma CallsFit(g: Geometry, d: Disk, w: seq<Write>, s: Disk, calls: seq<Call>, marks: seq<nat>, n: nat)
    requires Durable(g, d, w, s, calls, marks, n)
    ensures |s| == |d| == g.size && ValidCalls(g, calls) && InRange(d, w)
  {
  }

  lemma NextCall(g: Geometry, d: Disk, w: seq<Write>, w': seq<Write>, s: Disk, calls: seq<Call>, marks: seq<nat>,
                 n: nat, was: Disk, now: Disk)
    requires Durable(g, d, w, s, calls, marks, n) && n < |calls| && w <= w' && InRange(d, w')
             && |was| == |now| == g.size
    requires SameHome(g, was, After(g, s, calls, n)) && InRange(was, calls[n]) && now == Apply(d, w')
    requires SameHome(g, now, Apply(was, calls[n])) && StandsFor(g, now, now)
    requires exists h: nat :: h <= |Touched(calls[n])| && CrashSafe(g, d, w', |w|, h, was, Apply(was, calls[n]))
    ensures Durable(g, d, w', s, calls, marks + [|w'|], n + 1) && SameHome(g, now, After(g, s, calls, n + 1))
  {
    hide CrashSafe, Durable, StandsFor;
    CallsFit(g, d, w, s, calls, marks, n);
    var h: nat :| h <= |Touched(calls[n])| && CrashSafe(g, d, w', |w|, h, was, Apply(was, calls[n]));
    ApplySameHome(g, was, After(g, s, calls, n), calls[n]);
    StandsForSame(g, now, now, Apply(was, calls[n]));
    DurableStep(g, d, w, w', s, calls, marks, n, was, Apply(was, calls[n]), h);
  }

  lemma Booted(g: Geometry, d: Disk, calls: seq<Call>, s: Disk)
    requires HeaderOk(g, d) && ValidCalls(g, calls) && |s| == g.size && LogEmpty(g, s)
    requires InRange(d, RecoveryWrites(g, d)) && s == Apply(d, RecoveryWrites(g, d))
    ensures Durable(g, d, RecoveryWrites(g, d), s, calls, [|RecoveryWrites(g, d)|], 0)
  {
    var w := RecoveryWrites(g, d);
    EmptyLogStands(g, s);
    assert w[..|w|] == w;
    assert After(g, s, calls, 0) == s;
    hide RecoveryWrites, Apply, StandsFor;
    assert Ends(g, Apply(d, w[..|w|]), s, calls, 0, 0);
  }

  // What the whole session comes to, at a crash after k writes.
  lemma SessionCrash(g: Geometry, d: Disk, w: seq<Write>, s: Disk, calls: seq<Call>, marks: seq<nat>, k: nat, c: nat)
    requires HeaderOk(g, d) && Durable(g, d, w, s, calls, marks, |calls|) && StandsFor(g, d, s)
    requires RecoveryWrites(g, d) <= w && marks[0] == |RecoveryWrites(g, d)|
    requires k <= |w| && c <= |calls| && (c == 0 || marks[c] <= k)
    ensures CrashOf(g, d, calls, Apply(d, w[..k]), c)
  {
    var d' := Apply(d, w[..k]);
    if k < marks[0] && c == 0 {
      assert w[..k] == RecoveryWrites(g, d)[..k];
      RecoveryCrash(g, d, s, k);
      assert After(g, s, calls, 0) == s;
    }
    assert Ends(g, d', s, calls, c, |calls|);
    forall t: Disk | |t| == g.size && StandsFor(g, d, t) ensures Ends(g, d', t, calls, c, |calls|) {
      EndsSame(g, d', s, t, calls, c, |calls|);
    }
  }

  /** Power-up on any disk whose header is well formed, and a session of calls.  The machine never
      panics, and a crash at any of its writes, those of recovery included, leaves a disk that
      stands for a whole number of the calls, at least for those already done. */
  method Session(g: Geometry, d: Disk, nbuf: nat, calls: seq<Call>) returns (m: Machine, ghost marks: seq<nat>)
    requires HeaderOk(g, d) && nbuf >= LOGSIZE && ValidCalls(g, calls)
    ensures fresh(m) && m.Valid() && m.booted == d && InRange(d, m.writes) && |marks| == |calls| + 1
    ensures forall k :: 0 <= k <= |m.writes| ==> CrashOf(g, d, calls, Apply(d, m.writes[..k]), 0)
    ensures forall k, c :: 0 <= c <= |calls| && marks[c] <= k <= |m.writes| ==>
              CrashOf(g, d, calls, Apply(d, m.writes[..k]), c)
  {
    hide Coherent, Listed, Apply, Loggable, SameHome, Durable, Meaning, RecoveryWrites, After, CrashOf, HeaderOk;
    m := Boot(g, d, nbuf);
    ghost var s, rw := m.disk, RecoveryWrites(g, d);
    assert StandsFor(g, d, s);
    Booted(g, d, calls, s);
    marks := [|rw|];
    AtStart(g, s, calls);
    var n := 0;
    while n < |calls|
      invariant 0 <= n <= |calls| && fresh(m) && m.g == g && Up(m, d, s, calls, marks, n)
      invariant rw <= m.writes && |marks| == n + 1 && marks[0] == |rw|
    {
      OneCall(m, d, s, calls, marks, n);
      marks := marks + [|m.writes|];
      n := n + 1;
    }
    CallsFit(g, d, m.writes, s, calls, marks, n);
    forall k | 0 <= k <= |m.writes| ensures CrashOf(g, d, calls, Apply(d, m.writes[..k]), 0) {
      SessionCrash(g, d, m.writes, s, calls, marks, k, 0);
    }
    forall k, c | 0 <= c <= |calls| && marks[c] <= k <= |m.writes|
      ensures CrashOf(g, d, calls, Apply(d, m.writes[..k]), c)
    {
      SessionCrash(g, d, m.writes, s, calls, marks, k, c);
    }
  }

  lemma AtStart(g: Geometry, s: Disk, calls: seq<Call>)
    requires |s| == g.size && ValidCalls(g, calls)
    ensures SameHome(g, s, After(g, s, calls, 0))
  {
  }

  // ----- whole lives ----------------------------------------------------------------

  ghost predicate ValidLife(g: Geometry, sessions: seq<seq<Call>>, kept: seq<nat>) {
    && |kept| == |sessions|
    && forall t :: 0 <= t < |sessions| ==> ValidCalls(g, sessions[t]) && kept[t] <= |sessions[t]|
  }

  /** The blocks after kept[t] calls of each session t. */
  ghost function History(g: Geometry, s: Disk, sessions: seq<seq<Call>>, kept: seq<nat>): (r: Disk)
    requires |s| == g.size && ValidLife(g, sessions, kept)
    ensures |r| == g.size
  {
    if sessions == [] then s
    else
      var n := |sessions| - 1;
      After(g, History(g, s, sessions[..n], kept[..n]), sessions[n], kept[n])
  }

  /** disks[t + 1] is what a crash leaves of session t on disks[t], with done[t] calls done. */
  ghost predicate IsLife(g: Geometry, disks: seq<Disk>, sessions: seq<seq<Call>>, done: seq<nat>) {
    && |disks| == |sessions| + 1 && |done| == |sessions|
    && forall t :: 0 <= t < |sessions| ==> CrashOf(g, disks[t], sessions[t], disks[t + 1], done[t])
  }

  /** However often the machine crashes and is started again, the disk stands for the calls of
      its sessions in order, of each session all that were done, and none in part. */
  lemma {:induction false} LivesAreAtomic(g: Geometry, disks: seq<Disk>, sessions: seq<seq<Call>>, done: seq<nat>,
                                          s: Disk)
    returns (kept: seq<nat>)
    requires IsLife(g, disks, sessions, done) && |s| == g.size && StandsFor(g, disks[0], s)
    ensures ValidLife(g, sessions, kept) && forall t :: 0 <= t < |sessions| ==> done[t] <= kept[t]
    ensures StandsFor(g, disks[|sessions|], History(g, s, sessions, kept))
    decreases |sessions|
  {
    hide StandsFor, After, ValidCalls, CrashOf, History;
    if sessions == [] {
      kept := [];
      NoSessions(g, s);
    } else {
      var n := |sessions| - 1;
      var front := LivesAreAtomic(g, disks[..n + 1], sessions[..n], done[..n], s);
      var before := History(g, s, sessions[..n], front);
      var j := LifeStep(g, disks[n], sessions[n], disks[n + 1], done[n], before);
      kept := front + [j];
      assert kept[..n] == front;
      NextSession(g, s, sessions, kept);
    }
  }

  lemma NoSessions(g: Geometry, s: Disk)
    requires |s| == g.size
    ensures History(g, s, [], []) == s
  {
  }

  lemma NextSession(g: Geometry, s: Disk, sessions: seq<seq<Call>>, kept: seq<nat>)
    requires |s| == g.size && ValidLife(g, sessions, kept) && sessions != []
    ensures var n := |sessions| - 1;
            History(g, s, sessions, kept) == After(g, History(g, s, sessions[..n], kept[..n]), sessions[n], kept[n])
  {
  }

  lemma LifeStep(g: Geometry, d: Disk, calls: seq<Call>, d': Disk, c: nat, before: Disk) returns (j: nat)
    requires CrashOf(g, d, calls, d', c) && |before| == g.size && StandsFor(g, d, before)
    ensures ValidCalls(g, calls) && c <= j <= |calls| && StandsFor(g, d', After(g, before, calls, j))
  {
    hide StandsFor, After, ValidCalls;
    assert Ends(g, d', before, calls, c, |calls|);
    j :| c <= j <= |calls| && StandsFor(g, d', After(g, before, calls, j));
  }

  // A crash disk can be started from again.
  lemma CrashHasHeader(g: Geometry, d: Disk, calls: seq<Call>, d': Disk, c: nat)
    requires HeaderOk(g, d) && CrashOf(g, d, calls, d', c)
    ensures HeaderOk(g, d')
  {
    var s := Recover(g, d);
    RecoveryInstallsMeaning(g, d);
    assert StandsFor(g, d, s);
    assert Ends(g, d', s, calls, c, |calls|);
  }

  /** The number of calls that were done when k writes had been made. */
  ghost function Done(marks: seq<nat>, k: nat, n: nat): (c: nat)
    requires n < |marks|
    ensures c <= n && (c > 0 ==> marks[c] <= k) && forall t :: c < t <= n ==> marks[t] > k
  {
    if n == 0 || marks[n] <= k then n else Done(marks, k, n - 1)
  }

  /** A life on the machine: session t is started on the disk that is there, and stopped when
      cuts[t] of its writes have been made (or all, if there are fewer). */
  method Live(g: Geometry, d: Disk, nbuf: nat, sessions: seq<seq<Call>>, cuts: seq<nat>)
    returns (disks: seq<Disk>, ghost done: seq<nat>)
    requires HeaderOk(g, d) && nbuf >= LOGSIZE && |cuts| == |sessions|
    requires forall t :: 0 <= t < |sessions| ==> ValidCalls(g, sessions[t])
    ensures |disks| == |sessions| + 1 && disks[0] == d && IsLife(g, disks, sessions, done)
  {
    hide CrashOf, Apply, HeaderOk, ValidCalls, Machine.Valid;
    disks, done := [d], [];
    var t := 0;
    while t < |sessions|
      invariant 0 <= t <= |sessions| && |disks| == t + 1 && |done| == t && disks[0] == d && HeaderOk(g, disks[t])
      invariant forall i :: 0 <= i < t ==> CrashOf(g, disks[i], sessions[i], disks[i + 1], done[i])
    {
      var m, marks := Session(g, disks[t], nbuf, sessions[t]);
      var k := if cuts[t] < |m.writes| then cuts[t] else |m.writes|;
      var crashed := Apply(disks[t], m.writes[..k]);
      ghost var c := Done(marks, k, |sessions[t]|);
      CrashHasHeader(g, disks[t], sessions[t], crashed, c);
      disks, done := disks + [crashed], done + [c];
      t := t + 1;
    }
  }

  /** The view depends on blocks outside the log only, as the files do. */
  ghost predicate OutsideLog<T(!new)>(g: Geometry, view: Disk -> T) {
    forall a, b :: |a| == |b| == g.size && SameHome(g, a, b) ==> view(a) == view(b)
  }

  /** What is seen after a crash and recovery is what was seen between two calls, and no earlier
      than the last call known to be done: with the chunks of filewrite as calls and the bytes of
      the file as the view, a whole number of chunks. */
  lemma RecoveredView<T(!new)>(g: Geometry, d: Disk, calls: seq<Call>, d': Disk, c: nat, s: Disk,
                               view: Disk -> T, seen: seq<T>) returns (j: nat)
    requires CrashOf(g, d, calls, d', c) && |s| == g.size && StandsFor(g, d, s) && OutsideLog(g, view)
    requires |seen| == |calls| + 1 && forall n :: 0 <= n <= |calls| ==> view(After(g, s, calls, n)) == seen[n]
    ensures c <= j <= |calls| && HeaderOk(g, d') && view(Recover(g, d')) == seen[j]
  {
    j := LifeStep(g, d, calls, d', c, s);
    RecoveryInstallsMeaning(g, d');
    assert SameHome(g, Recover(g, d'), After(g, s, calls, j));
  }
}
