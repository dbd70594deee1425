/** What each call of kern/proc.c and kern/pipe.c does, said of the table before and after it, and
    what follows over several calls: an exited child is collected by its parent's wait, and no two
    processes share an id. */
module ProcLaws {
  import opened PipeRing
  import opened ProcTable

  /** Other processes may only have been woken. */
  ghost predicate OthersWoken(a: seq<Proc>, b: seq<Proc>, cur: int) {
    && |a| == |b|
    && forall i :: 0 <= i < |a| && i != cur ==>
         b[i] == a[i] || (a[i].state.SLEEPING? && b[i] == a[i].(state := RUNNABLE))
  }

  /** Other processes may have been woken, and one of them set to run. */
  ghost predicate OthersScheduled(a: seq<Proc>, t: Sys, cur: int) {
    && |a| == |t.procs|
    && forall i :: 0 <= i < |a| && i != cur ==>
         if i == t.cur then t.procs[i] == a[i].(state := RUNNING, chan := NoChan) else t.procs[i] == a[i]
  }

  /** Others may have been woken, and then one of them set to run. */
  ghost predicate OthersGoOn(a: seq<Proc>, t: Sys, cur: int) {
    && |a| == |t.procs|
    && forall i :: 0 <= i < |a| && i != cur ==>
         || t.procs[i] == a[i]
         || (a[i].state.SLEEPING? && t.procs[i] == a[i].(state := RUNNABLE))
         || (i == t.cur && t.procs[i] == a[i].(state := RUNNING, chan := NoChan))
  }

  // ----- scheduler and sleep --------------------------------------------------------

  /** The scheduler runs the first runnable process, and changes nothing else. */
  lemma ScheduleLaw(s: Sys)
    ensures var t := Schedule(s);
            && t.pipes == s.pipes && t.nextpid == s.nextpid && OthersScheduled(s.procs, t, -2)
            && (t.cur == NONE <==> forall i :: 0 <= i < |s.procs| ==> !s.procs[i].state.RUNNABLE?)
            && (t.cur != NONE ==>
                  && 0 <= t.cur < |s.procs| && s.procs[t.cur].state.RUNNABLE? && t.procs[t.cur].state.RUNNING?
                  && forall i :: 0 <= i < t.cur ==> !s.procs[i].state.RUNNABLE?)
  {
  }

  /** A process that sleeps is asleep on its channel, in the call it is in, when another runs. */
  lemma SleepLaw(s: Sys, c: Chan, w: Work)
    requires s.Running()
    ensures var t := Sleep(s, c, w);
            && t.procs[s.cur] == s.procs[s.cur].(state := SLEEPING, chan := c, work := w)
            && t.cur != s.cur && t.pipes == s.pipes && OthersScheduled(s.procs, t, s.cur)
  {
  }

  // ----- pipes ----------------------------------------------------------------------

  /** pipewrite in the table: the pipe gets the bytes of the step; the process returns its value, or
      is asleep with the bytes that are left. */
  lemma WriteRunLaw(s: Sys, p: nat, rest: seq<int>, total: int)
    requires s.Running() && p < |s.pipes|
    ensures var t, (v, o) := RunWrite(s, p, rest, total), WriteStep(s.pipes[p], rest, total, s.procs[s.cur].killed);
            && t.pipes == s.pipes[p := v] && t.nextpid == s.nextpid && OthersGoOn(s.procs, t, s.cur)
            && match o
               case Returns(value) =>
                 && t.cur == s.cur && OthersWoken(s.procs, t.procs, s.cur)
                 && t.procs[s.cur].work == User && t.procs[s.cur].result == Value(value)
               case Sleeps(r) =>
                 t.procs[s.cur] ==
                   s.procs[s.cur].(state := SLEEPING, chan := WriteChan(p), work := Writing(p, r, total))
  {
  }

  /** piperead in the table: the process gets the bytes of the step, or is asleep. */
  lemma ReadRunLaw(s: Sys, p: nat, n: nat)
    requires s.Running() && p < |s.pipes|
    ensures var t, (v, o) := RunRead(s, p, n), ReadStep(s.pipes[p], n, s.procs[s.cur].killed);
            && t.pipes == s.pipes[p := v] && t.nextpid == s.nextpid && OthersGoOn(s.procs, t, s.cur)
            && match o
               case Got(bytes) =>
                 && t.cur == s.cur && OthersWoken(s.procs, t.procs, s.cur)
                 && t.procs[s.cur].work == User && t.procs[s.cur].result == Bytes(bytes)
               case ReadKilled => t.procs == s.procs[s.cur := s.procs[s.cur].(work := User, result := Value(EPIPE))]
               case ReadSleeps =>
                 t.procs[s.cur] == s.procs[s.cur].(state := SLEEPING, chan := ReadChan(p), work := Reading(p, n))
  {
  }

  /** Closing an end closes that end and no other, keeps what is in the pipe, and leaves nobody
      asleep at the other end. */
  lemma CloseLaw(s: Sys, p: nat, writable: bool)
    requires p < |s.pipes|
    ensures var t := RunClose(s, p, writable);
            && t.cur == s.cur && t.nextpid == s.nextpid && |t.pipes| == |s.pipes|
            && (forall q :: 0 <= q < |s.pipes| && q != p ==> t.pipes[q] == s.pipes[q])
            && t.pipes[p].queue == s.pipes[p].queue
            && t.pipes[p].writeopen == (s.pipes[p].writeopen && !writable)
            && t.pipes[p].readopen == (s.pipes[p].readopen && writable)
            && OthersWoken(s.procs, t.procs, -2)
            && NobodyOn(t.procs, if writable then ReadChan(p) else WriteChan(p))
  {
  }

  /** A new pipe is an empty one, open at both ends, that nobody had open. */
  lemma PipeLaw(s: Sys)
    ensures var t := RunPipe(s);
            && t.procs == s.procs && t.cur == s.cur
            && if forall p :: 0 <= p < |s.pipes| ==> !Free(s.pipes[p]) then t == s
               else exists p :: 0 <= p < |s.pipes| && Free(s.pipes[p]) && t.pipes == s.pipes[p := View([], true, true)]
  {
    var p := FirstFree(s.pipes, 0);
    if p < |s.pipes| { assert Free(s.pipes[p]); }
  }

  // ----- fork, kill, wait, exit -----------------------------------------------------

  /** fork makes a free entry a runnable child with a new id, or fails and changes no live process. */
  lemma ForkLaw(s: Sys, memory: bool)
    requires s.Running() && Inv(s)
    ensures var t := RunFork(s, memory);
            && t.pipes == s.pipes && t.cur == s.cur && |t.procs| == |s.procs|
            && var room := exists i :: 0 <= i < |s.procs| && s.procs[i].state.UNUSED?;
               if memory && room then
                 && t.procs[s.cur].result == Value(s.nextpid) && t.nextpid == s.nextpid + 1
                 && exists c :: IsNewChild(s, t, c)
               else
                 && t.procs[s.cur].result == Value(-1)
                 && forall i :: 0 <= i < |s.procs| && i != s.cur && !s.procs[i].state.UNUSED? ==>
                      t.procs[i] == s.procs[i]
  {
    var np := FirstUnused(s.procs, 0);
    if memory && np < |s.procs| { assert IsNewChild(s, RunFork(s, memory), np); }
  }

  ghost predicate IsNewChild(s: Sys, t: Sys, c: int) {
    && |t.procs| == |s.procs| && 0 <= c < |s.procs| && c != s.cur && s.procs[c].state.UNUSED?
    && t.procs[c].state.RUNNABLE? && t.procs[c].parent == s.cur && t.procs[c].pid == s.nextpid
    && !t.procs[c].killed && t.procs[c].work == User && t.procs[c].result == Value(0)
    && forall i :: 0 <= i < |s.procs| && i != c && i != s.cur ==> t.procs[i] == s.procs[i]
  }

  /** kill marks one process of that id, which does not go on sleeping, and no other. */
  lemma KillLaw(s: Sys, pid: int)
    ensures var t := RunKill(s, pid);
            && t.pipes == s.pipes && t.cur == s.cur && |t.procs| == |s.procs|
            && if forall i :: 0 <= i < |s.procs| ==> s.procs[i].pid != pid then t == s
               else exists i :: IsKilled(s, t, i, pid)
  {
    var i := FirstPid(s.procs, pid, 0);
    if i < |s.procs| { assert IsKilled(s, RunKill(s, pid), i, pid); }
  }

  ghost predicate IsKilled(s: Sys, t: Sys, i: int, pid: int) {
    && |t.procs| == |s.procs| && 0 <= i < |s.procs| && s.procs[i].pid == pid
    && t.procs[i].killed && !t.procs[i].state.SLEEPING?
    && (!s.procs[i].state.SLEEPING? ==> t.procs[i].state == s.procs[i].state)
    && (s.procs[i].state.SLEEPING? ==> t.procs[i].state.RUNNABLE?)
    && forall k :: 0 <= k < |s.procs| && k != i ==> t.procs[k] == s.procs[k]
  }

  /** wait collects a zombie child if there is one and returns its id, fails exactly if there is no
      child, and otherwise sleeps until one exits. */
  lemma WaitLaw(s: Sys)
    requires s.Running()
    ensures var t := RunWait(s);
            && t.pipes == s.pipes && |t.procs| == |s.procs|
            && if HasZombieChild(s.procs, s.cur) then
                 t.cur == s.cur && exists z :: IsCollected(s, t, z)
               else if !HasChild(s.procs, s.cur) then
                 t == s.(procs := s.procs[s.cur := s.procs[s.cur].(work := User, result := Value(-1))])
               else
                 t.procs[s.cur] == s.procs[s.cur].(state := SLEEPING, chan := ProcChan(s.cur), work := Waiting)
  {
    var z := FirstZombie(s.procs, s.cur, 0);
    if z < |s.procs| {
      assert IsZombieChild(s.procs, z, s.cur);
      assert IsCollected(s, RunWait(s), z);
    }
  }

  ghost predicate IsCollected(s: Sys, t: Sys, z: int) {
    && s.Running() && |t.procs| == |s.procs| && IsZombieChild(s.procs, z, s.cur) && z != s.cur
    && t.procs[z].state.UNUSED? && t.procs[z].parent == NONE
    && t.procs[s.cur] == s.procs[s.cur].(work := User, result := Value(s.procs[z].pid))
    && forall i :: 0 <= i < |s.procs| && i != s.cur && i != z ==> t.procs[i] == s.procs[i]
  }

  /** exit leaves a zombie with its id and parent; its children go to init, and every other process
      keeps its id, parent and call. */
  lemma ExitLaw(s: Sys)
    requires Inv(s) && s.Running() && s.cur != INIT
    ensures var t := RunExit(s);
            && t.pipes == s.pipes && |t.procs| == |s.procs| && t.cur != s.cur
            && t.procs[s.cur].state.ZOMBIE? && t.procs[s.cur].pid == s.procs[s.cur].pid
            && t.procs[s.cur].parent == s.procs[s.cur].parent
            && forall i :: 0 <= i < |s.procs| && i != s.cur ==>
                 && t.procs[i].parent == (if s.procs[i].parent == s.cur then INIT else s.procs[i].parent)
                 && t.procs[i].pid == s.procs[i].pid && t.procs[i].work == s.procs[i].work
                 && (t.procs[i].state.ZOMBIE? <==> s.procs[i].state.ZOMBIE?)
                 && (t.procs[i].state.UNUSED? <==> s.procs[i].state.UNUSED?)
  {
    hide AfterExit, Schedule, Inv;
    var b := s.(procs := AfterExit(s));
    ExitOwn(s);
    ScheduleLaw(b);
    forall i | 0 <= i < |s.procs| && i != s.cur ensures AsAfterExit(s.procs[i], RunExit(s).procs[i], s.cur) {
      ExitEntry(s, i);
    }
  }

  ghost predicate AsAfterExit(a: Proc, b: Proc, cur: int) {
    && b.parent == (if a.parent == cur then INIT else a.parent) && b.pid == a.pid && b.work == a.work
    && (b.state.ZOMBIE? <==> a.state.ZOMBIE?) && (b.state.UNUSED? <==> a.state.UNUSED?)
  }

  lemma ExitOwn(s: Sys)
    requires Inv(s) && s.Running() && s.cur != INIT
    ensures var b := AfterExit(s);
            && |b| == |s.procs| && b[s.cur].state.ZOMBIE? && b[s.cur].pid == s.procs[s.cur].pid
            && b[s.cur].parent == s.procs[s.cur].parent
  {
    assert ParentOk(s.procs, s.cur);
  }

  /** An exited process is a zombie child of a live parent, whose next wait has one to collect. */
  lemma ExitThenWait(s: Sys)
    requires Inv(s) && s.Running() && s.cur != INIT
    ensures var t, p := RunExit(s), s.procs[s.cur].parent;
            Live(t.procs, p) && IsZombieChild(t.procs, s.cur, p) && HasZombieChild(t.procs, p)
            && !(t.procs[p].state.SLEEPING? && t.procs[p].chan == ProcChan(p))
  {
    ExitLaw(s);
    ExitKeeps(s);
    assert ParentOk(s.procs, s.cur);
    var t, p := RunExit(s), s.procs[s.cur].parent;
    assert ParentOk(t.procs, s.cur);
    assert IsZombieChild(t.procs, s.cur, p);
    assert SleeperOk(t.procs, t.pipes, p);
  }

  // ----- process ids ----------------------------------------------------------------

  /** Every process has an id of its own, given out before. */
  ghost predicate PidsOk(procs: seq<Proc>, nextpid: int) {
    && (forall i :: 0 <= i < |procs| && !procs[i].state.UNUSED? ==> 1 <= procs[i].pid < nextpid)
    && forall i, j :: 0 <= i < j < |procs| && !procs[i].state.UNUSED? && !procs[j].state.UNUSED? ==>
         procs[i].pid != procs[j].pid
  }

  // Still free, or still the same process, and a zombie exactly if it was one.
  ghost predicate SameEntry(a: Proc, b: Proc) {
    b.pid == a.pid && (b.state.UNUSED? <==> a.state.UNUSED?) && (b.state.ZOMBIE? <==> a.state.ZOMBIE?)
  }

  ghost predicate SameEntries(a: seq<Proc>, b: seq<Proc>) {
    |a| == |b| && forall i :: 0 <= i < |a| ==> SameEntry(a[i], b[i])
  }

  lemma SleepEntries(s: Sys, c: Chan, w: Work)
    requires s.Running()
    ensures SameEntries(s.procs, Sleep(s, c, w).procs) && Sleep(s, c, w).nextpid == s.nextpid
  {
  }

  lemma WriteEntries(s: Sys, p: nat, rest: seq<int>, total: int)
    requires s.Running() && p < |s.pipes|
    ensures var t := RunWrite(s, p, rest, total); SameEntries(s.procs, t.procs) && t.nextpid == s.nextpid
  {
  }

  lemma ReadEntries(s: Sys, p: nat, n: nat)
    requires s.Running() && p < |s.pipes|
    ensures var t := RunRead(s, p, n); SameEntries(s.procs, t.procs) && t.nextpid == s.nextpid
  {
  }

  lemma OtherEntries(s: Sys, a: Action)
    requires Enabled(s, a) && (a.Close? || a.MakePipe? || a.Kill?)
    ensures var t := Step(s, a); SameEntries(s.procs, t.procs) && t.nextpid == s.nextpid
  {
  }

  lemma SamePids(s: Sys, t: Sys)
    requires PidsOk(s.procs, s.nextpid) && SameEntries(s.procs, t.procs) && t.nextpid == s.nextpid
    ensures PidsOk(t.procs, t.nextpid)
  {
    forall i | 0 <= i < |t.procs| ensures SameEntry(s.procs[i], t.procs[i]) {
    }
  }

  lemma ForkPids(s: Sys, memory: bool)
    requires s.Running() && PidsOk(s.procs, s.nextpid)
    ensures var t := RunFork(s, memory); PidsOk(t.procs, t.nextpid)
  {
  }

  lemma WaitPids(s: Sys)
    requires s.Running() && PidsOk(s.procs, s.nextpid)
    ensures var t := RunWait(s); PidsOk(t.procs, t.nextpid)
  {
    hide Sleep;
    var z := FirstZombie(s.procs, s.cur, 0);
    if z == |s.procs| && HasChild(s.procs, s.cur) {
      SleepEntries(s, ProcChan(s.cur), Waiting);
      SamePids(s, RunWait(s));
    }
  }

  lemma ExitPids(s: Sys)
    requires Inv(s) && s.Running() && s.cur != INIT && PidsOk(s.procs, s.nextpid)
    ensures var t := RunExit(s); PidsOk(t.procs, t.nextpid)
  {
    hide RunExit;
    ExitLaw(s);
    assert RunExit(s).nextpid == s.nextpid by { ExitCounter(s); }
  }

  lemma ExitCounter(s: Sys)
    requires s.Running()
    ensures RunExit(s).nextpid == s.nextpid
  {
  }

  lemma StepPids(s: Sys, a: Action)
    requires Inv(s) && Enabled(s, a) && PidsOk(s.procs, s.nextpid)
    ensures var t := Step(s, a); PidsOk(t.procs, t.nextpid)
  {
    hide RunWrite, RunRead, RunWait, RunExit, RunFork, RunClose, RunPipe, RunKill, PidsOk, SameEntries;
    match a
    case Write(p, bytes) => WriteEntries(s, p, bytes, |bytes|); SamePids(s, Step(s, a));
    case Read(p, n) => ReadEntries(s, p, n); SamePids(s, Step(s, a));
    case Fork(memory) => ForkPids(s, memory);
    case Wait => WaitPids(s);
    case Exit => ExitPids(s);
    case Resume =>
      match s.procs[s.cur].work {
        case Reading(p, n) => ReadEntries(s, p, n); SamePids(s, Step(s, a));
        case Writing(p, rest, total) => WriteEntries(s, p, rest, total); SamePids(s, Step(s, a));
        case _ => WaitPids(s);
      }
    case _ => OtherEntries(s, a); SamePids(s, Step(s, a));
  }

  /** No two processes ever share an id. */
  lemma {:induction false} RunsKeepPids(states: seq<Sys>, acts: seq<Action>, nproc: nat, npipe: nat, k: nat)
    requires nproc > 0 && IsRun(states, acts) && states[0] == Start(nproc, npipe) && k < |states|
    ensures PidsOk(states[k].procs, states[k].nextpid)
  {
    hide Step, Enabled, Inv;
    if k > 0 {
      RunsKeepPids(states, acts, nproc, npipe, k - 1);
      assert Inv(states[0]) by { StartsWell(nproc, npipe); }
      RunsKeep(states, acts, k - 1);
      StepPids(states[k - 1], acts[k - 1]);
    }
  }

  lemma StartsWell(nproc: nat, npipe: nat)
    requires nproc > 0
    ensures Inv(Start(nproc, npipe))
  {
    StartInv(nproc, npipe);
  }

  // ----- zombies --------------------------------------------------------------------

  /** The running process is given the id of its zombie child i, whose entry becomes free. */
  ghost predicate CollectsEntry(s: Sys, t: Sys, i: nat) {
    && 0 <= s.cur < |s.procs| == |t.procs| && i < |s.procs| && s.procs[i].state.ZOMBIE?
    && t.procs[i].state.UNUSED? && s.procs[i].parent == s.cur == t.cur
    && t.procs[s.cur].result == Value(s.procs[i].pid)
  }

  lemma WaitZombie(s: Sys, i: nat)
    requires s.Running() && i < |s.procs| && s.procs[i].state.ZOMBIE?
    ensures var t := RunWait(s);
            |t.procs| == |s.procs| && (SameEntry(s.procs[i], t.procs[i]) || CollectsEntry(s, t, i))
  {
    hide Sleep;
    var z := FirstZombie(s.procs, s.cur, 0);
    if z == |s.procs| && HasChild(s.procs, s.cur) { SleepEntries(s, ProcChan(s.cur), Waiting); }
  }

  lemma ExitZombie(s: Sys, i: nat)
    requires Inv(s) && s.Running() && s.cur != INIT && i < |s.procs| && s.procs[i].state.ZOMBIE?
    ensures |RunExit(s).procs| == |s.procs| && SameEntry(s.procs[i], RunExit(s).procs[i])
  {
    hide RunExit, Inv;
    ExitLaw(s);
  }

  lemma ForkZombie(s: Sys, memory: bool, i: nat)
    requires s.Running() && i < |s.procs| && s.procs[i].state.ZOMBIE?
    ensures |RunFork(s, memory).procs| == |s.procs| && SameEntry(s.procs[i], RunFork(s, memory).procs[i])
  {
  }

  /** A step leaves a zombie as it is, or is a wait by its parent that returns its id. */
  lemma StepZombie(s: Sys, a: Action, i: nat)
    requires Inv(s) && Enabled(s, a) && i < |s.procs| && s.procs[i].state.ZOMBIE?
    ensures var t := Step(s, a);
            |t.procs| == |s.procs| && (SameEntry(s.procs[i], t.procs[i]) || CollectsEntry(s, t, i))
  {
    hide RunWrite, RunRead, RunWait, RunExit, RunFork, RunClose, RunPipe, RunKill, SameEntry, CollectsEntry;
    match a
    case Write(p, bytes) => WriteEntries(s, p, bytes, |bytes|);
    case Read(p, n) => ReadEntries(s, p, n);
    case Fork(memory) => ForkZombie(s, memory, i);
    case Wait => WaitZombie(s, i);
    case Exit => ExitZombie(s, i);
    case Resume =>
      match s.procs[s.cur].work {
        case Reading(p, n) => ReadEntries(s, p, n);
        case Writing(p, rest, total) => WriteEntries(s, p, rest, total);
        case _ => WaitZombie(s, i);
      }
    case _ => OtherEntries(s, a);
  }

  /** No exit is forgotten: in every run a zombie stays one, with its id, until a wait by its
      parent returns that id. */
  lemma {:induction false} ZombieIsCollected(states: seq<Sys>, acts: seq<Action>, k: nat, m: nat, i: nat)
    requires IsRun(states, acts) && Inv(states[0]) && k <= m < |states|
    requires i < |states[k].procs| && states[k].procs[i].state.ZOMBIE?
    ensures || (i < |states[m].procs| && SameEntry(states[k].procs[i], states[m].procs[i]))
            || exists j :: k <= j < m && CollectsEntry(states[j], states[j + 1], i)
                           && states[j].procs[i].pid == states[k].procs[i].pid
    decreases m
  {
    hide Step, Enabled, Inv;
    if k < m {
      ZombieIsCollected(states, acts, k, m - 1, i);
      if j :| k <= j < m - 1 && CollectsEntry(states[j], states[j + 1], i)
              && states[j].procs[i].pid == states[k].procs[i].pid {
      } else {
        RunsKeep(states, acts, m - 1);
        StepZombie(states[m - 1], acts[m - 1], i);
      }
    }
  }

  // ----- a pipewrite in a run -------------------------------------------------------

  lemma WaitWork(s: Sys, i: nat)
    requires s.Running() && i < |s.procs| && i != s.cur
    ensures |RunWait(s).procs| == |s.procs| && RunWait(s).procs[i].work == s.procs[i].work
  {
  }

  lemma OtherWork(s: Sys, a: Action, i: nat)
    requires Enabled(s, a) && (a.Close? || a.MakePipe? || a.Kill? || a.Fork?) && i < |s.procs| && i != s.cur
    requires !s.procs[i].state.UNUSED?
    ensures |Step(s, a).procs| == |s.procs| && Step(s, a).procs[i].work == s.procs[i].work
  {
  }

  lemma PipeWork(s: Sys, p: nat, rest: seq<int>, total: int, n: nat, i: nat)
    requires s.Running() && p < |s.pipes| && i < |s.procs| && i != s.cur
    ensures var t := RunWrite(s, p, rest, total); |t.procs| == |s.procs| && t.procs[i].work == s.procs[i].work
    ensures var t := RunRead(s, p, n); |t.procs| == |s.procs| && t.procs[i].work == s.procs[i].work
  {
  }

  /** A step leaves every process but the running one in the call it is in. */
  lemma StepWork(s: Sys, a: Action, i: nat)
    requires Inv(s) && Enabled(s, a) && i < |s.procs| && i != s.cur && !s.procs[i].state.UNUSED?
    ensures |Step(s, a).procs| == |s.procs| && Step(s, a).procs[i].work == s.procs[i].work
  {
    hide RunWrite, RunRead, RunWait, RunExit, RunFork, RunClose, RunPipe, RunKill;
    match a
    case Write(p, bytes) => PipeWork(s, p, bytes, |bytes|, 0, i);
    case Read(p, n) => PipeWork(s, p, [], 0, n, i);
    case Wait => WaitWork(s, i);
    case Exit => ExitLaw(s);
    case Resume =>
      match s.procs[s.cur].work {
        case Reading(p, n) => PipeWork(s, p, [], 0, n, i);
        case Writing(p, rest, total) => PipeWork(s, p, rest, total, 0, i);
        case _ => WaitWork(s, i);
      }
    case _ => OtherWork(s, a, i);
  }

  /** The bytes that a step adds to pipe p. */
  ghost function Added(s: Sys, t: Sys, p: nat): seq<int> {
    if p < |s.pipes| && p < |t.pipes| && s.pipes[p].queue <= t.pipes[p].queue
    then t.pipes[p].queue[|s.pipes[p].queue|..] else []
  }

  /** The bytes that process i adds to pipe p from state k to state m. */
  ghost function Sent(states: seq<Sys>, i: nat, p: nat, k: nat, m: nat): seq<int>
    requires m < |states|
  {
    if m <= k then []
    else Sent(states, i, p, k, m - 1) + (if states[m - 1].cur == i then Added(states[m - 1], states[m], p) else [])
  }

  // Of `bytes`, `sent` are in the pipe: the process is still writing the rest, or has returned.
  ghost predicate CallAt(q: Proc, p: nat, bytes: seq<int>, sent: seq<int>) {
    if q.work.Writing? then q.work.p == p && q.work.total == |bytes| && sent + q.work.rest == bytes
    else
      && q.work.User?
      && ((q.result == Value(|bytes|) && sent == bytes) || (q.result == Value(-1) && sent <= bytes))
  }

  // One resumption of the call.
  lemma CallStep(s: Sys, p: nat, rest: seq<int>, bytes: seq<int>, sent: seq<int>)
    requires s.Running() && p < |s.pipes| && sent + rest == bytes
    ensures var t := RunWrite(s, p, rest, |bytes|);
            |t.procs| == |s.procs| && CallAt(t.procs[s.cur], p, bytes, sent + Added(s, t, p))
  {
    hide RunWrite, WriteStep;
    var t := RunWrite(s, p, rest, |bytes|);
    WriteRunLaw(s, p, rest, |bytes|);
    var w := WriteLaw(s.pipes[p], rest, |bytes|, s.procs[s.cur].killed);
    assert t.pipes[p].queue == s.pipes[p].queue + w;
    assert Added(s, t, p) == w;
    PrefixGoesOn(sent, w, rest, bytes);
    var o := WriteStep(s.pipes[p], rest, |bytes|, s.procs[s.cur].killed).1;
    if o.Sleeps? { assert sent + w + o.rest == sent + (w + o.rest); }
  }

  /** In every run: while a process is in its pipewrite, what it has put into the pipe, in however
      many turns, and what it has still to write are together its bytes; when it returns their
      number it has put in all of them, each once and in order, and with -1 the first of them. */
  lemma {:induction false} WriteInRun(states: seq<Sys>, acts: seq<Action>, i: nat, p: nat, bytes: seq<int>, k: nat,
                                      m: nat)
    requires IsRun(states, acts) && Inv(states[0]) && k < m < |states|
    requires states[k].cur == i && acts[k] == Write(p, bytes)
    requires forall j :: k < j < m ==> i < |states[j].procs| && states[j].procs[i].work.Writing?
    ensures i < |states[m].procs| && CallAt(states[m].procs[i], p, bytes, Sent(states, i, p, k, m))
    decreases m
  {
    hide RunWrite, Inv, Step, Enabled, Added;
    var s, a, t := states[m - 1], acts[m - 1], states[m];
    RunsKeep(states, acts, m - 1);
    if m == k + 1 {
      assert Sent(states, i, p, k, k) == [];
      assert [] + bytes == bytes;
      IsWrite(s, a);
      CallStep(s, p, bytes, bytes, []);
    } else {
      WriteInRun(states, acts, i, p, bytes, k, m - 1);
      var sent := Sent(states, i, p, k, m - 1);
      if s.cur == i {
        IsWrite(s, a);
        CallStep(s, p, s.procs[i].work.rest, bytes, sent);
      } else {
        assert !s.procs[i].state.UNUSED? by { InCallIsLive(s, i); }
        StepWork(s, a, i);
        assert sent + [] == sent;
      }
    }
  }

  // A process in pipewrite can only go on with it.
  lemma IsWrite(s: Sys, a: Action)
    requires Enabled(s, a) && (a.Write? || s.procs[s.cur].work.Writing?)
    ensures s.Running()
    ensures a.Write? ==> a.p < |s.pipes| && Step(s, a) == RunWrite(s, a.p, a.bytes, |a.bytes|)
    ensures !a.Write? ==>
              var w := s.procs[s.cur].work; w.p < |s.pipes| && Step(s, a) == RunWrite(s, w.p, w.rest, w.total)
    ensures a.Write? <==> s.procs[s.cur].work.User?
  {
    hide RunWrite;
  }

  lemma InCallIsLive(s: Sys, i: nat)
    requires Inv(s) && i < |s.procs| && s.procs[i].work.Writing?
    ensures !s.procs[i].state.UNUSED?
  {
    assert WorkOk(s.procs[i], s.pipes);
  }
}
