/** The process table (kern/proc.c) and the sleeping and waking of kern/pipe.c, as a machine
    whose steps run from the resumption of a process to its next call of scheduler(). */
module ProcTable {
  import opened PipeRing

  datatype State = UNUSED | SLEEPING | RUNNABLE | RUNNING | ZOMBIE

  /** What a process can sleep on: a pipe's nread or nwrite, or a table entry (in wait). */
  datatype Chan = NoChan | ReadChan(p: nat) | WriteChan(p: nat) | ProcChan(i: nat)

  /** The system call a process is in the middle of. */
  datatype Work = User | Reading(p: nat, n: nat) | Writing(p: nat, rest: seq<int>, total: int) | Waiting

  /** What the last call of a process returned. */
  datatype Result = NoResult | Value(v: int) | Bytes(bytes: seq<int>)

  datatype Proc = Proc(state: State, chan: Chan, parent: int, killed: bool, pid: int, work: Work, result: Result)

  const EPIPE: int := 32

  const INIT: nat := 0
  const NONE: int := -1

  datatype Sys = Sys(procs: seq<Proc>, pipes: seq<View>, cur: int, nextpid: int) {
    // init keeps the state RUNNABLE that userinit gave it until it first sleeps.
    predicate Running() {
      0 <= cur < |procs| && (procs[cur].state.RUNNING? || procs[cur].state.RUNNABLE?)
    }
  }

  // ----- wakeup, sleep, scheduler ---------------------------------------------------

  function Awake(p: Proc, c: Chan): Proc {
    if p.state.SLEEPING? && p.chan == c then p.(state := RUNNABLE) else p
  }

  /** wakeup1 as a function of the table. */
  function WakeAll(procs: seq<Proc>, c: Chan): (r: seq<Proc>)
    ensures |r| == |procs| && forall i :: 0 <= i < |procs| ==> r[i] == Awake(procs[i], c)
  {
    seq(|procs|, i requires 0 <= i < |procs| => Awake(procs[i], c))
  }

  // The first runnable entry, or the length of the table.
  function FirstRunnable(procs: seq<Proc>, i: nat): (r: nat)
    requires i <= |procs|
    ensures i <= r <= |procs| && (r < |procs| ==> procs[r].state.RUNNABLE?)
    ensures forall k :: i <= k < r ==> !procs[k].state.RUNNABLE?
    decreases |procs| - i
  {
    if i == |procs| || procs[i].state.RUNNABLE? then i else FirstRunnable(procs, i + 1)
  }

  /** scheduler: the first runnable process runs, and leaves sleep() if it was there. */
  function Schedule(s: Sys): Sys {
    var r := FirstRunnable(s.procs, 0);
    if r == |s.procs| then s.(cur := NONE)
    else s.(cur := r, procs := s.procs[r := s.procs[r].(state := RUNNING, chan := NoChan)])
  }

  /** sleep(chan) by the running process. */
  function Sleep(s: Sys, c: Chan, w: Work): Sys
    requires s.Running()
  {
    Schedule(s.(procs := s.procs[s.cur := s.procs[s.cur].(state := SLEEPING, chan := c, work := w)]))
  }

  /** The running process returns from its call. */
  function BackToUser(s: Sys, r: Result): Sys
    requires s.Running()
  {
    s.(procs := s.procs[s.cur := s.procs[s.cur].(work := User, result := r)])
  }

  // ----- system calls ---------------------------------------------------------------

  function RunWrite(s: Sys, p: nat, rest: seq<int>, total: int): Sys
    requires s.Running() && p < |s.pipes|
  {
    var k := s.procs[s.cur].killed;
    var (v, o) := WriteStep(s.pipes[p], rest, total, k);
    var s1 := s.(pipes := s.pipes[p := v],
                 procs := if WriteWakes(s.pipes[p], rest, k) then WakeAll(s.procs, ReadChan(p)) else s.procs);
    match o
    case Returns(value) => BackToUser(s1, Value(value))
    case Sleeps(r) => Sleep(s1, WriteChan(p), Writing(p, r, total))
  }

  function RunRead(s: Sys, p: nat, n: nat): Sys
    requires s.Running() && p < |s.pipes|
  {
    var (v, o) := ReadStep(s.pipes[p], n, s.procs[s.cur].killed);
    match o
    case Got(bytes) => BackToUser(s.(pipes := s.pipes[p := v], procs := WakeAll(s.procs, WriteChan(p))), Bytes(bytes))
    case ReadKilled => BackToUser(s, Value(EPIPE))
    case ReadSleeps => Sleep(s, ReadChan(p), Reading(p, n))
  }

  predicate IsChild(procs: seq<Proc>, c: int, i: int) {
    0 <= c < |procs| && procs[c].parent == i
  }

  predicate HasChild(procs: seq<Proc>, i: int) {
    exists c :: 0 <= c < |procs| && IsChild(procs, c, i)
  }

  predicate IsZombieChild(procs: seq<Proc>, c: int, i: int) {
    IsChild(procs, c, i) && procs[c].state.ZOMBIE?
  }

  predicate HasZombieChild(procs: seq<Proc>, i: int) {
    exists c :: 0 <= c < |procs| && IsZombieChild(procs, c, i)
  }

  // The first zombie child of i, or the length of the table.
  function FirstZombie(procs: seq<Proc>, i: int, c: nat): (r: nat)
    requires c <= |procs|
    ensures c <= r <= |procs| && (r < |procs| ==> IsZombieChild(procs, r, i))
    ensures forall k :: c <= k < r ==> !IsZombieChild(procs, k, i)
    decreases |procs| - c
  {
    if c == |procs| || IsZombieChild(procs, c, i) then c else FirstZombie(procs, i, c + 1)
  }

  function Collected(p: Proc): Proc {
    p.(state := UNUSED, pid := 0, parent := NONE, killed := false)
  }

  /** sys_wait: collect a zombie child, fail without children, or sleep on oneself. */
  function RunWait(s: Sys): Sys
    requires s.Running()
  {
    var z := FirstZombie(s.procs, s.cur, 0);
    if z < |s.procs| then BackToUser(s.(procs := s.procs[z := Collected(s.procs[z])]), Value(s.procs[z].pid))
    else if !HasChild(s.procs, s.cur) then BackToUser(s, Value(-1))
    else Sleep(s, ProcChan(s.cur), Waiting)
  }

  function Adopted(procs: seq<Proc>, i: int): (r: seq<Proc>)
    ensures |r| == |procs|
    ensures forall k :: 0 <= k < |procs| ==>
              r[k] == if procs[k].parent == i then procs[k].(parent := INIT) else procs[k]
  {
    seq(|procs|, k requires 0 <= k < |procs| => if procs[k].parent == i then procs[k].(parent := INIT) else procs[k])
  }

  /** sys_exit: wake the parent, hand the children to init (and wake it for a zombie), and
      leave this table to the scheduler. */
  function AfterExit(s: Sys): seq<Proc>
    requires s.Running()
  {
    var woken := if s.procs[s.cur].parent >= 0 then WakeAll(s.procs, ProcChan(s.procs[s.cur].parent)) else s.procs;
    var given := Adopted(woken, s.cur);
    var told := if HasZombieChild(woken, s.cur) then WakeAll(given, ProcChan(INIT)) else given;
    told[s.cur := told[s.cur].(state := ZOMBIE, work := User)]
  }

  function RunExit(s: Sys): Sys
    requires s.Running()
  {
    Schedule(s.(procs := AfterExit(s)))
  }

  function FirstUnused(procs: seq<Proc>, i: nat): (r: nat)
    requires i <= |procs|
    ensures i <= r <= |procs| && (r < |procs| ==> procs[r].state.UNUSED?)
    ensures forall k :: i <= k < r ==> !procs[k].state.UNUSED?
    decreases |procs| - i
  {
    if i == |procs| || procs[i].state.UNUSED? then i else FirstUnused(procs, i + 1)
  }

  /** sys_fork: a free entry becomes a runnable child, if there is memory for it. */
  function RunFork(s: Sys, memory: bool): Sys
    requires s.Running()
  {
    var np := FirstUnused(s.procs, 0);
    if np == |s.procs| then BackToUser(s, Value(-1))
    else if !memory then BackToUser(Forked(s, np, s.procs[np].(pid := s.nextpid)), Value(-1))
    else BackToUser(Forked(s, np, Child(s)), Value(s.nextpid))
  }

  function Child(s: Sys): Proc {
    Proc(RUNNABLE, NoChan, s.cur, false, s.nextpid, User, Value(0))
  }

  function Forked(s: Sys, np: nat, q: Proc): (r: Sys)
    requires s.Running() && np < |s.procs| && s.procs[np].state.UNUSED?
    ensures r.Running()
  {
    s.(nextpid := s.nextpid + 1, procs := s.procs[np := q])
  }

  function FirstPid(procs: seq<Proc>, pid: int, i: nat): (r: nat)
    requires i <= |procs|
    ensures i <= r <= |procs| && (r < |procs| ==> procs[r].pid == pid) && forall k :: i <= k < r ==> procs[k].pid != pid
    decreases |procs| - i
  {
    if i == |procs| || procs[i].pid == pid then i else FirstPid(procs, pid, i + 1)
  }

  /** kill: mark the process, and make it runnable if it sleeps. */
  function RunKill(s: Sys, pid: int): Sys {
    var i := FirstPid(s.procs, pid, 0);
    if i == |s.procs| then s
    else
      var q := s.procs[i];
      s.(procs := s.procs[i := q.(killed := true, state := if q.state.SLEEPING? then RUNNABLE else q.state)])
  }

  /** pipeclose: the last descriptor of an end is closed. */
  function RunClose(s: Sys, p: nat, writable: bool): Sys
    requires p < |s.pipes|
  {
    if writable then s.(pipes := s.pipes[p := s.pipes[p].(writeopen := false)], procs := WakeAll(s.procs, ReadChan(p)))
    else s.(pipes := s.pipes[p := s.pipes[p].(readopen := false)], procs := WakeAll(s.procs, WriteChan(p)))
  }

  predicate Free(v: View) {
    !v.readopen && !v.writeopen
  }

  function FirstFree(pipes: seq<View>, p: nat): (r: nat)
    requires p <= |pipes|
    ensures p <= r <= |pipes| && (r < |pipes| ==> Free(pipes[r])) && forall k :: p <= k < r ==> !Free(pipes[k])
    decreases |pipes| - p
  {
    if p == |pipes| || Free(pipes[p]) then p else FirstFree(pipes, p + 1)
  }

  /** pipealloc: a pipe with both ends closed is used again, empty. */
  function RunPipe(s: Sys): Sys {
    var p := FirstFree(s.pipes, 0);
    if p == |s.pipes| then s else s.(pipes := s.pipes[p := View([], true, true)])
  }

  // ----- the invariant --------------------------------------------------------------

  /** A sleeper is in the call it sleeps for.  A writer's pipe is full with its read end open, a
      process in wait has a child and no zombie child, and a reader's pipe can still be written. */
  ghost predicate SleeperOk(procs: seq<Proc>, pipes: seq<View>, i: nat)
    requires i < |procs|
  {
    var q := procs[i];
    q.state.SLEEPING? ==>
      match q.chan
      case NoChan => false
      case ReadChan(p) =>
        && q.work.Reading? && q.work.p == p && p < |pipes|
        && pipes[p].writeopen
      case WriteChan(p) =>
        && q.work.Writing? && q.work.p == p && p < |pipes|
        && q.work.rest != [] && pipes[p].Full() && pipes[p].readopen
      case ProcChan(j) => j == i && q.work.Waiting? && HasChild(procs, i) && !HasZombieChild(procs, i)
  }

  /** A process in the middle of a call holds its end of the pipe open. */
  ghost predicate WorkOk(q: Proc, pipes: seq<View>) {
    match q.work
    case User => true
    case Waiting => !q.state.UNUSED? && !q.state.ZOMBIE?
    case Reading(p, _) => !q.state.UNUSED? && !q.state.ZOMBIE? && p < |pipes| && pipes[p].readopen
    case Writing(p, _, _) => !q.state.UNUSED? && !q.state.ZOMBIE? && p < |pipes| && pipes[p].writeopen
  }

  predicate Live(procs: seq<Proc>, i: int) {
    0 <= i < |procs| && !procs[i].state.UNUSED? && !procs[i].state.ZOMBIE?
  }

  /** Every process but init has a parent that is neither UNUSED nor ZOMBIE. */
  ghost predicate ParentOk(procs: seq<Proc>, i: nat)
    requires i < |procs|
  {
    if i == INIT then Live(procs, i) && procs[i].parent == NONE
    else if procs[i].state.UNUSED? then procs[i].parent == NONE
    else procs[i].parent != i && Live(procs, procs[i].parent)
  }

  ghost predicate Family(procs: seq<Proc>) {
    |procs| > 0 && forall i :: 0 <= i < |procs| ==> ParentOk(procs, i)
  }

  ghost predicate Sleepers(procs: seq<Proc>, pipes: seq<View>) {
    forall i :: 0 <= i < |procs| ==> SleeperOk(procs, pipes, i)
  }

  ghost predicate Workers(procs: seq<Proc>, pipes: seq<View>) {
    forall i :: 0 <= i < |procs| ==> WorkOk(procs[i], pipes)
  }

  ghost predicate Bounded(pipes: seq<View>) {
    forall p :: 0 <= p < |pipes| ==> |pipes[p].queue| <= PIPESIZE
  }

  ghost predicate Running(procs: seq<Proc>, cur: int) {
    forall i :: 0 <= i < |procs| && procs[i].state.RUNNING? ==> i == cur
  }

  ghost predicate Table(procs: seq<Proc>, pipes: seq<View>) {
    Family(procs) && Sleepers(procs, pipes) && Workers(procs, pipes) && Bounded(pipes)
  }

  /** What holds at every scheduling point of every run. */
  ghost predicate Inv(s: Sys) {
    Table(s.procs, s.pipes) && Running(s.procs, s.cur) && (s.cur == NONE || s.Running())
  }

  /** No process sleeps for a byte to read while its pipe holds one. */
  ghost predicate ReadersWait(procs: seq<Proc>, pipes: seq<View>) {
    forall i :: 0 <= i < |procs| && procs[i].state.SLEEPING? && procs[i].chan.ReadChan? && procs[i].chan.p < |pipes| ==>
      pipes[procs[i].chan.p].queue == []
  }

  /** No wakeup is lost: whatever a process sleeps for has not happened yet. */
  ghost predicate NoLostWakeup(s: Sys) {
    Inv(s) && ReadersWait(s.procs, s.pipes)
  }

  // ----- steps that only change who runs --------------------------------------------

  // The two tables have the same children, zombies and free entries.
  ghost predicate SameFamily(a: seq<Proc>, b: seq<Proc>) {
    && |a| == |b|
    && forall i :: 0 <= i < |a| ==>
         && a[i].parent == b[i].parent
         && (a[i].state.ZOMBIE? <==> b[i].state.ZOMBIE?) && (a[i].state.UNUSED? <==> b[i].state.UNUSED?)
  }

  lemma SameFamilyKeeps(a: seq<Proc>, b: seq<Proc>)
    requires SameFamily(a, b)
    ensures Family(a) ==> Family(b)
    ensures forall i :: HasChild(a, i) <==> HasChild(b, i)
    ensures forall i :: HasZombieChild(a, i) <==> HasZombieChild(b, i)
  {
    forall i ensures HasChild(a, i) <==> HasChild(b, i) {
      if c :| 0 <= c < |a| && IsChild(a, c, i) { assert IsChild(b, c, i); }
      if c :| 0 <= c < |b| && IsChild(b, c, i) { assert IsChild(a, c, i); }
    }
    forall i ensures HasZombieChild(a, i) <==> HasZombieChild(b, i) {
      if c :| 0 <= c < |a| && IsZombieChild(a, c, i) { assert IsZombieChild(b, c, i); }
      if c :| 0 <= c < |b| && IsZombieChild(b, c, i) { assert IsZombieChild(a, c, i); }
    }
    if Family(a) {
      forall i | 0 <= i < |b| ensures ParentOk(b, i) {
        assert ParentOk(a, i);
      }
    }
  }

  // Processes may leave their sleep without any other change to the table.
  ghost predicate OnlyWoken(a: seq<Proc>, b: seq<Proc>) {
    && |a| == |b|
    && forall i :: 0 <= i < |a| ==> b[i] == a[i] || (a[i].state.SLEEPING? && b[i] == a[i].(state := RUNNABLE))
  }

  lemma WakingKeeps(a: seq<Proc>, b: seq<Proc>, pipes: seq<View>)
    requires Table(a, pipes) && OnlyWoken(a, b)
    ensures Table(b, pipes)
  {
    SameFamilyKeeps(a, b);
    forall i | 0 <= i < |b| ensures SleeperOk(b, pipes, i) && WorkOk(b[i], pipes) {
      assert SleeperOk(a, pipes, i) && WorkOk(a[i], pipes);
    }
  }

  // A process that is not asleep may change what it does.
  lemma SetKeeps(a: seq<Proc>, pipes: seq<View>, i: nat, q: Proc)
    requires Table(a, pipes) && i < |a| && WorkOk(q, pipes) && SameFamily(a, a[i := q])
    requires SleeperOk(a[i := q], pipes, i)
    ensures Table(a[i := q], pipes)
  {
    var b := a[i := q];
    SameFamilyKeeps(a, b);
    forall k | 0 <= k < |b| ensures SleeperOk(b, pipes, k) && WorkOk(b[k], pipes) {
      assert SleeperOk(a, pipes, k) && WorkOk(a[k], pipes);
    }
  }

  lemma ScheduleKeeps(s: Sys)
    requires Table(s.procs, s.pipes) && Running(s.procs, NONE)
    ensures Inv(Schedule(s))
  {
    var r := FirstRunnable(s.procs, 0);
    if r < |s.procs| {
      assert WorkOk(s.procs[r], s.pipes);
      SetKeeps(s.procs, s.pipes, r, s.procs[r].(state := RUNNING, chan := NoChan));
    }
  }

  lemma BackToUserKeeps(s: Sys, r: Result)
    requires Inv(s) && s.Running()
    ensures Inv(BackToUser(s, r))
  {
    SetKeeps(s.procs, s.pipes, s.cur, s.procs[s.cur].(work := User, result := r));
  }

  lemma SleepKeeps(s: Sys, c: Chan, w: Work)
    requires Inv(s) && s.Running()
    requires var q := s.procs[s.cur].(state := SLEEPING, chan := c, work := w);
             WorkOk(q, s.pipes) && SleeperOk(s.procs[s.cur := q], s.pipes, s.cur)
    ensures Inv(Sleep(s, c, w))
  {
    var q := s.procs[s.cur].(state := SLEEPING, chan := c, work := w);
    SetKeeps(s.procs, s.pipes, s.cur, q);
    ScheduleKeeps(s.(procs := s.procs[s.cur := q]));
  }

  // ----- pipes ----------------------------------------------------------------------

  // No process sleeps on c.
  ghost predicate NobodyOn(procs: seq<Proc>, c: Chan) {
    forall i :: 0 <= i < |procs| && procs[i].state.SLEEPING? ==> procs[i].chan != c
  }

  // A pipe may change if those whose sleep depends on the change are awake.
  lemma PipeKeeps(procs: seq<Proc>, pipes: seq<View>, p: nat, v: View)
    requires Table(procs, pipes) && p < |pipes| && |v.queue| <= PIPESIZE
    requires NobodyOn(procs, ReadChan(p)) || v.writeopen
    requires NobodyOn(procs, WriteChan(p)) || (v.Full() && v.readopen)
    requires forall i :: 0 <= i < |procs| ==> WorkOk(procs[i], pipes[p := v])
    ensures Table(procs, pipes[p := v])
  {
    var after := pipes[p := v];
    forall i | 0 <= i < |procs| ensures SleeperOk(procs, after, i) {
      assert SleeperOk(procs, pipes, i);
    }
  }

  lemma SameEndsWork(procs: seq<Proc>, pipes: seq<View>, p: nat, v: View)
    requires Workers(procs, pipes) && p < |pipes| && v.readopen == pipes[p].readopen
             && v.writeopen == pipes[p].writeopen
    ensures Workers(procs, pipes[p := v])
  {
    forall i | 0 <= i < |procs| ensures WorkOk(procs[i], pipes[p := v]) {
      assert WorkOk(procs[i], pipes);
    }
  }

  lemma AllAwake(s: Sys, c: Chan)
    requires Inv(s)
    ensures Inv(s.(procs := WakeAll(s.procs, c))) && NobodyOn(WakeAll(s.procs, c), c)
    ensures s.Running() ==> s.(procs := WakeAll(s.procs, c)).Running()
  {
    WakingKeeps(s.procs, WakeAll(s.procs, c), s.pipes);
  }

  /** pipewrite loses a wakeup exactly here: it has filled the pipe for a sleeping reader, is
      killed, and so returns -1 before it has called wakeup. */
  ghost predicate LosesWakeup(s: Sys, p: nat, rest: seq<int>)
    requires s.Running() && p < |s.pipes|
  {
    s.procs[s.cur].killed && Room(s.pipes[p], |rest|) < |rest| && !NobodyOn(s.procs, ReadChan(p))
  }

  lemma WriteKeeps(s: Sys, p: nat, rest: seq<int>, total: int)
    requires Inv(s) && s.Running() && p < |s.pipes| && s.pipes[p].writeopen
    ensures Inv(RunWrite(s, p, rest, total))
  {
    var k := s.procs[s.cur].killed;
    var (v, o) := WriteStep(s.pipes[p], rest, total, k);
    var procs := if WriteWakes(s.pipes[p], rest, k) then WakeAll(s.procs, ReadChan(p)) else s.procs;
    AllAwake(s, ReadChan(p));
    if !NobodyOn(procs, WriteChan(p)) { FullForWriter(s.(procs := procs), p); }
    SameEndsWork(procs, s.pipes, p, v);
    PipeKeeps(procs, s.pipes, p, v);
    var s1 := s.(pipes := s.pipes[p := v], procs := procs);
    match o
    case Returns(value) => BackToUserKeeps(s1, Value(value));
    case Sleeps(r) =>
      SleepKeeps(s1, WriteChan(p), Writing(p, r, total));
  }

  // A reader holds its end open, so nobody sleeps for reading once it is closed.
  lemma ClosedReader(s: Sys, p: nat)
    requires Inv(s) && p < |s.pipes| && !s.pipes[p].readopen
    ensures NobodyOn(s.procs, ReadChan(p))
  {
    forall i | 0 <= i < |s.procs| && s.procs[i].state.SLEEPING? ensures s.procs[i].chan != ReadChan(p) {
      assert SleeperOk(s.procs, s.pipes, i) && WorkOk(s.procs[i], s.pipes);
    }
  }

  lemma FullForWriter(s: Sys, p: nat)
    requires Inv(s) && p < |s.pipes| && !NobodyOn(s.procs, WriteChan(p))
    ensures s.pipes[p].Full() && s.pipes[p].readopen
  {
    var i :| 0 <= i < |s.procs| && s.procs[i].state.SLEEPING? && s.procs[i].chan == WriteChan(p);
    assert SleeperOk(s.procs, s.pipes, i);
  }

  lemma OpenForReader(s: Sys, p: nat)
    requires Inv(s) && p < |s.pipes| && !NobodyOn(s.procs, ReadChan(p))
    ensures s.pipes[p].readopen && s.pipes[p].writeopen
  {
    var i :| 0 <= i < |s.procs| && s.procs[i].state.SLEEPING? && s.procs[i].chan == ReadChan(p);
    assert SleeperOk(s.procs, s.pipes, i) && WorkOk(s.procs[i], s.pipes);
  }

  /** Readers and writers never sleep on one pipe at the same time. */
  lemma NeverBothAsleep(s: Sys, p: nat)
    requires NoLostWakeup(s) && p < |s.pipes|
    ensures NobodyOn(s.procs, ReadChan(p)) || NobodyOn(s.procs, WriteChan(p))
  {
    if !NobodyOn(s.procs, WriteChan(p)) {
      FullForWriter(s, p);
    }
  }

  lemma ReadKeeps(s: Sys, p: nat, n: nat)
    requires Inv(s) && s.Running() && p < |s.pipes| && s.pipes[p].readopen
    ensures Inv(RunRead(s, p, n))
  {
    var (v, o) := ReadStep(s.pipes[p], n, s.procs[s.cur].killed);
    match o
    case ReadKilled => BackToUserKeeps(s, Value(EPIPE));
    case ReadSleeps => SleepKeeps(s, ReadChan(p), Reading(p, n));
    case Got(bytes) =>
      var procs := WakeAll(s.procs, WriteChan(p));
      AllAwake(s, WriteChan(p));
      var s1 := s.(procs := procs);
      if !NobodyOn(procs, ReadChan(p)) { OpenForReader(s1, p); }
      SameEndsWork(procs, s.pipes, p, v);
      PipeKeeps(procs, s.pipes, p, v);
      BackToUserKeeps(s1.(pipes := s.pipes[p := v]), Bytes(bytes));
  }

  /** A descriptor is closed for good only when no call on it is under way. */
  ghost predicate EndInUse(s: Sys, p: nat, writable: bool) {
    exists i :: 0 <= i < |s.procs| && UsesEnd(s.procs[i].work, p, writable)
  }

  predicate UsesEnd(w: Work, p: nat, writable: bool) {
    if writable then w.Writing? && w.p == p else w.Reading? && w.p == p
  }

  lemma CloseKeeps(s: Sys, p: nat, writable: bool)
    requires Inv(s) && p < |s.pipes| && !EndInUse(s, p, writable)
    ensures Inv(RunClose(s, p, writable))
  {
    var c := if writable then ReadChan(p) else WriteChan(p);
    var v := if writable then s.pipes[p].(writeopen := false) else s.pipes[p].(readopen := false);
    var procs := WakeAll(s.procs, c);
    AllAwake(s, c);
    var s1 := s.(procs := procs);
    if !NobodyOn(procs, ReadChan(p)) { OpenForReader(s1, p); }
    if !NobodyOn(procs, WriteChan(p)) { FullForWriter(s1, p); }
    forall i | 0 <= i < |procs| ensures WorkOk(procs[i], s.pipes[p := v]) {
      assert WorkOk(procs[i], s.pipes) && !UsesEnd(s.procs[i].work, p, writable);
    }
    PipeKeeps(procs, s.pipes, p, v);
  }

  lemma PipeAllocKeeps(s: Sys)
    requires Inv(s)
    ensures Inv(RunPipe(s))
  {
    var p := FirstFree(s.pipes, 0);
    if p < |s.pipes| {
      var v := View([], true, true);
      if !NobodyOn(s.procs, ReadChan(p)) { OpenForReader(s, p); }
      if !NobodyOn(s.procs, WriteChan(p)) { FullForWriter(s, p); }
      forall i | 0 <= i < |s.procs| ensures WorkOk(s.procs[i], s.pipes[p := v]) {
        assert WorkOk(s.procs[i], s.pipes);
      }
      PipeKeeps(s.procs, s.pipes, p, v);
    }
  }

  // ----- kill, fork, wait, exit -----------------------------------------------------

  lemma KillKeeps(s: Sys, pid: int)
    requires Inv(s)
    ensures Inv(RunKill(s, pid))
  {
    var i := FirstPid(s.procs, pid, 0);
    if i < |s.procs| {
      var q := s.procs[i].(killed := true, state := if s.procs[i].state.SLEEPING? then RUNNABLE else s.procs[i].state);
      assert SleeperOk(s.procs, s.pipes, i) && WorkOk(s.procs[i], s.pipes);
      SetKeeps(s.procs, s.pipes, i, q);
    }
  }

  lemma ForkKeeps(s: Sys, memory: bool)
    requires Inv(s) && s.Running()
    ensures Inv(RunFork(s, memory))
  {
    var np := FirstUnused(s.procs, 0);
    if np == |s.procs| {
      BackToUserKeeps(s, Value(-1));
    } else {
      assert WorkOk(s.procs[np], s.pipes) && ParentOk(s.procs, np);
      if memory {
        NewChild(s, np, Child(s));
        BackToUserKeeps(Forked(s, np, Child(s)), Value(s.nextpid));
      } else {
        SetKeeps(s.procs, s.pipes, np, s.procs[np].(pid := s.nextpid));
        BackToUserKeeps(Forked(s, np, s.procs[np].(pid := s.nextpid)), Value(-1));
      }
    }
  }

  lemma NewChild(s: Sys, np: nat, q: Proc)
    requires Inv(s) && s.Running() && np < |s.procs| && s.procs[np].state.UNUSED?
    requires q.state.RUNNABLE? && q.parent == s.cur && q.work.User?
    ensures Table(s.procs[np := q], s.pipes)
  {
    var a, b := s.procs, s.procs[np := q];
    assert ParentOk(a, np);
    forall i | 0 <= i < |b| ensures ParentOk(b, i) && WorkOk(b[i], s.pipes) {
      assert ParentOk(a, i) && WorkOk(a[i], s.pipes);
    }
    forall i | 0 <= i < |b| ensures SleeperOk(b, s.pipes, i) {
      assert SleeperOk(a, s.pipes, i);
      if a[i].state.SLEEPING? && a[i].chan.ProcChan? {
        var c :| 0 <= c < |a| && IsChild(a, c, i);
        assert IsChild(b, c, i);
        forall k | 0 <= k < |b| ensures !IsZombieChild(b, k, i) {
          assert !IsZombieChild(a, k, i);
        }
      }
    }
  }

  lemma WaitKeeps(s: Sys)
    requires Inv(s) && s.Running()
    ensures Inv(RunWait(s))
  {
    var z := FirstZombie(s.procs, s.cur, 0);
    if z < |s.procs| {
      CollectKeeps(s, z);
      BackToUserKeeps(s.(procs := s.procs[z := Collected(s.procs[z])]), Value(s.procs[z].pid));
    } else if !HasChild(s.procs, s.cur) {
      BackToUserKeeps(s, Value(-1));
    } else {
      var q := s.procs[s.cur].(state := SLEEPING, chan := ProcChan(s.cur), work := Waiting);
      SameFamilyKeeps(s.procs, s.procs[s.cur := q]);
      SleepKeeps(s, ProcChan(s.cur), Waiting);
    }
  }

  lemma CollectKeeps(s: Sys, z: nat)
    requires Inv(s) && s.Running() && z < |s.procs| && IsZombieChild(s.procs, z, s.cur)
    ensures Inv(s.(procs := s.procs[z := Collected(s.procs[z])]))
  {
    var a, b := s.procs, s.procs[z := Collected(s.procs[z])];
    forall i | 0 <= i < |b| ensures ParentOk(b, i) && WorkOk(b[i], s.pipes) {
      assert ParentOk(a, i) && WorkOk(a[i], s.pipes) && ParentOk(a, z) && WorkOk(a[z], s.pipes);
    }
    forall i | 0 <= i < |b| ensures SleeperOk(b, s.pipes, i) {
      assert SleeperOk(a, s.pipes, i);
      if a[i].state.SLEEPING? && a[i].chan.ProcChan? {
        var c :| 0 <= c < |a| && IsChild(a, c, i);
        assert IsChild(b, c, i);
        forall k | 0 <= k < |b| ensures !IsZombieChild(b, k, i) {
          assert !IsZombieChild(a, k, i);
        }
      }
    }
  }

  // What exit does to the entry of another process.
  lemma ExitEntry(s: Sys, i: nat)
    requires Inv(s) && s.Running() && s.cur != INIT && i < |s.procs| && i != s.cur
    ensures |AfterExit(s)| == |s.procs|
    ensures var a, b := s.procs[i], AfterExit(s)[i];
            && b.parent == (if a.parent == s.cur then INIT else a.parent) && b.work == a.work && b.chan == a.chan
            && b.pid == a.pid
            && (b.state == a.state || (a.state.SLEEPING? && b.state.RUNNABLE?))
            && (b.state.SLEEPING? && b.chan.ProcChan? ==> b.chan.i != s.procs[s.cur].parent)
            && (b.state.SLEEPING? && HasZombieChild(s.procs, s.cur) ==> b.chan != ProcChan(INIT))
  {
    assert ParentOk(s.procs, s.cur);
    var woken := WakeAll(s.procs, ProcChan(s.procs[s.cur].parent));
    SameFamilyKeeps(s.procs, woken);
  }

  lemma ExitFamily(s: Sys)
    requires Inv(s) && s.Running() && s.cur != INIT
    ensures Family(AfterExit(s)) && Workers(AfterExit(s), s.pipes) && Running(AfterExit(s), NONE)
  {
    var a, b := s.procs, AfterExit(s);
    assert ParentOk(a, s.cur) && ParentOk(a, INIT);
    ExitEntry(s, INIT);
    forall i | 0 <= i < |b| ensures ParentOk(b, i) && WorkOk(b[i], s.pipes) && !b[i].state.RUNNING? {
      assert ParentOk(a, i) && WorkOk(a[i], s.pipes);
      if i != s.cur { ExitEntry(s, i); }
      var m := b[i].parent;
      if 0 <= m < |b| && m != s.cur { ExitEntry(s, m); }
    }
  }

  lemma ExitSleepers(s: Sys, i: nat)
    requires Inv(s) && s.Running() && s.cur != INIT && i < |s.procs| && i != s.cur
    ensures i < |AfterExit(s)| && SleeperOk(AfterExit(s), s.pipes, i)
  {
    var a, b := s.procs, AfterExit(s);
    ExitEntry(s, i);
    assert SleeperOk(a, s.pipes, i);
    if b[i].state.SLEEPING? && b[i].chan.ProcChan? {
      var c :| 0 <= c < |a| && IsChild(a, c, i);
      if c != s.cur { ExitEntry(s, c); }
      assert IsChild(b, c, i);
      forall k | 0 <= k < |b| ensures !IsZombieChild(b, k, i) {
        if k == s.cur { assert ParentOk(a, k) && b[k].parent == a[k].parent; } else { ExitEntry(s, k); }
        assert !IsZombieChild(a, k, i);
        assert b[i].chan == ProcChan(i);
        if IsZombieChild(a, k, s.cur) { assert HasZombieChild(a, s.cur); }
      }
    }
  }

  lemma ExitKeeps(s: Sys)
    requires Inv(s) && s.Running() && s.cur != INIT
    ensures Inv(RunExit(s))
  {
    var b := AfterExit(s);
    ExitFamily(s);
    forall i | 0 <= i < |b| ensures SleeperOk(b, s.pipes, i) {
      if i != s.cur { ExitSleepers(s, i); }
    }
    ScheduleKeeps(s.(procs := b));
  }

  // ----- whole runs -----------------------------------------------------------------

  /** What the running process does next; one resumed in the middle of a call goes on with it. */
  datatype Action =
    | Write(p: nat, bytes: seq<int>)
    | Read(p: nat, n: nat)
    | Close(p: nat, writable: bool)
    | MakePipe
    | Fork(memory: bool)
    | Kill(pid: int)
    | Wait
    | Exit
    | Resume

  ghost predicate Enabled(s: Sys, a: Action) {
    && s.Running()
    && (a.Resume? <==> !s.procs[s.cur].work.User?)
    && match a
       case Write(p, _) => p < |s.pipes| && s.pipes[p].writeopen
       case Read(p, _) => p < |s.pipes| && s.pipes[p].readopen
       case Close(p, w) => p < |s.pipes| && !EndInUse(s, p, w)
       case Exit => s.cur != INIT
       case Resume => WorkOk(s.procs[s.cur], s.pipes)
       case _ => true
  }

  ghost function Step(s: Sys, a: Action): Sys
    requires Enabled(s, a)
  {
    match a
    case Write(p, bytes) => RunWrite(s, p, bytes, |bytes|)
    case Read(p, n) => RunRead(s, p, n)
    case Close(p, w) => RunClose(s, p, w)
    case MakePipe => RunPipe(s)
    case Fork(memory) => RunFork(s, memory)
    case Kill(pid) => RunKill(s, pid)
    case Wait => RunWait(s)
    case Exit => RunExit(s)
    case Resume =>
      match s.procs[s.cur].work
      case Reading(p, n) => RunRead(s, p, n)
      case Writing(p, rest, total) => RunWrite(s, p, rest, total)
      case _ => RunWait(s)
  }

  // The step is a pipewrite that returns -1 with a reader left asleep.
  ghost predicate Loses(s: Sys, a: Action)
    requires Enabled(s, a)
  {
    match a
    case Write(p, bytes) => LosesWakeup(s, p, bytes)
    case Resume => var w := s.procs[s.cur].work; w.Writing? && LosesWakeup(s, w.p, w.rest)
    case _ => false
  }

  /** Every step keeps the invariant. */
  lemma StepKeeps(s: Sys, a: Action)
    requires Inv(s) && Enabled(s, a)
    ensures Inv(Step(s, a))
  {
    match a
    case Write(p, bytes) => WriteKeeps(s, p, bytes, |bytes|);
    case Read(p, n) => ReadKeeps(s, p, n);
    case Close(p, w) => CloseKeeps(s, p, w);
    case MakePipe => PipeAllocKeeps(s);
    case Fork(memory) => ForkKeeps(s, memory);
    case Kill(pid) => KillKeeps(s, pid);
    case Wait => WaitKeeps(s);
    case Exit => ExitKeeps(s);
    case Resume =>
      match s.procs[s.cur].work {
        case Reading(p, n) => ReadKeeps(s, p, n);
        case Writing(p, rest, total) => WriteKeeps(s, p, rest, total);
        case _ => WaitKeeps(s);
      }
  }

  // ----- readers --------------------------------------------------------------------

  // Whoever sleeps for reading in b slept for the same pipe in a.
  ghost predicate NoNewReaders(a: seq<Proc>, b: seq<Proc>) {
    |a| == |b| && forall i :: 0 <= i < |b| && b[i].state.SLEEPING? && b[i].chan.ReadChan? ==>
      a[i].state.SLEEPING? && a[i].chan == b[i].chan
  }

  lemma SleepReaders(s: Sys, c: Chan, w: Work)
    requires s.Running() && ReadersWait(s.procs, s.pipes)
    requires c.ReadChan? && c.p < |s.pipes| ==> s.pipes[c.p].queue == []
    ensures ReadersWait(Sleep(s, c, w).procs, Sleep(s, c, w).pipes)
  {
  }

  /** A pipewrite step leaves a reader asleep beside a byte if and only if it is the losing one. */
  lemma WriteReaders(s: Sys, p: nat, rest: seq<int>, total: int)
    requires NoLostWakeup(s) && s.Running() && p < |s.pipes|
    ensures var t := RunWrite(s, p, rest, total);
            ReadersWait(t.procs, t.pipes) <==> !LosesWakeup(s, p, rest)
  {
    if LosesWakeup(s, p, rest) {
      LosingWrite(s, p, rest, total);
    } else {
      GoodWrite(s, p, rest, total);
    }
  }

  lemma LosingWrite(s: Sys, p: nat, rest: seq<int>, total: int)
    requires NoLostWakeup(s) && s.Running() && p < |s.pipes| && LosesWakeup(s, p, rest)
    ensures var t := RunWrite(s, p, rest, total); !ReadersWait(t.procs, t.pipes)
  {
    var i :| 0 <= i < |s.procs| && s.procs[i].state.SLEEPING? && s.procs[i].chan == ReadChan(p);
    var t := RunWrite(s, p, rest, total);
    assert t.procs[i] == s.procs[i] && t.pipes[p].queue != [];
  }

  lemma GoodWrite(s: Sys, p: nat, rest: seq<int>, total: int)
    requires NoLostWakeup(s) && s.Running() && p < |s.pipes| && !LosesWakeup(s, p, rest)
    ensures var t := RunWrite(s, p, rest, total); ReadersWait(t.procs, t.pipes)
  {
    var k := s.procs[s.cur].killed;
    var (v, o) := WriteStep(s.pipes[p], rest, total, k);
    var procs := if WriteWakes(s.pipes[p], rest, k) then WakeAll(s.procs, ReadChan(p)) else s.procs;
    if !s.pipes[p].readopen { ClosedReader(s, p); }
    assert NobodyOn(procs, ReadChan(p));
    var s1 := s.(pipes := s.pipes[p := v], procs := procs);
    assert ReadersWait(s1.procs, s1.pipes);
    if o.Sleeps? { SleepReaders(s1, WriteChan(p), Writing(p, o.rest, total)); }
  }

  lemma ReadReaders(s: Sys, p: nat, n: nat)
    requires NoLostWakeup(s) && s.Running() && p < |s.pipes|
    ensures var t := RunRead(s, p, n); ReadersWait(t.procs, t.pipes)
  {
    var (v, o) := ReadStep(s.pipes[p], n, s.procs[s.cur].killed);
    if o.ReadSleeps? { SleepReaders(s, ReadChan(p), Reading(p, n)); }
  }

  lemma WaitReaders(s: Sys)
    requires NoLostWakeup(s) && s.Running()
    ensures var t := RunWait(s); ReadersWait(t.procs, t.pipes)
  {
    var z := FirstZombie(s.procs, s.cur, 0);
    if z == |s.procs| && HasChild(s.procs, s.cur) { SleepReaders(s, ProcChan(s.cur), Waiting); }
  }

  lemma ExitReaders(s: Sys)
    requires NoLostWakeup(s) && s.Running() && s.cur != INIT
    ensures var t := RunExit(s); ReadersWait(t.procs, t.pipes)
  {
    assert NoNewReaders(s.procs, AfterExit(s));
    assert NoNewReaders(s.procs, RunExit(s).procs);
  }

  /** A step loses a wakeup if and only if it is the losing pipewrite. */
  lemma StepReaders(s: Sys, a: Action)
    requires NoLostWakeup(s) && Enabled(s, a)
    ensures ReadersWait(Step(s, a).procs, Step(s, a).pipes) <==> !Loses(s, a)
  {
    hide RunWrite, RunRead, RunWait, RunExit;
    match a
    case Write(p, bytes) => WriteReaders(s, p, bytes, |bytes|);
    case Read(p, n) => ReadReaders(s, p, n);
    case Wait => WaitReaders(s);
    case Exit => ExitReaders(s);
    case Resume =>
      match s.procs[s.cur].work {
        case Reading(p, n) => ReadReaders(s, p, n);
        case Writing(p, rest, total) => WriteReaders(s, p, rest, total);
        case _ => WaitReaders(s);
      }
    case _ =>
      assert NoNewReaders(s.procs, Step(s, a).procs);
  }

  // ----- the shipped kernel ---------------------------------------------------------

  /** No entry of the system call table leads to kill, and nothing else sets the flag. */
  ghost predicate NoneKilled(procs: seq<Proc>) {
    forall i :: 0 <= i < |procs| ==> !procs[i].killed
  }

  lemma StepKillsNone(s: Sys, a: Action)
    requires Enabled(s, a) && !a.Kill? && NoneKilled(s.procs)
    ensures NoneKilled(Step(s, a).procs) && !Loses(s, a)
  {
    hide RunWrite, RunRead, RunWait, RunExit, RunFork;
    match a
    case Write(p, bytes) => WriteKillsNone(s, p, bytes, |bytes|);
    case Read(p, n) => ReadKillsNone(s, p, n);
    case Wait => WaitKillsNone(s);
    case Exit => ExitKillsNone(s);
    case Fork(memory) => ForkKillsNone(s, memory);
    case Resume =>
      match s.procs[s.cur].work {
        case Reading(p, n) => ReadKillsNone(s, p, n);
        case Writing(p, rest, total) => WriteKillsNone(s, p, rest, total);
        case _ => WaitKillsNone(s);
      }
    case _ =>
  }

  lemma WriteKillsNone(s: Sys, p: nat, rest: seq<int>, total: int)
    requires s.Running() && p < |s.pipes| && NoneKilled(s.procs)
    ensures NoneKilled(RunWrite(s, p, rest, total).procs)
  {
  }

  lemma ReadKillsNone(s: Sys, p: nat, n: nat)
    requires s.Running() && p < |s.pipes| && NoneKilled(s.procs)
    ensures NoneKilled(RunRead(s, p, n).procs)
  {
  }

  lemma ExitKillsNone(s: Sys)
    requires s.Running() && NoneKilled(s.procs)
    ensures NoneKilled(RunExit(s).procs)
  {
  }

  lemma ForkKillsNone(s: Sys, memory: bool)
    requires s.Running() && NoneKilled(s.procs)
    ensures NoneKilled(RunFork(s, memory).procs)
  {
  }

  lemma WaitKillsNone(s: Sys)
    requires s.Running() && NoneKilled(s.procs)
    ensures NoneKilled(RunWait(s).procs)
  {
  }

  /** A run: states[k+1] is reached from states[k] by acts[k]. */
  ghost predicate IsRun(states: seq<Sys>, acts: seq<Action>) {
    && |states| == |acts| + 1
    && forall k :: 0 <= k < |acts| ==> Enabled(states[k], acts[k]) && states[k + 1] == Step(states[k], acts[k])
  }

  ghost predicate NeverLoses(states: seq<Sys>, acts: seq<Action>)
    requires IsRun(states, acts)
  {
    forall k :: 0 <= k < |acts| ==> !Loses(states[k], acts[k])
  }

  /** userinit: init alone, every pipe free. */
  function Start(nproc: nat, npipe: nat): Sys
    requires nproc > 0
  {
    Sys([Proc(RUNNABLE, NoChan, NONE, false, 1, User, NoResult)]
        + seq(nproc - 1, _ => Proc(UNUSED, NoChan, NONE, false, 0, User, NoResult)),
        seq(npipe, _ => View([], false, false)), INIT, 2)
  }

  lemma StartInv(nproc: nat, npipe: nat)
    requires nproc > 0
    ensures NoLostWakeup(Start(nproc, npipe)) && NoneKilled(Start(nproc, npipe).procs)
  {
  }

  /** The invariant holds in every state of every run. */
  lemma {:induction false} RunsKeep(states: seq<Sys>, acts: seq<Action>, k: nat)
    requires IsRun(states, acts) && Inv(states[0]) && k < |states|
    ensures Inv(states[k])
  {
    if k > 0 {
      RunsKeep(states, acts, k - 1);
      StepKeeps(states[k - 1], acts[k - 1]);
    }
  }

  lemma {:induction false} RunKillsNone(states: seq<Sys>, acts: seq<Action>, k: nat)
    requires IsRun(states, acts) && NoneKilled(states[0].procs) && k < |states|
    requires forall t :: 0 <= t < |acts| ==> !acts[t].Kill?
    ensures NoneKilled(states[k].procs)
  {
    if k > 0 {
      RunKillsNone(states, acts, k - 1);
      StepKillsNone(states[k - 1], acts[k - 1]);
    }
  }

  /** No run of the kernel, in which no action is Kill, ever loses a wakeup. */
  lemma KernelRuns(states: seq<Sys>, acts: seq<Action>, nproc: nat, npipe: nat, k: nat)
    requires nproc > 0 && IsRun(states, acts) && states[0] == Start(nproc, npipe) && k < |states|
    requires forall t :: 0 <= t < |acts| ==> !acts[t].Kill?
    ensures NoLostWakeup(states[k])
  {
    StartInv(nproc, npipe);
    forall t | 0 <= t < |acts| ensures !Loses(states[t], acts[t]) {
      RunKillsNone(states, acts, t);
      StepKillsNone(states[t], acts[t]);
    }
    RunKeepsReaders(states, acts, k);
  }

  lemma {:induction false} RunKeepsReaders(states: seq<Sys>, acts: seq<Action>, k: nat)
    requires IsRun(states, acts) && NoLostWakeup(states[0]) && NeverLoses(states, acts) && k < |states|
    ensures NoLostWakeup(states[k])
  {
    RunsKeep(states, acts, k);
    if k > 0 {
      RunKeepsReaders(states, acts, k - 1);
      StepReaders(states[k - 1], acts[k - 1]);
    }
  }

  /** Were kill reachable, a run would lose no wakeup if and only if pipewrite never took its one
      losing path. */
  lemma RunsLoseNone(states: seq<Sys>, acts: seq<Action>)
    requires IsRun(states, acts) && NoLostWakeup(states[0])
    ensures (forall k :: 0 <= k < |states| ==> NoLostWakeup(states[k])) <==> NeverLoses(states, acts)
  {
    if forall k :: 0 <= k < |states| ==> NoLostWakeup(states[k]) {
      forall k | 0 <= k < |acts| ensures !Loses(states[k], acts[k]) {
        assert NoLostWakeup(states[k]) && NoLostWakeup(states[k + 1]);
        StepReaders(states[k], acts[k]);
      }
    }
    if NeverLoses(states, acts) {
      forall k | 0 <= k < |states| ensures NoLostWakeup(states[k]) {
        RunKeepsReaders(states, acts, k);
      }
    }
  }

  // ----- if kill were reachable ------------------------------------------------------

  // init opens a pipe, forks, and reads; its child kills itself and writes.
  function LosingActs(): seq<Action> {
    [MakePipe, Fork(true), Read(0, 1), Kill(2), Write(0, seq(600, _ => 7))]
  }

  function LosingStates(): seq<Sys> {
    var init := Proc(RUNNABLE, NoChan, NONE, false, 1, User, NoResult);
    var none := Proc(UNUSED, NoChan, NONE, false, 0, User, NoResult);
    var forked := init.(result := Value(2));
    var child := Proc(RUNNABLE, NoChan, INIT, false, 2, User, Value(0));
    var asleep := forked.(state := SLEEPING, chan := ReadChan(0), work := Reading(0, 1));
    var runs := child.(state := RUNNING);
    var shut, open := View([], false, false), View([], true, true);
    [Sys([init, none], [shut], 0, 2),
     Sys([init, none], [open], 0, 2),
     Sys([forked, child], [open], 0, 3),
     Sys([asleep, runs], [open], 1, 3),
     Sys([asleep, runs.(killed := true)], [open], 1, 3),
     Sys([asleep, runs.(killed := true, result := Value(-1))], [View(seq(PIPESIZE, _ => 7), true, true)], 1, 3)]
  }

  /** If a process could call kill, a wakeup could be lost: init sleeps on for a byte to read
      while the pipe is full, and pipewrite has returned. */
  lemma WakeupIsLost()
    ensures IsRun(LosingStates(), LosingActs()) && LosingStates()[0] == Start(2, 1)
    ensures var t := LosingStates()[5];
            t.procs[INIT].state.SLEEPING? && t.procs[INIT].chan == ReadChan(0) && t.pipes[0].Full() && !NoLostWakeup(t)
  {
    var s := LosingStates();
    assert s[0].procs == Start(2, 1).procs && s[0].pipes == Start(2, 1).pipes;
    StillAsleep(s[5]);
    LosingRun();
  }

  lemma LosingRun()
    ensures IsRun(LosingStates(), LosingActs())
  {
    hide Enabled, Step;
    var s, a := LosingStates(), LosingActs();
    assert |s| == |a| + 1;
    hide LosingStates, LosingActs;
    forall k | 0 <= k < |a| ensures Enabled(s[k], a[k]) && s[k + 1] == Step(s[k], a[k]) {
      assert LosingStep(k) by {
        if k == 0 { LosesFirst(); } else if k < 4 { LosesOn(k); } else { LosesLast(); }
      }
    }
  }

  ghost predicate LosingStep(k: int) {
    0 <= k < 5 && var s, a := LosingStates(), LosingActs(); Enabled(s[k], a[k]) && s[k + 1] == Step(s[k], a[k])
  }

  lemma LosesFirst()
    ensures LosingStep(0)
  {
    hide RunPipe;
    OpensPipe(LosingStates()[0]);
  }

  lemma LosesOn(k: int)
    requires 1 <= k <= 3
    ensures LosingStep(k)
  {
    hide RunFork, RunRead, RunKill;
    var s := LosingStates();
    if k == 1 { Forks(s[1]); } else if k == 2 { SleepsThenChild(s[2]); } else { KillsItself(s[3]); }
  }

  lemma LosesLast()
    ensures LosingStep(4)
  {
    hide RunWrite;
    FillsPipe(LosingStates()[4]);
  }

  lemma StillAsleep(s: Sys)
    requires s == LosingStates()[5]
    ensures !NoLostWakeup(s)
  {
    var q := s.procs[0];
    assert q.state.SLEEPING? && q.chan == ReadChan(0) && |s.pipes[0].queue| == PIPESIZE;
    assert !ReadersWait(s.procs, s.pipes);
  }

  lemma OpensPipe(s: Sys)
    requires s == LosingStates()[0]
    ensures RunPipe(s) == LosingStates()[1]
  {
    assert FirstFree(s.pipes, 0) == 0;
  }

  lemma Forks(s: Sys)
    requires s == LosingStates()[1]
    ensures RunFork(s, true) == LosingStates()[2]
  {
    assert FirstUnused(s.procs, 1) == 1;
  }

  lemma KillsItself(s: Sys)
    requires s == LosingStates()[3]
    ensures RunKill(s, 2) == LosingStates()[4]
  {
    assert FirstPid(s.procs, 2, 1) == 1;
  }

  lemma SleepsThenChild(s: Sys)
    requires s == LosingStates()[2]
    ensures RunRead(s, 0, 1) == LosingStates()[3]
  {
    var q := s.procs[0].(state := SLEEPING, chan := ReadChan(0), work := Reading(0, 1));
    var t := s.procs[0 := q];
    assert FirstRunnable(t, 1) == 1;
    assert FirstRunnable(t, 0) == 1;
    assert Schedule(s.(procs := t)).procs == LosingStates()[3].procs;
  }

  lemma FillsPipe(s: Sys)
    requires s == LosingStates()[4]
    ensures RunWrite(s, 0, seq(600, _ => 7), 600) == LosingStates()[5]
  {
    var bytes := seq(600, _ => 7);
    assert [] + bytes[..PIPESIZE] == seq(PIPESIZE, _ => 7);
    var t := RunWrite(s, 0, bytes, 600);
    assert t.procs == LosingStates()[5].procs && t.pipes == LosingStates()[5].pipes;
  }
}
