/** The loops of kern/proc.c over the process table, and the pipe calls on a ring, each proved
    to be the step of ProcTable that carries its name. */
module ProcMachine {
  import opened PipeRing
  import opened ProcTable

  class Machine {
    const procs: array<Proc>
    ghost var pipes: seq<View>
    var cur: int
    var nextpid: int

    ghost function Snapshot(): Sys
      reads this, procs
    {
      Sys(procs[..], pipes, cur, nextpid)
    }

    constructor (nproc: nat, ghost npipe: nat)
      requires nproc > 0
      ensures Snapshot() == Start(nproc, npipe) && fresh(procs)
    {
      procs := new Proc[nproc](_ => Proc(UNUSED, NoChan, NONE, false, 0, User, NoResult));
      pipes := Start(nproc, npipe).pipes;
      cur, nextpid := INIT, 2;
      new;
      procs[0] := Proc(RUNNABLE, NoChan, NONE, false, 1, User, NoResult);
      assert procs[..] == Start(nproc, npipe).procs;
    }

    /** wakeup1. */
    method Wakeup(c: Chan)
      modifies procs
      ensures procs[..] == WakeAll(old(procs[..]), c)
    {
      var i := 0;
      while i < procs.Length
        invariant 0 <= i <= procs.Length
        invariant forall k :: 0 <= k < i ==> procs[k] == Awake(old(procs[k]), c)
        invariant forall k :: i <= k < procs.Length ==> procs[k] == old(procs[k])
      {
        if procs[i].state.SLEEPING? && procs[i].chan == c {
          procs[i] := procs[i].(state := RUNNABLE);
        }
        i := i + 1;
      }
    }

    /** scheduler, for one pass over the table. */
    method Scheduler()
      modifies this`cur, procs
      ensures Snapshot() == Schedule(old(Snapshot()))
    {
      var p: nat := 0;
      while p < procs.Length
        invariant p <= procs.Length && procs[..] == old(procs[..])
        invariant FirstRunnable(procs[..], 0) == FirstRunnable(procs[..], p)
      {
        if procs[p].state.RUNNABLE? {
          cur := p;
          procs[p] := procs[p].(state := RUNNING, chan := NoChan);
          return;
        }
        p := p + 1;
      }
      cur := NONE;
    }

    /** sleep, up to the switch to another process. */
    method SleepOn(c: Chan, w: Work)
      requires Snapshot().Running()
      modifies this`cur, procs
      ensures Snapshot() == Sleep(old(Snapshot()), c, w)
    {
      procs[cur] := procs[cur].(state := SLEEPING, chan := c, work := w);
      assert Snapshot() == old(Snapshot()).(procs := procs[..]);
      Scheduler();
    }

    method Return(r: Result)
      requires Snapshot().Running()
      modifies procs
      ensures Snapshot() == BackToUser(old(Snapshot()), r)
    {
      procs[cur] := procs[cur].(work := User, result := r);
    }

    /** allocproc and the table updates of sys_fork. */
    method Fork(memory: bool)
      requires Snapshot().Running()
      modifies this`nextpid, procs
      ensures Snapshot() == RunFork(old(Snapshot()), memory)
    {
      var p: nat := 0;
      while p < procs.Length && !procs[p].state.UNUSED?
        invariant p <= procs.Length && procs[..] == old(procs[..])
        invariant FirstUnused(procs[..], 0) == FirstUnused(procs[..], p)
      {
        p := p + 1;
      }
      if p == procs.Length {
        Return(Value(-1));
        return;
      }
      var pid := nextpid;
      procs[p] := procs[p].(pid := pid);
      nextpid := nextpid + 1;
      if memory {
        procs[p] := Proc(RUNNABLE, NoChan, cur, false, pid, User, Value(0));
        assert procs[..] == old(procs[..])[p := Child(old(Snapshot()))];
        Return(Value(pid));
      } else {
        Return(Value(-1));
      }
    }

    /** kill. */
    method Kill(pid: int)
      modifies procs
      ensures Snapshot() == RunKill(old(Snapshot()), pid)
    {
      var p: nat := 0;
      while p < procs.Length
        invariant p <= procs.Length && procs[..] == old(procs[..])
        invariant FirstPid(procs[..], pid, 0) == FirstPid(procs[..], pid, p)
      {
        if procs[p].pid == pid {
          procs[p] := procs[p].(killed := true);
          if procs[p].state.SLEEPING? { procs[p] := procs[p].(state := RUNNABLE); }
          return;
        }
        p := p + 1;
      }
    }

    /** sys_wait, up to its return or its next sleep. */
    method SysWait()
      requires Snapshot().Running()
      modifies this`cur, procs
      ensures Snapshot() == RunWait(old(Snapshot()))
    {
      var havekids := false;
      var p: nat := 0;
      while p < procs.Length
        invariant p <= procs.Length && procs[..] == old(procs[..]) && cur == old(cur)
        invariant havekids <==> exists c :: 0 <= c < p && IsChild(procs[..], c, cur)
        invariant FirstZombie(procs[..], cur, 0) == FirstZombie(procs[..], cur, p)
      {
        if procs[p].parent == cur {
          assert IsChild(procs[..], p, cur);
          havekids := true;
          if procs[p].state.ZOMBIE? {
            var pid := procs[p].pid;
            procs[p] := Collected(procs[p]);
            assert procs[..] == old(procs[..])[p := Collected(old(procs[..])[p])];
            Return(Value(pid));
            return;
          }
        }
        p := p + 1;
      }
      if !havekids { Return(Value(-1)); } else { SleepOn(ProcChan(cur), Waiting); }
    }

    // The table while exit hands on the children of cur: done below i, init told if woken.
    ghost predicate Handing(was: seq<Proc>, i: nat, told: bool)
      reads procs, this
    {
      && |was| == procs.Length && i <= procs.Length
      && forall k :: 0 <= k < procs.Length ==> procs[k] == Handed(was[k], k < i, told)
    }

    ghost function Handed(q: Proc, done: bool, told: bool): Proc
      reads this
    {
      var a := if done && q.parent == cur then q.(parent := INIT) else q;
      if told then Awake(a, ProcChan(INIT)) else a
    }

    method HandOver()
      modifies procs
      ensures var given := Adopted(old(procs[..]), cur);
              procs[..] == if HasZombieChild(old(procs[..]), cur) then WakeAll(given, ProcChan(INIT)) else given
    {
      ghost var was := procs[..];
      ghost var told := false;
      var p: nat := 0;
      while p < procs.Length
        invariant Handing(was, p, told)
        invariant told <==> exists c :: 0 <= c < p && IsZombieChild(was, c, cur)
      {
        if procs[p].parent == cur {
          procs[p] := procs[p].(parent := INIT);
          if procs[p].state.ZOMBIE? {
            assert IsZombieChild(was, p, cur);
            Wakeup(ProcChan(INIT));
            told := true;
          }
        }
        p := p + 1;
      }
    }

    /** sys_exit, from the point where the files are closed. */
    method SysExit()
      requires Snapshot().Running() && procs[cur].parent >= 0
      modifies this`cur, procs
      ensures Snapshot() == RunExit(old(Snapshot()))
    {
      Wakeup(ProcChan(procs[cur].parent));
      HandOver();
      procs[cur] := procs[cur].(state := ZOMBIE, work := User);
      assert procs[..] == AfterExit(old(Snapshot()));
      Scheduler();
    }

    /** pipewrite on the ring of pipe p, from byte i0 up to its return or its next sleep. */
    method PipeWrite(p: nat, ring: Ring, addr: seq<int>, i0: nat)
      requires Snapshot().Running() && p < |pipes| && ring.Valid() && i0 <= |addr| && pipes[p] == ring.Contents()
      modifies this`cur, this`pipes, procs, ring, ring.data
      ensures ring.Valid() && |pipes| == |old(pipes)| && pipes[p] == ring.Contents()
      ensures Snapshot() == RunWrite(old(Snapshot()), p, addr[i0..], |addr|)
    {
      hide WriteStep, WriteWakes, FirstRunnable, Schedule;
      var o, wakes := ring.Write(addr, i0, procs[cur].killed);
      assert procs[..] == old(procs[..]);
      pipes := pipes[p := ring.Contents()];
      if wakes { Wakeup(ReadChan(p)); }
      match o
      case Returns(value) => Return(Value(value));
      case Sleeps(rest) => SleepOn(WriteChan(p), Writing(p, rest, |addr|));
    }

    /** piperead on the ring of pipe p, up to its return or its next sleep. */
    method PipeRead(p: nat, ring: Ring, n: nat)
      requires Snapshot().Running() && p < |pipes| && ring.Valid() && pipes[p] == ring.Contents()
      modifies this`cur, this`pipes, procs, ring
      ensures ring.Valid() && |pipes| == |old(pipes)| && pipes[p] == ring.Contents()
      ensures Snapshot() == RunRead(old(Snapshot()), p, n)
    {
      hide FirstRunnable, Schedule;
      var o := ring.Read(n, procs[cur].killed);
      assert procs[..] == old(procs[..]);
      match o
      case ReadKilled => Return(Value(EPIPE));
      case ReadSleeps => SleepOn(ReadChan(p), Reading(p, n));
      case Got(bytes) =>
        pipes := pipes[p := ring.Contents()];
        Wakeup(WriteChan(p));
        Return(Bytes(bytes));
    }

    /** pipeclose. */
    method PipeClose(p: nat, ring: Ring, writable: bool)
      requires p < |pipes| && ring.Valid() && pipes[p] == ring.Contents()
      modifies this`pipes, procs, ring`readopen, ring`writeopen
      ensures ring.Valid() && |pipes| == |old(pipes)| && pipes[p] == ring.Contents()
      ensures Snapshot() == RunClose(old(Snapshot()), p, writable)
    {
      if writable {
        ring.writeopen := false;
        Wakeup(ReadChan(p));
      } else {
        ring.readopen := false;
        Wakeup(WriteChan(p));
      }
      pipes := pipes[p := ring.Contents()];
    }
  }
}
