/** Pipes (kern/pipe.c): a ring buffer addressed by two 32-bit counters that wrap round. */
module PipeRing {
  import opened Params

  const PIPESIZE: nat := 512

  /** What a pipe is to its users: the bytes in it and which ends are open. */
  datatype View = View(queue: seq<int>, readopen: bool, writeopen: bool) {
    predicate Full() {
      |queue| >= PIPESIZE
    }
  }

  /** How a call goes on when the process next gives up the processor: it returns a value,
      or sleeps with this much still to write. */
  datatype Outcome = Returns(value: int) | Sleeps(rest: seq<int>)

  function Room(v: View, n: nat): nat {
    if |v.queue| >= PIPESIZE then 0 else if n < PIPESIZE - |v.queue| then n else PIPESIZE - |v.queue|
  }

  /** pipewrite from where it stands to its next sleep or its return: fill the pipe; if bytes
      remain, fail when there is no reader or the process is killed, and else sleep. */
  function WriteStep(v: View, rest: seq<int>, total: int, killed: bool): (View, Outcome) {
    var k := Room(v, |rest|);
    var v' := v.(queue := v.queue + rest[..k]);
    if k == |rest| then (v', Returns(total))
    else if !v.readopen || killed then (v', Returns(-1))
    else (v', Sleeps(rest[k..]))
  }

  // wakeup(&p->nread) is reached, except on the way out with -1.
  predicate WriteWakes(v: View, rest: seq<int>, killed: bool) {
    Room(v, |rest|) == |rest| || (v.readopen && !killed)
  }

  datatype ReadOutcome = Got(bytes: seq<int>) | ReadSleeps | ReadKilled

  /** piperead: sleep while the pipe is empty and can still be written, unless killed. */
  function ReadStep(v: View, n: nat, killed: bool): (View, ReadOutcome) {
    if v.queue == [] && v.writeopen then (v, if killed then ReadKilled else ReadSleeps)
    else
      var k := if n < |v.queue| then n else |v.queue|;
      (v.(queue := v.queue[k..]), Got(v.queue[..k]))
  }

  // ----- what the steps do ----------------------------------------------------------

  /** A step of pipewrite adds the next bytes of the call to the pipe, in order, until all are in
      or the pipe is full; it returns the number asked for exactly if all are in, and if it sleeps
      it has the bytes that are not in still to write. */
  lemma WriteLaw(v: View, rest: seq<int>, total: int, killed: bool) returns (w: seq<int>)
    ensures var (v', o) := WriteStep(v, rest, total, killed);
            && v'.queue == v.queue + w && v'.readopen == v.readopen && v'.writeopen == v.writeopen
            && w <= rest && (w != rest ==> v'.Full()) && (|v.queue| <= PIPESIZE ==> |v'.queue| <= PIPESIZE)
            && (w == rest ==> o == Returns(total))
            && (w != rest ==> if v.readopen && !killed then o.Sleeps? && w + o.rest == rest else o == Returns(-1))
  {
    w := rest[..Room(v, |rest|)];
  }

  /** A step of piperead sleeps exactly if the pipe is empty and can still be written; it returns the
      first bytes of the pipe, as many as are asked for or there are, and leaves the others. */
  lemma ReadLaw(v: View, n: nat, killed: bool)
    ensures var (v', o) := ReadStep(v, n, killed);
            && v'.readopen == v.readopen && v'.writeopen == v.writeopen
            && (o.Got? <==> v.queue != [] || !v.writeopen) && (!o.Got? ==> v' == v && (o.ReadKilled? <==> killed))
            && (o.Got? ==> o.bytes + v'.queue == v.queue && |o.bytes| <= n && (|o.bytes| == n || v'.queue == []))
  {
  }

  /** A whole call of pipewrite: it is resumed on the pipe as it finds it, after any number of
      sleeps.  `added` are the bytes that it put in at each resumption. */
  ghost predicate IsCall(rest: seq<int>, total: int, pipes: seq<View>, killed: seq<bool>, added: seq<seq<int>>,
                         end: Outcome)
    decreases |pipes|
  {
    && |pipes| == |killed| == |added| >= 1
    && var (v', o) := WriteStep(pipes[0], rest, total, killed[0]);
       && v'.queue == pipes[0].queue + added[0]
       && if |pipes| == 1 then o == end
          else o.Sleeps? && IsCall(o.rest, total, pipes[1..], killed[1..], added[1..], end)
  }

  ghost function Concat(added: seq<seq<int>>): seq<int> {
    if added == [] then [] else added[0] + Concat(added[1..])
  }

  /** Through any number of sleeps, a call adds a prefix of its bytes, each byte once and in order;
      all of them if it returns their number, and what is left if it sleeps. */
  lemma {:induction false} CallAddsPrefix(addr: seq<int>, total: nat, pipes: seq<View>, killed: seq<bool>,
                                          added: seq<seq<int>>, end: Outcome)
    requires IsCall(addr, total, pipes, killed, added, end)
    ensures Concat(added) <= addr
    ensures end == Returns(total) ==> Concat(added) == addr
    ensures end.Sleeps? ==> Concat(added) + end.rest == addr
    ensures end.Returns? ==> end.value == total || end.value == -1
    decreases |pipes|
  {
    hide WriteStep;
    var w := WriteLaw(pipes[0], addr, total, killed[0]);
    SameTail(pipes[0].queue, w, added[0]);
    assert Concat(added) == w + Concat(added[1..]);
    if |pipes| == 1 {
      assert Concat(added[1..]) == [];
    } else {
      var o := WriteStep(pipes[0], addr, total, killed[0]).1;
      CallAddsPrefix(o.rest, total, pipes[1..], killed[1..], added[1..], end);
      PrefixGoesOn(w, Concat(added[1..]), o.rest, addr);
    }
  }

  lemma SameTail(q: seq<int>, a: seq<int>, b: seq<int>)
    requires q + a == q + b
    ensures a == b
  {
    assert a == (q + a)[|q|..] && b == (q + b)[|q|..];
  }

  lemma PrefixGoesOn(w: seq<int>, c: seq<int>, rest: seq<int>, addr: seq<int>)
    requires w + rest == addr && c <= rest
    ensures w + c <= addr
  {
  }

  // ----- the counters ---------------------------------------------------------------

  lemma WrapIndex(x: nat)
    ensures x % WORD % PIPESIZE == x % PIPESIZE
  {
    assert WORD == PIPESIZE * 0x80_0000;
    var q := x / WORD;
    assert x == q * WORD + x % WORD;
    assert x == PIPESIZE * (q * 0x80_0000) + x % WORD;
    ModAdd(q * 0x80_0000, x % WORD);
  }

  lemma ModAdd(k: nat, y: nat)
    ensures (PIPESIZE * k + y) % PIPESIZE == y % PIPESIZE
  {
    if k > 0 {
      ModAdd(k - 1, y);
      assert PIPESIZE * k + y == PIPESIZE * (k - 1) + y + PIPESIZE;
    }
  }

  // Counters a distance of at most PIPESIZE apart are equal, or PIPESIZE apart, exactly if
  // their remainders say so.
  lemma WrapCompare(r: nat, w: nat)
    requires r <= w <= r + PIPESIZE
    ensures r % WORD == w % WORD <==> r == w
    ensures w % WORD == (r % WORD + PIPESIZE) % WORD <==> w == r + PIPESIZE
  {
  }

  lemma WrapNext(x: nat)
    ensures (x % WORD + 1) % WORD == (x + 1) % WORD
  {
  }

  // Slots of bytes in the ring do not overlap.
  lemma SlotsDiffer(i: nat, j: nat)
    requires i < j < i + PIPESIZE
    ensures i % PIPESIZE != j % PIPESIZE
  {
  }

  // ----- the ring -------------------------------------------------------------------

  class Ring {
    const data: array<int>
    var nread: nat
    var nwrite: nat
    var readopen: bool
    var writeopen: bool
    ghost var accepted: seq<int>  // every byte that pipewrite has stored
    ghost var returned: seq<int>  // every byte that piperead has handed out

    /** Bytes come out in the order they went in, the ring holds those still inside, and the
        counters are the true counts modulo 2^32. */
    ghost predicate Valid()
      reads this, data
    {
      && data.Length == PIPESIZE
      && returned <= accepted && |accepted| <= |returned| + PIPESIZE
      && nread == |returned| % WORD && nwrite == |accepted| % WORD
      && forall k :: |returned| <= k < |accepted| ==> data[k % PIPESIZE] == accepted[k]
    }

    ghost function Contents(): View
      requires |returned| <= |accepted|
      reads this
    {
      View(accepted[|returned|..], readopen, writeopen)
    }

    constructor ()
      ensures Valid() && accepted == [] && returned == [] && readopen && writeopen && fresh(data)
    {
      data := new int[PIPESIZE];
      nread, nwrite, readopen, writeopen := 0, 0, true, true;
      accepted, returned := [], [];
    }

    method IsFull() returns (full: bool)
      requires Valid()
      ensures full <==> |accepted| == |returned| + PIPESIZE
    {
      WrapCompare(|returned|, |accepted|);
      full := nwrite == (nread + PIPESIZE) % WORD;
    }

    method IsEmpty() returns (empty: bool)
      requires Valid()
      ensures empty <==> accepted == returned
    {
      WrapCompare(|returned|, |accepted|);
      empty := nread == nwrite;
    }

    method Put(c: int)
      requires Valid() && |accepted| < |returned| + PIPESIZE
      modifies this, data
      ensures Valid() && accepted == old(accepted) + [c] && returned == old(returned)
      ensures readopen == old(readopen) && writeopen == old(writeopen)
    {
      WrapIndex(|accepted|);
      WrapNext(|accepted|);
      forall k | |returned| <= k < |accepted| ensures k % PIPESIZE != |accepted| % PIPESIZE {
        SlotsDiffer(k, |accepted|);
      }
      data[nwrite % PIPESIZE] := c;
      nwrite := (nwrite + 1) % WORD;
      accepted := accepted + [c];
    }

    method Get() returns (c: int)
      requires Valid() && |returned| < |accepted|
      modifies `nread, `returned
      ensures Valid() && c == accepted[|old(returned)|] && returned == old(returned) + [c]
    {
      WrapIndex(|returned|);
      WrapNext(|returned|);
      c := data[nread % PIPESIZE];
      nread := (nread + 1) % WORD;
      returned := returned + [c];
    }

    /** pipewrite from byte i on, up to its return or its next sleep. */
    method Write(addr: seq<int>, i0: nat, killed: bool) returns (o: Outcome, wakes: bool)
      requires Valid() && i0 <= |addr|
      modifies this, data
      ensures Valid() && returned == old(returned) && old(accepted) <= accepted
      ensures accepted[|old(accepted)|..] <= addr[i0..]
      ensures o.Sleeps? ==> accepted[|old(accepted)|..] + o.rest == addr[i0..]
      ensures o == Returns(|addr|) ==> accepted[|old(accepted)|..] == addr[i0..]
      ensures (Contents(), o) == WriteStep(old(Contents()), addr[i0..], |addr|, killed)
      ensures wakes == WriteWakes(old(Contents()), addr[i0..], killed)
    {
      hide Valid;
      Bounds();
      ghost var rest, was := addr[i0..], accepted;
      var i := i0;
      while i < |addr|
        invariant i0 <= i <= |addr| && Valid() && returned == old(returned)
        invariant |returned| <= |accepted| <= |returned| + PIPESIZE
        invariant accepted == was + addr[i0..i] && readopen == old(readopen) && writeopen == old(writeopen)
      {
        var full := IsFull();
        if full {
          WriteSplit(old(Contents()), was, returned, addr, i0, i);
          if !readopen || killed { return Returns(-1), false; }
          return Sleeps(addr[i..]), true;
        }
        Put(addr[i]);
        i := i + 1;
        Bounds();
      }
      WriteSplit(old(Contents()), was, returned, addr, i0, i);
      return Returns(|addr|), true;
    }

    lemma Bounds()
      requires Valid()
      ensures |returned| <= |accepted| <= |returned| + PIPESIZE && returned <= accepted
    {
    }

    /** piperead up to its return or its next sleep. */
    method Read(n: nat, killed: bool) returns (o: ReadOutcome)
      requires Valid()
      modifies `nread, `returned
      ensures Valid() && accepted == old(accepted) && old(returned) <= returned
      ensures (Contents(), o) == ReadStep(old(Contents()), n, killed)
      ensures o.Got? ==> returned == old(returned) + o.bytes
    {
      hide Valid;
      Bounds();
      var empty := IsEmpty();
      if empty && writeopen {
        return if killed then ReadKilled else ReadSleeps;
      }
      var bytes: seq<int> := [];
      while |bytes| < n
        invariant Valid() && |bytes| <= n && |returned| <= |accepted|
        invariant |bytes| <= |old(Contents()).queue| && bytes == old(Contents()).queue[..|bytes|]
        invariant returned == old(returned) + bytes
      {
        empty := IsEmpty();
        if empty { break; }
        Bounds();
        var c := Get();
        bytes := bytes + [c];
        Bounds();
      }
      Bounds();
      o := Got(bytes);
    }
  }

  // The loop stops with the pipe full or everything written: that is Room.
  lemma WriteSplit(v: View, was: seq<int>, returned: seq<int>, addr: seq<int>, i0: nat, i: nat)
    requires i0 <= i <= |addr| && |returned| <= |was| && v.queue == was[|returned|..]
    requires i - i0 + |v.queue| <= PIPESIZE && (i < |addr| ==> i - i0 + |v.queue| == PIPESIZE)
    ensures Room(v, |addr[i0..]|) == i - i0
    ensures v.queue + addr[i0..][..i - i0] == (was + addr[i0..i])[|returned|..]
    ensures addr[i0..][i - i0..] == addr[i..]
  {
    assert addr[i0..][..i - i0] == addr[i0..i];
  }
}
