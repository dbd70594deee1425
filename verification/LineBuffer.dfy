/** The editor's text buffer (cmds/s/buffer.c): a circular doubly-linked list of lines with a
    pointer to a recently referenced line. */
module LineBuffer {
  import opened Params

  class Node {
    var text: string
    var id: int
    var next: Node
    var prev: Node

    constructor (text: string, id: int)
      ensures this.text == text && this.id == id && next == this && prev == this
    {
      this.text, this.id := text, id;
      next, prev := this, this;
    }
  }

  /** Each node points to the next and back, and the last to the first. */
  ghost predicate LinkedSeq(s: seq<Node>)
    requires |s| >= 1
    reads s
  {
    && Distinct(s)
    && (forall i :: 0 <= i < |s| - 1 ==> s[i].next == s[i + 1])
    && (forall i :: 1 <= i < |s| ==> s[i].prev == s[i - 1])
    && s[|s| - 1].next == s[0] && s[0].prev == s[|s| - 1]
  }

  /** The place that number x comes to on a ring of n: the remainder of x by n. */
  function Around(x: int, n: int): (r: int)
    requires n >= 1
    ensures 0 <= r < n && (0 <= x < n ==> r == x)
    decreases if x < 0 then -x else x
  {
    if x < 0 then (if x + n < 0 then Around(x + n, n) else x + n)
    else if x >= n then Around(x - n, n) else x
  }

  lemma {:induction false} AroundNext(x: int, n: int)
    requires n >= 1
    ensures Around(x + 1, n) == if Around(x, n) == n - 1 then 0 else Around(x, n) + 1
    decreases if x < 0 then -x else x
  {
    if x < 0 && x + n < 0 {
      AroundNext(x + n, n);
    } else if x >= n {
      AroundNext(x - n, n);
    }
  }

  // The lines after the head of the ring.
  ghost function Texts(s: seq<Node>): (r: seq<string>)
    requires |s| >= 1
    reads s
    ensures |r| == |s| - 1
  {
    seq(|s| - 1, i requires 0 <= i < |s| - 1 reads s => s[i + 1].text)
  }

  class Buffer {
    const line0: Node         // links the last line to the first
    var refLine: Node
    var refNbr: int
    var lastId: nat
    ghost var spine: seq<Node>  // line0, then the lines in order
    ghost var repr: set<Node>

    ghost predicate Linked()
      reads this, repr
    {
      && |spine| >= 1 && spine[0] == line0 && (forall i :: 0 <= i < |spine| ==> spine[i] in repr)
      && LinkedSeq(spine)
    }

    // The node that number n stands for: numbers beyond the lines go round the ring.
    ghost function NodeAt(n: int): Node
      requires |spine| >= 1
      reads this
    {
      spine[Around(n, |spine|)]
    }

    /** The list is well linked and refLine is what number refNbr stands for. */
    ghost predicate Valid()
      reads this, repr
    {
      |spine| >= 1 && Linked() && refLine == NodeAt(refNbr)
    }

    ghost function Lines(): (r: seq<string>)
      requires |spine| >= 1
      reads this, spine
      ensures |r| == |spine| - 1
    {
      Texts(spine)
    }

    lemma LineCount()
      requires Valid()
      ensures |spine| >= 1 && |Lines()| == |spine| - 1
    {
    }

    constructor ()
      ensures Valid() && fresh(repr) && Lines() == []
    {
      var n := new Node("", 0);
      line0, refLine, refNbr, lastId := n, n, 0, 0;
      spine, repr := [n], {n};
    }

    lemma NextNode(n: int)
      requires |spine| >= 1 && LinkedSeq(spine)
      ensures NodeAt(n).next == NodeAt(n + 1) && NodeAt(n + 1).prev == NodeAt(n)
    {
      AroundNext(n, |spine|);
    }

    /** reference: move refLine to number n, whichever way that is. */
    method Reference(n: int)
      requires Valid()
      modifies `refLine, `refNbr
      ensures Valid() && refNbr == n && refLine == NodeAt(n) && Lines() == old(Lines())
    {
      hide LinkedSeq, Around, Texts;
      while refNbr < n
        invariant Valid() && (old(refNbr) <= n ==> refNbr <= n)
      {
        NextNode(refNbr);
        refLine := refLine.next;
        refNbr := refNbr + 1;
      }
      while refNbr > n
        invariant Valid() && refNbr >= n
      {
        NextNode(refNbr - 1);
        refLine := refLine.prev;
        refNbr := refNbr - 1;
      }
    }

    /** buf_gets: the text of line k.  A number beyond the lines goes round the ring, and there is no
        text where it ends at line0. */
    method Gets(k: int) returns (s: string, found: bool)
      requires Valid()
      modifies `refLine, `refNbr
      ensures Valid() && Lines() == old(Lines())
      ensures found <==> Around(k, |Lines()| + 1) != 0
      ensures found ==> s == Lines()[Around(k, |Lines()| + 1) - 1]
    {
      Reference(k);
      found := refLine != line0;
      s := refLine.text;
    }

    // The four link updates of an insertion between a and b.
    method SetLinks(p: Node, a: Node, b: Node)
      requires a in repr && b in repr && p !in repr && a.next == b
      modifies p, repr
      ensures p.next == b && p.prev == a && p.text == old(p.text) && p.id == old(p.id) && a.next == p && b.prev == p
      ensures forall n :: n in repr ==>
                (n != a ==> n.next == old(n.next)) && (n != b ==> n.prev == old(n.prev)) && n.text == old(n.text)
    {
      p.next := a.next;
      p.prev := a;
      a.next.prev := p;
      a.next := p;
    }

    // Link node p in after refLine.
    method LinkIn(p: Node, ghost k: int)
      requires Valid() && 1 <= k <= |spine| && refNbr == k - 1 && p !in repr
      modifies this, repr, p
      ensures Valid() && repr == old(repr) + {p} && spine == old(spine[..k]) + [p] + old(spine[k..])
      ensures lastId == old(lastId) && p.id == old(p.id) && p.text == old(p.text)
      ensures forall i :: 0 <= i < |old(spine)| ==> old(spine)[i].text == old(spine[i].text)
    {
      hide Around, Texts;
      NextNode(k - 1);
      assert refLine.next == NodeAt(k) && NodeAt(k) in repr && (k == |spine| ==> NodeAt(k) == spine[0]) by {
        AroundNext(k - 1, |spine|);
      }
      SetLinks(p, refLine, refLine.next);
      Spliced(p, k);
      spine, repr := spine[..k] + [p] + spine[k..], repr + {p};
    }

    // The list but for the links around p is as it was, so with p it is well linked.
    lemma Spliced(p: Node, k: int)
      requires 1 <= k <= |spine| && Distinct(spine) && p !in spine
      requires forall i :: 0 <= i < |spine| - 1 && i != k - 1 ==> spine[i].next == spine[i + 1]
      requires forall i :: 1 <= i < |spine| && i != k ==> spine[i].prev == spine[i - 1]
      requires spine[k - 1].next == p && p.prev == spine[k - 1]
      requires var q := if k == |spine| then spine[0] else spine[k]; p.next == q && q.prev == p
      requires k < |spine| ==> spine[|spine| - 1].next == spine[0] && spine[0].prev == spine[|spine| - 1]
      ensures LinkedSeq(spine[..k] + [p] + spine[k..])
    {
      var t := spine[..k] + [p] + spine[k..];
      forall i | 0 <= i < |t| ensures t[i] == if i < k then spine[i] else if i == k then p else spine[i - 1] {
      }
      forall i | 0 <= i < |t| - 1 ensures t[i].next == t[i + 1] {
        if i < k - 1 { assert spine[i].next == spine[i + 1]; }
        if i > k { assert spine[i - 1].next == spine[i]; }
      }
      forall i | 1 <= i < |t| ensures t[i].prev == t[i - 1] {
        if i < k { assert spine[i].prev == spine[i - 1]; }
        if i > k + 1 { assert spine[i - 1].prev == spine[i - 2]; }
      }
    }

    /** buf_insert: s becomes line k. */
    method Insert(k: int, s: string)
      requires Valid() && 1 <= k <= |spine|
      modifies this, repr
      ensures Valid() && fresh(repr - old(repr))
      ensures Lines() == old(Lines()[..k - 1]) + [s] + old(Lines()[k - 1..])
      ensures spine[k].id == lastId == old(lastId) + 1
    {
      hide LinkedSeq, Around, Texts;
      ghost var was := Lines();
      Reference(k - 1);
      lastId := lastId + 1;
      var p := new Node(s, lastId);
      ghost var nodes := spine;
      LineTexts();
      LinkIn(p, k);
      SplicedTexts(nodes, was, p, k);
    }

    lemma LineTexts()
      requires |spine| >= 1
      ensures forall i :: 1 <= i < |spine| ==> spine[i].text == Lines()[i - 1]
    {
    }

    lemma SplicedTexts(nodes: seq<Node>, was: seq<string>, p: Node, k: int)
      requires 1 <= k <= |nodes| == |was| + 1 && spine == nodes[..k] + [p] + nodes[k..]
      requires forall i :: 1 <= i < |nodes| ==> nodes[i].text == was[i - 1]
      ensures Lines() == was[..k - 1] + [p.text] + was[k - 1..]
    {
    }

    method Replace(k: int, s: string)
      requires Valid() && 1 <= k < |spine|
      modifies this, repr
      ensures Valid() && repr == old(repr)
      ensures Lines() == old(Lines())[k - 1 := s]
      ensures spine[k].id == lastId == old(lastId) + 1
    {
      hide Around;
      Reference(k);
      assert refLine == spine[k];
      lastId := lastId + 1;
      refLine.text := s;
      refLine.id := lastId;
    }

    // Without the line at k the list is well linked.
    lemma Unlinked(k: int)
      requires 1 <= k < |spine| && Distinct(spine)
      requires forall i :: 0 <= i < |spine| - 1 && i != k - 1 && i != k ==> spine[i].next == spine[i + 1]
      requires forall i :: 1 <= i < |spine| && i != k && i != k + 1 ==> spine[i].prev == spine[i - 1]
      requires var q := if k + 1 == |spine| then spine[0] else spine[k + 1];
               spine[k - 1].next == q && q.prev == spine[k - 1]
      requires k + 1 < |spine| ==> spine[|spine| - 1].next == spine[0] && spine[0].prev == spine[|spine| - 1]
      ensures LinkedSeq(spine[..k] + spine[k + 1..])
    {
      var t := spine[..k] + spine[k + 1..];
      forall i | 0 <= i < |t| ensures t[i] == if i < k then spine[i] else spine[i + 1] {
      }
      forall i | 0 <= i < |t| - 1 ensures t[i].next == t[i + 1] {
        if i < k - 1 { assert spine[i].next == spine[i + 1]; }
        if i >= k { assert spine[i + 1].next == spine[i + 2]; }
      }
      forall i | 1 <= i < |t| ensures t[i].prev == t[i - 1] {
        if i < k { assert spine[i].prev == spine[i - 1]; }
        if i > k { assert spine[i + 1].prev == spine[i]; }
      }
    }

    // Unlink the line in hand and move to the next.
    method Unlink(ghost k: int)
      requires Valid() && 1 <= k < |spine| && refNbr == k
      modifies `refLine, `spine, repr
      ensures Valid() && spine == old(spine[..k]) + old(spine[k + 1..])
      ensures forall i :: 0 <= i < |old(spine)| ==> old(spine)[i].text == old(spine[i].text)
    {
      hide Around, Texts;
      AroundNext(k, |spine|);
      var b := refLine.next;
      assert b == (if k + 1 == |spine| then spine[0] else spine[k + 1]) && refLine.prev == spine[k - 1];
      b.prev := refLine.prev;
      b.prev.next := b;
      Unlinked(k);
      spine := spine[..k] + spine[k + 1..];
      refLine := b;
      AroundNext(k - 1, |spine|);
    }

    // One round of buf_delete's loop.
    method DeleteOne(ghost k: int)
      requires Valid() && 1 <= k < |spine| && refNbr == k
      modifies `refLine, `spine, repr
      ensures Valid() && |spine| == |old(spine)| - 1
      ensures Lines() == old(Lines()[..k - 1]) + old(Lines()[k..])
    {
      hide Around, LinkedSeq;
      Unlink(k);
    }

    /** buf_delete: remove lines from..to. */
    method Delete(from: int, to: int)
      requires Valid() && 1 <= from && from - 1 <= to < |spine|
      modifies this, repr
      ensures Valid() && repr == old(repr)
      ensures Lines() == old(Lines()[..from - 1]) + old(Lines()[to..])
    {
      hide Linked, Lines;
      var count := to - from + 1;
      LineCount();
      ghost var was := Lines();
      assert was == was[..from - 1] + was[from - 1..];
      Reference(from);
      while count > 0
        invariant 0 <= count <= to - from + 1 && Valid() && refNbr == from
        invariant repr == old(repr) && |spine| == |old(spine)| - (to - from + 1 - count)
        invariant Lines() == was[..from - 1] + was[to - count..]
      {
        LineCount();
        CutOne(was, from, to - count);
        DeleteOne(from);
        count := count - 1;
      }
    }
  }

  lemma CutOne(was: seq<string>, from: int, at: int)
    requires 1 <= from && from - 1 <= at < |was|
    ensures var now := was[..from - 1] + was[at..];
            now[..from - 1] + now[from..] == was[..from - 1] + was[at + 1..]
  {
  }
}
