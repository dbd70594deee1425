/** grep's matcher (cmds/simple/grep.c): a backtracking walk over the compiled pattern. */
module GrepMatch {
  import opened GrepPattern

  const CCHR: int := 2
  const CDOT: int := 4
  const CCL: int := 6
  const CDOL: int := 10
  const CEOF: int := 11

  // ----- compiled code --------------------------------------------------------------

  const BITTAB: seq<int> := [1, 2, 4, 8, 16, 32, 64, 128]

  predicate Bit(b: int, k: nat)
    requires k < 8
  {
    b / BITTAB[k] % 2 == 1
  }

  /** Sixteen bytes hold one bit for each of 128 characters. */
  ghost predicate ClassBytes(bs: seq<int>, m: set<int>) {
    |bs| == 16 && forall c :: 0 <= c < 128 ==> (Bit(bs[c / 8], c % 8) <==> c in m)
  }

  function CodeLength(a: Atom): nat {
    match a
    case Chr(_) => 2
    case Dot => 1
    case Set(_) => 17
    case Dol => 1
  }

  function Opcode(a: Atom): int {
    match a
    case Chr(_) => CCHR
    case Dot => CDOT
    case Set(_) => CCL
    case Dol => CDOL
  }

  /** Position `at` of the code holds this item; its low bit tells a star. */
  ghost predicate ItemAt(code: seq<int>, at: nat, it: Item) {
    && at + CodeLength(it.atom) <= |code|
    && code[at] == Opcode(it.atom) + (if it.star then 1 else 0)
    && (it.atom.Chr? ==> code[at + 1] == it.atom.c && it.atom.c != 0)
    && (it.atom.Set? ==> ClassBytes(code[at + 1..at + 17], it.atom.members) && 0 !in it.atom.members)
    && (it.atom.Dol? ==> !it.star)
  }

  /** code[at..end] is the code of these items. */
  ghost predicate Encodes(code: seq<int>, at: nat, end: nat, items: seq<Item>)
    decreases |items|
  {
    if items == [] then at == end
    else ItemAt(code, at, items[0]) && Encodes(code, at + CodeLength(items[0].atom), end, items[1..])
  }

  /** The whole program from `at`: the items and CEOF. */
  ghost predicate Program(code: seq<int>, at: nat, end: nat, items: seq<Item>) {
    Encodes(code, at, end, items) && end < |code| && code[end] == CEOF
  }

  // *lp: the line is closed by a 0.
  function At(text: Str, i: int): int
    requires 0 <= i <= |text|
  {
    if i == |text| then 0 else text[i]
  }

  // ----- stars ----------------------------------------------------------------------

  // top is where the run of accepted characters from i ends.
  ghost predicate RunEnds(a: Atom, text: Str, i: int, top: int) {
    AllAccepted(a, text, i, top) && (top < |text| ==> !Accepts(a, text[top]))
  }

  /** A star matches exactly if the rest matches at some point of the maximal run. */
  lemma StarMeaning(items: seq<Item>, text: Str, i: int, top: int)
    requires items != [] && items[0].star && RunEnds(items[0].atom, text, i, top)
    ensures Matches(items, text, i) <==> exists k :: i <= k <= top && Matches(items[1..], text, k)
  {
    var a, rest := items[0].atom, items[1..];
    if Matches(items, text, i) {
      var k :| AllAccepted(a, text, i, k) && Matches(rest, text, k);
      assert i <= k <= top && Matches(items[1..], text, k);
    } else {
      forall k | i <= k <= top ensures !Matches(items[1..], text, k) {
        assert AllAccepted(a, text, i, k);
      }
    }
  }

  // If the items start with a literal, they match only where that literal stands.
  lemma LiteralFirst(items: seq<Item>, text: Str, i: int)
    requires Seven(text) && items != [] && items[0].atom.Chr? && !items[0].star && 0 <= i <= |text|
             && items[0].atom.c != 0
    requires At(text, i) != items[0].atom.c
    ensures !Matches(items, text, i)
  {
  }

  // The test of a class: bit c of the sixteen bytes at ep.
  method InClass(code: seq<int>, ep: nat, c: int, ghost m: set<int>) returns (r: bool)
    requires ep + 16 <= |code| && 0 <= c < 128 && ClassBytes(code[ep..ep + 16], m)
    ensures r <==> c in m
  {
    r := Bit(code[ep + c / 8], c % 8);
    assert code[ep + c / 8] == code[ep..ep + 16][c / 8];
  }

  // The loops at the head of the starred cases: run over what the atom accepts.
  method RunOver(text: Str, code: seq<int>, lp: int, ep: nat, ghost it: Item) returns (top: int)
    requires Seven(text) && 0 <= lp <= |text| && ItemAt(code, ep, it) && it.star
    ensures RunEnds(it.atom, text, lp, top)
  {
    hide ClassBytes;
    top := lp;
    if code[ep] == CDOT + 1 {
      while At(text, top) != 0
        decreases |text| - top
        invariant AllAccepted(it.atom, text, lp, top)
      {
        top := top + 1;
      }
    } else if code[ep] == CCHR + 1 {
      while At(text, top) == code[ep + 1]
        decreases |text| - top
        invariant AllAccepted(it.atom, text, lp, top)
      {
        top := top + 1;
      }
    } else {
      top := RunOverClass(text, code, lp, ep, it);
    }
  }

  method RunOverClass(text: Str, code: seq<int>, lp: int, ep: nat, ghost it: Item) returns (top: int)
    requires Seven(text) && 0 <= lp <= |text| && ItemAt(code, ep, it) && it.star && it.atom.Set?
    ensures RunEnds(it.atom, text, lp, top)
  {
    hide ClassBytes;
    top := lp;
    var more := true;
    while more
      invariant AllAccepted(it.atom, text, lp, top)
      invariant !more ==> RunEnds(it.atom, text, lp, top)
      decreases more, |text| - top
    {
      more := InClass(code, ep + 1, At(text, top), it.atom.members);
      if more { top := top + 1; }
    }
  }

  /** The end of the starred cases: try the rest of the pattern from the longest run down, and
      with a literal next, only where that literal stands. */
  method Backtrack(text: Str, code: seq<int>, curlp: int, top: int, ep: nat, ghost end: nat, ghost rest: seq<Item>)
    returns (ok: bool)
    requires Seven(text) && 0 <= curlp <= top <= |text| && Program(code, ep, end, rest)
    ensures ok <==> exists k :: curlp <= k <= top && Matches(rest, text, k)
    decreases |rest|, 1
  {
    hide Matches, ClassBytes;
    ProgramStart(code, ep, end, rest);
    var literal := code[ep] == CCHR;
    var lp := top;
    while lp >= curlp
      invariant curlp - 1 <= lp <= top && forall k :: lp < k <= top ==> !Matches(rest, text, k)
    {
      if literal && At(text, lp) != code[ep + 1] {
        LiteralFirst(rest, text, lp);
      } else {
        ok := Advance(text, code, lp, ep, end, rest);
        if ok { return; }
      }
      lp := lp - 1;
    }
    return false;
  }

  lemma ProgramStart(code: seq<int>, ep: nat, end: nat, items: seq<Item>)
    requires Program(code, ep, end, items)
    ensures ep < |code| && (code[ep] == CEOF <==> items == [])
    ensures items != [] ==> ItemAt(code, ep, items[0]) && Program(code, ep + CodeLength(items[0].atom), end, items[1..])
    ensures code[ep] == CCHR ==> items != [] && items[0].atom.Chr? && !items[0].star
  {
  }

  lemma OneMeaning(items: seq<Item>, text: Str, i: int)
    requires items != [] && !items[0].star && 0 <= i <= |text|
    ensures Matches(items, text, i) <==>
            if items[0].atom.Dol? then i == |text| && Matches(items[1..], text, i)
            else i < |text| && Accepts(items[0].atom, text[i]) && Matches(items[1..], text, i + 1)
  {
  }

  // One item without a star.
  method MatchOne(text: Str, code: seq<int>, lp: int, ep: nat, ghost it: Item) returns (ok: bool)
    requires Seven(text) && 0 <= lp <= |text| && ItemAt(code, ep, it) && !it.star
    ensures ok <==> if it.atom.Dol? then lp == |text| else lp < |text| && Accepts(it.atom, text[lp])
  {
    hide ClassBytes;
    if code[ep] == CCHR {
      ok := code[ep + 1] == At(text, lp);
    } else if code[ep] == CDOT {
      ok := At(text, lp) != 0;
    } else if code[ep] == CDOL {
      ok := At(text, lp) == 0;
    } else {
      ok := InClass(code, ep + 1, At(text, lp), it.atom.members);
    }
  }

  function CodeLengthOf(op: int): nat {
    if op == CCHR || op == CCHR + 1 then 2 else if op == CCL || op == CCL + 1 then 17 else 1
  }

  /** advance: the compiled pattern at ep matches at lp exactly if its items do. */
  method Advance(text: Str, code: seq<int>, lp0: int, ep0: nat, ghost end: nat, ghost items: seq<Item>)
    returns (ok: bool)
    requires Seven(text) && 0 <= lp0 <= |text| && Program(code, ep0, end, items)
    ensures ok <==> Matches(items, text, lp0)
    decreases |items|, 0
  {
    hide Matches, ClassBytes, Encodes;
    var lp: int, ep: nat := lp0, ep0;
    ghost var its := items;
    while true
      invariant 0 <= lp <= |text| && Program(code, ep, end, its) && |its| <= |items|
      invariant Matches(items, text, lp0) <==> Matches(its, text, lp)
      decreases |its|
    {
      ProgramStart(code, ep, end, its);
      var op := code[ep];
      if op == CEOF {
        NothingMatches(text, lp);
        return true;
      }
      ghost var rest := its[1..];
      if op % 2 == 1 {
        var top := RunOver(text, code, lp, ep, its[0]);
        StarMeaning(its, text, lp, top);
        if top != lp {
          ok := Backtrack(text, code, lp, top, ep + CodeLengthOf(op), end, rest);
          return;
        }
      } else {
        var one := MatchOne(text, code, lp, ep, its[0]);
        OneMeaning(its, text, lp);
        if !one { return false; }
        if op != CDOL { lp := lp + 1; }
      }
      ep := ep + CodeLengthOf(op);
      its := rest;
    }
  }

  lemma NothingMatches(text: Str, i: int)
    requires 0 <= i <= |text|
    ensures Matches([], text, i)
  {
  }

  ghost predicate Somewhere(items: seq<Item>, text: Str) {
    exists i :: 0 <= i <= |text| && Matches(items, text, i)
  }

  /** The search of execute: with '^' only the start of the line is tried, and a pattern that
      begins with a literal only where it stands. */
  method FindMatch(text: Str, code: seq<int>, circf: bool, ghost end: nat, ghost items: seq<Item>) returns (found: bool)
    requires Seven(text) && Program(code, 0, end, items)
    ensures found <==> if circf then Matches(items, text, 0) else Somewhere(items, text)
  {
    hide Matches, ClassBytes, Encodes;
    if circf {
      found := Advance(text, code, 0, 0, end, items);
      return;
    }
    ProgramStart(code, 0, end, items);
    var literal := code[0] == CCHR;
    var p1 := 0;
    while p1 <= |text|
      invariant 0 <= p1 <= |text| + 1 && forall i :: 0 <= i < p1 ==> !Matches(items, text, i)
    {
      if literal && At(text, p1) != code[1] {
        LiteralFirst(items, text, p1);
      } else {
        found := Advance(text, code, p1, 0, end, items);
        if found { return; }
      }
      p1 := p1 + 1;
    }
    return false;
  }
}
