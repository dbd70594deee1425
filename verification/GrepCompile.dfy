/** grep's pattern compiler (cmds/simple/grep.c). */
module GrepCompile {
  import opened GrepPattern
  import opened GrepMatch

  // ----- class bitmaps --------------------------------------------------------------

  predicate IsByte(b: int) {
    0 <= b < 256
  }

  function SetBit(b: int, k: nat): int
    requires k < 8
  {
    if Bit(b, k) then b else b + BITTAB[k]
  }

  // Halving a byte shifts its bits down by one.
  lemma HalfBit(b: int, k: nat)
    requires IsByte(b) && 1 <= k < 8
    ensures Bit(b, k) <==> Bit(b / 2, k - 1)
  {
    assert BITTAB[k] == 2 * BITTAB[k - 1];
  }

  lemma HalfSet(b: int, k: nat)
    requires IsByte(b) && 1 <= k < 8
    ensures SetBit(b, k) / 2 == SetBit(b / 2, k - 1) && SetBit(b, k) % 2 == b % 2
  {
    HalfBit(b, k);
    assert BITTAB[k] == 2 * BITTAB[k - 1];
  }

  lemma LowBit(b: int)
    requires IsByte(b)
    ensures Bit(b, 0) <==> b % 2 == 1
    ensures SetBit(b, 0) == if b % 2 == 1 then b else b + 1
  {
  }

  function Pow(n: nat): nat {
    if n == 0 then 1 else 2 * Pow(n - 1)
  }

  lemma {:induction false} SetBitBound(b: int, k: nat, n: nat)
    requires k < n && k < 8 && IsByte(b) && b < Pow(n)
    ensures 0 <= SetBit(b, k) < Pow(n)
    decreases k
  {
    hide Bit, SetBit;
    if k == 0 {
      LowBit(b);
    } else {
      HalfSet(b, k);
      SetBitBound(b / 2, k - 1, n - 1);
    }
  }

  lemma SetBitByte(b: int, k: nat)
    requires IsByte(b) && k < 8
    ensures IsByte(SetBit(b, k))
  {
    hide Bit, SetBit;
    assert Pow(4) == 16 && Pow(8) == 256;
    SetBitBound(b, k, 8);
  }

  lemma {:induction false} BitSet(b: int, k: nat, j: nat)
    requires IsByte(b) && k < 8 && j < 8
    ensures Bit(SetBit(b, k), j) <==> j == k || Bit(b, j)
    decreases k
  {
    hide Bit, SetBit;
    SetBitByte(b, k);
    if k == 0 { LowBit(b); } else { HalfSet(b, k); }
    if j == 0 {
      LowBit(b);
      LowBit(SetBit(b, k));
    } else {
      HalfBit(b, j);
      HalfBit(SetBit(b, k), j);
      if k > 0 { BitSet(b / 2, k - 1, j - 1); }
    }
  }

  lemma BitFlip(b: int, j: nat)
    requires IsByte(b) && j < 8
    ensures IsByte(255 - b) && (Bit(255 - b, j) <==> !Bit(b, j))
  {
  }

  // ep[0] &= 0376
  function ClearLow(b: int): int {
    b - b % 2
  }

  lemma BitClear(b: int, j: nat)
    requires IsByte(b) && j < 8
    ensures IsByte(ClearLow(b)) && (Bit(ClearLow(b), j) <==> j != 0 && Bit(b, j))
  {
  }

  /** The bitmap under construction: bytes, with a bit for exactly the members so far. */
  ghost predicate BitmapOf(bs: seq<int>, m: set<int>) {
    ClassBytes(bs, m) && forall i :: 0 <= i < 16 ==> IsByte(bs[i])
  }

  lemma EmptyBitmap()
    ensures BitmapOf(seq(16, i => 0), {})
  {
  }

  // ep[c>>3] |= bittab[c&07]
  function AddChar(bs: seq<int>, c: int): seq<int>
    requires |bs| == 16 && 0 <= c < 128
  {
    bs[c / 8 := SetBit(bs[c / 8], c % 8)]
  }

  lemma AddCharBitmap(bs: seq<int>, m: set<int>, c: int)
    requires BitmapOf(bs, m) && 0 <= c < 128
    ensures BitmapOf(AddChar(bs, c), m + {c})
  {
    SetBitByte(bs[c / 8], c % 8);
    forall d | 0 <= d < 128 ensures Bit(AddChar(bs, c)[d / 8], d % 8) <==> d in m + {c} {
      if d / 8 == c / 8 { BitSet(bs[c / 8], c % 8, d % 8); }
    }
  }

  // The complement without the bit of the closing 0.
  function Negate(bs: seq<int>): seq<int>
    requires |bs| == 16
  {
    seq(16, i requires 0 <= i < 16 => if i == 0 then ClearLow(255 - bs[i]) else 255 - bs[i])
  }

  lemma NegateBitmap(bs: seq<int>, m: set<int>)
    requires BitmapOf(bs, m)
    ensures BitmapOf(Negate(bs), Range(1, 127) - m)
  {
    forall d | 0 <= d < 128 ensures Bit(Negate(bs)[d / 8], d % 8) <==> d in Range(1, 127) - m {
      BitFlip(bs[d / 8], d % 8);
      BitClear(255 - bs[d / 8], d % 8);
    }
    forall i | 0 <= i < 16 ensures IsByte(Negate(bs)[i]) {
      BitFlip(bs[i], 0);
      BitClear(255 - bs[i], 0);
    }
  }

  // The loop over a range, and the bit of its last character.
  method AddRange(bs0: seq<int>, ghost m: set<int>, lo: int, hi: int) returns (bs: seq<int>)
    requires BitmapOf(bs0, m) && 1 <= lo <= 127 && 1 <= hi <= 127
    ensures BitmapOf(bs, m + Range(lo, hi))
  {
    hide ClassBytes, BitmapOf;
    bs := bs0;
    var c := lo;
    ghost var seen: set<int> := {};
    assert m + seen == m;
    BitmapLength(bs, m);
    while c < hi
      invariant lo <= c <= 127 && (lo < hi ==> c <= hi) && (hi <= lo ==> c == lo) && |bs| == 16
      invariant BitmapOf(bs, m + seen) && forall d :: d in seen <==> lo <= d < c
    {
      AddCharBitmap(bs, m + seen, c);
      assert m + seen + {c} == m + (seen + {c});
      bs := AddChar(bs, c);
      seen := seen + {c};
      c := c + 1;
    }
    AddCharBitmap(bs, m + seen, c);
    assert m + seen + {c} == m + Range(lo, hi);
    bs := AddChar(bs, c);
  }

  lemma BitmapLength(bs: seq<int>, m: set<int>)
    requires BitmapOf(bs, m)
    ensures |bs| == 16
  {
  }

  function JoinMembers(m: set<int>, r: Members): Members {
    if r.Members? then Members(m + r.chars, r.next) else r
  }

  datatype ClassResult = ClassOk(bytes: seq<int>, next: nat) | ClassBad | ClassRunaway

  /** The do loop of a class: `bytes` get a bit for exactly the members. */
  method CompileMembers(p: Str, first: nat) returns (r: ClassResult)
    requires Seven(p)
    ensures match ClassMembers(p, first, first)
            case Members(m, next) => r.ClassOk? && r.next == next && BitmapOf(r.bytes, m) && 0 !in m
            case BadClass => r == ClassBad
            case Runaway => r == ClassRunaway
  {
    hide ClassBytes, BitmapOf;
    var bs := seq(16, i => 0);
    ghost var m: set<int> := {};
    EmptyBitmap();
    var i := first;
    while i < |p|
      invariant first <= i && BitmapOf(bs, m) && 0 !in m && |bs| == 16
      invariant ClassMembers(p, first, first) == JoinMembers(m, ClassMembers(p, i, first))
      decreases |p| - i
    {
      ghost var here := {p[i]};
      if p[i] == DASH && i > first && (i + 1 >= |p| || p[i + 1] != RBRACK) {
        if i + 1 >= |p| { return ClassRunaway; }
        here := Range(p[i - 1], p[i + 1]);
        bs := AddRange(bs, m, p[i - 1], p[i + 1]);
        i := i + 2;
      } else {
        AddCharBitmap(bs, m, p[i]);
        bs := AddChar(bs, p[i]);
        i := i + 1;
      }
      m := m + here;
      BitmapLength(bs, m);
      if i < |p| && p[i] == RBRACK { return ClassOk(bs, i + 1); }
    }
    return ClassBad;
  }

  // ----- code under construction ----------------------------------------------------

  lemma {:induction false} EncodesPrefix(code: seq<int>, more: seq<int>, at: nat, end: nat, items: seq<Item>)
    requires Encodes(code, at, end, items)
    ensures Encodes(code + more, at, end, items)
    decreases |items|
  {
    if items != [] {
      ItemPrefix(code, more, at, items[0]);
      EncodesPrefix(code, more, at + CodeLength(items[0].atom), end, items[1..]);
    }
  }

  lemma ItemPrefix(code: seq<int>, more: seq<int>, at: nat, it: Item)
    requires ItemAt(code, at, it)
    ensures ItemAt(code + more, at, it)
  {
    if it.atom.Set? { assert (code + more)[at + 1..at + 17] == code[at + 1..at + 17]; }
  }

  lemma {:induction false} EncodesAppend(code: seq<int>, at: nat, end: nat, items: seq<Item>, it: Item)
    requires Encodes(code, at, end, items) && ItemAt(code, end, it)
    ensures Encodes(code, at, end + CodeLength(it.atom), items + [it])
    decreases |items|
  {
    if items == [] {
      assert (items + [it])[1..] == [];
    } else {
      EncodesAppend(code, at + CodeLength(items[0].atom), end, items[1..], it);
      assert (items + [it])[1..] == items[1..] + [it];
    }
  }

  // Code beyond `end` may change.
  lemma {:induction false} EncodesFrame(code: seq<int>, code': seq<int>, at: nat, end: nat, items: seq<Item>)
    requires Encodes(code, at, end, items) && end <= |code| <= |code'| && code[..end] == code'[..end]
    ensures at <= end && Encodes(code', at, end, items)
    decreases |items|
  {
    if items != [] {
      var n := at + CodeLength(items[0].atom);
      EncodesFrame(code, code', n, end, items[1..]);
      assert forall i :: 0 <= i < end ==> code[..end][i] == code[i] && code'[..end][i] == code'[i];
      if items[0].atom.Set? { assert code'[at + 1..at + 17] == code[at + 1..at + 17]; }
    }
  }

  // What the pattern still has to say when its items up to `last` are compiled.
  function Remaining(p: Str, sp: nat, init: seq<Item>, last: Item): Parsed
    requires sp <= |p|
  {
    Prepend(init, Prepend([Item(last.atom, last.star || (sp < |p| && p[sp] == STAR_CH))],
                          ParseItems(p, StarsEnd(p, sp))))
  }

  function Start(p: Str): nat {
    if Anchored(p) then 1 else 0
  }

  /** Between two rounds of compile's loop.  lastep is where the code of the last item starts,
      or -1 while only leading stars have been seen. */
  ghost predicate Compiling(p: Str, sp: nat, code: seq<int>, lastep: int, items: seq<Item>) {
    && sp <= |p|
    && if lastep < 0 then
         && Encodes(code, 0, |code|, items) && Start(p) <= sp <= |p|
         && items == StarLiterals(sp - Start(p)) && StarsEnd(p, sp) == StarsEnd(p, Start(p))
       else
         && items != []
         && var init, last := items[..|items| - 1], items[|items| - 1];
            && Encodes(code, 0, lastep, init) && ItemAt(code, lastep, last)
            && |code| == lastep + CodeLength(last.atom) && (last.atom.Dol? ==> sp == |p|)
            && Parse(p) == Remaining(p, sp, init, last)
  }

  lemma CompilingStarts(p: Str)
    ensures Compiling(p, Start(p), [], -1, [])
  {
  }

  lemma PrependTwice(a: seq<Item>, b: seq<Item>, r: Parsed)
    ensures Prepend(a, Prepend(b, r)) == Prepend(a + b, r)
  {
    if r.Items? { assert a + (b + r.items) == a + b + r.items; }
  }

  // A star before any item stands for itself.
  lemma LeadingStar(p: Str, sp: nat, code: seq<int>, items: seq<Item>)
    requires Compiling(p, sp, code, -1, items) && sp < |p| && p[sp] == STAR_CH
    ensures Compiling(p, sp + 1, code + [CCHR, STAR_CH], -1, items + [Item(Chr(STAR_CH), false)])
  {
    var it := Item(Chr(STAR_CH), false);
    EncodesPrefix(code, [CCHR, STAR_CH], 0, |code|, items);
    assert ItemAt(code + [CCHR, STAR_CH], |code|, it);
    EncodesAppend(code + [CCHR, STAR_CH], 0, |code|, items, it);
    assert StarLiterals(sp + 1 - Start(p)) == items + [it];
  }

  // *lastep |= STAR
  lemma StarItem(p: Str, sp: nat, code: seq<int>, lastep: nat, items: seq<Item>)
    requires Compiling(p, sp, code, lastep, items) && sp < |p| && p[sp] == STAR_CH
    ensures lastep < |code|
    ensures var last := items[|items| - 1];
            var op := if code[lastep] % 2 == 0 then code[lastep] + 1 else code[lastep];
            Compiling(p, sp + 1, code[lastep := op], lastep, items[..|items| - 1] + [Item(last.atom, true)])
  {
    var init, last := items[..|items| - 1], items[|items| - 1];
    var op := if code[lastep] % 2 == 0 then code[lastep] + 1 else code[lastep];
    var code', items' := code[lastep := op], init + [Item(last.atom, true)];
    assert code[..lastep] == code'[..lastep];
    EncodesFrame(code, code', 0, lastep, init);
    if last.atom.Set? { assert code'[lastep + 1..lastep + 17] == code[lastep + 1..lastep + 17]; }
    assert items'[..|items'| - 1] == init;
  }

  // All of the pattern that has been read is in `items`, if no star follows.
  lemma SoFar(p: Str, sp: nat, code: seq<int>, lastep: int, items: seq<Item>)
    requires Compiling(p, sp, code, lastep, items) && (sp < |p| ==> p[sp] != STAR_CH)
    ensures Encodes(code, 0, |code|, items) && Parse(p) == Prepend(items, ParseItems(p, sp))
  {
    if lastep >= 0 {
      var init, last := items[..|items| - 1], items[|items| - 1];
      EncodesAppend(code, 0, lastep, init, last);
      assert items == init + [last];
      PrependTwice(init, [last], ParseItems(p, sp));
    }
  }

  // The next atom becomes the last item.
  lemma NextAtom(p: Str, sp: nat, code: seq<int>, lastep: int, items: seq<Item>, more: seq<int>)
    requires Compiling(p, sp, code, lastep, items) && sp < |p| && p[sp] != STAR_CH && AtomAt(p, sp).AtomOk?
    requires |more| == CodeLength(AtomAt(p, sp).atom) && ItemAt(more, 0, Item(AtomAt(p, sp).atom, false))
    ensures Compiling(p, AtomAt(p, sp).next, code + more, |code|, items + [Item(AtomAt(p, sp).atom, false)])
  {
    var AtomOk(a, j) := AtomAt(p, sp);
    var it := Item(a, false);
    SoFar(p, sp, code, lastep, items);
    EncodesPrefix(code, more, 0, |code|, items);
    if a.Set? { assert (code + more)[|code| + 1..|code| + 17] == more[1..17]; }
    assert (items + [it])[..|items|] == items;
  }

  /** compile: code for the pattern, or its error. */
  datatype Compiled = Code(code: seq<int>, circf: bool) | Error | PastEnd | NotModelled

  datatype AtomCode = AtomCode(more: seq<int>, next: nat) | Fails(why: Compiled)

  // One case of compile's switch, other than '*'.
  method CompileAtom(p: Str, sp: nat) returns (r: AtomCode)
    requires Seven(p) && sp < |p| && p[sp] != STAR_CH
    ensures match AtomAt(p, sp)
            case AtomOk(a, j) => r.AtomCode? && r.next == j && |r.more| == CodeLength(a)
              && ItemAt(r.more, 0, Item(a, false))
            case AtomBad => r == Fails(Error)
            case AtomRunaway => r == Fails(PastEnd)
            case AtomOther => r == Fails(NotModelled)
  {
    hide ClassBytes;
    var c := p[sp];
    if c == DOT_CH {
      return AtomCode([CDOT], sp + 1);
    } else if c == DOLLAR && sp + 1 == |p| {
      return AtomCode([CDOL], sp + 1);
    } else if c == LBRACK {
      r := CompileClass(p, sp);
    } else if c == BSLASH {
      if sp + 1 == |p| { return Fails(Error); }
      if !PlainEscape(p[sp + 1]) { return Fails(NotModelled); }
      return AtomCode([CCHR, p[sp + 1]], sp + 2);
    } else {
      return AtomCode([CCHR, c], sp + 1);
    }
  }

  method CompileClass(p: Str, sp: nat) returns (r: AtomCode)
    requires Seven(p) && sp < |p| && p[sp] == LBRACK
    ensures match AtomAt(p, sp)
            case AtomOk(a, j) => r.AtomCode? && r.next == j && |r.more| == CodeLength(a)
              && ItemAt(r.more, 0, Item(a, false))
            case AtomBad => r == Fails(Error)
            case AtomRunaway => r == Fails(PastEnd)
            case AtomOther => r == Fails(NotModelled)
  {
    hide ClassMembers;
    var neg := sp + 1 < |p| && p[sp + 1] == CARET;
    var first := if neg then sp + 2 else sp + 1;
    var cr := CompileMembers(p, first);
    match cr
    case ClassBad => return Fails(Error);
    case ClassRunaway => return Fails(PastEnd);
    case ClassOk(bytes, next) =>
      ghost var m := ClassMembers(p, first, first).chars;
      if neg { NegateBitmap(bytes, m); }
      var bs := if neg then Negate(bytes) else bytes;
      r := AtomCode([CCL] + bs, next);
      assert r.more[1..17] == bs;
  }

  /** compile: the code of exactly the items that the pattern stands for. */
  method Compile(p: Str) returns (r: Compiled)
    requires Seven(p)
    ensures match Parse(p)
            case Items(items) => r.Code? && r.circf == Anchored(p) && |r.code| >= 1
                                 && Program(r.code, 0, |r.code| - 1, items)
            case ReError => r == Error
            case Overrun => r == PastEnd
            case Other => r == NotModelled
  {
    hide Encodes, ItemAt, Parse, Compiling;
    var sp: nat := if p != [] && p[0] == CARET then 1 else 0;
    var code, lastep := [], -1;
    ghost var items: seq<Item> := [];
    CompilingStarts(p);
    while sp < |p|
      invariant Compiling(p, sp, code, lastep, items) && -1 <= lastep && sp <= |p|
      decreases |p| - sp
    {
      if p[sp] == STAR_CH {
        if lastep < 0 {
          LeadingStar(p, sp, code, items);
          code, items := code + [CCHR, STAR_CH], items + [Item(Chr(STAR_CH), false)];
        } else {
          LastItem(p, sp, code, lastep, items);
          StarItem(p, sp, code, lastep, items);
          code := code[lastep := if code[lastep] % 2 == 0 then code[lastep] + 1 else code[lastep]];
          items := items[..|items| - 1] + [Item(items[|items| - 1].atom, true)];
        }
        sp := sp + 1;
      } else {
        var ar := CompileAtom(p, sp);
        if ar.Fails? {
          BadAtom(p, sp, code, lastep, items);
          return ar.why;
        }
        NextAtom(p, sp, code, lastep, items, ar.more);
        items := items + [Item(AtomAt(p, sp).atom, false)];
        lastep := |code|;
        code, sp := code + ar.more, ar.next;
      }
    }
    SoFar(p, sp, code, lastep, items);
    EncodesPrefix(code, [CEOF], 0, |code|, items);
    assert items + [] == items;
    r := Code(code + [CEOF], p != [] && p[0] == CARET);
  }

  lemma LastItem(p: Str, sp: nat, code: seq<int>, lastep: nat, items: seq<Item>)
    requires Compiling(p, sp, code, lastep, items)
    ensures items != [] && lastep < |code|
  {
  }

  lemma BadAtom(p: Str, sp: nat, code: seq<int>, lastep: int, items: seq<Item>)
    requires Compiling(p, sp, code, lastep, items) && sp < |p| && p[sp] != STAR_CH && !AtomAt(p, sp).AtomOk?
    ensures Parse(p) == match AtomAt(p, sp) case AtomBad => ReError case AtomRunaway => Overrun case _ => Other
  {
    SoFar(p, sp, code, lastep, items);
  }

  /** The meaning of a pattern on a line: with '^' a match at the start, else one anywhere. */
  ghost predicate LineMatches(p: Str, text: Str)
    requires Parse(p).Items?
  {
    var items := Parse(p).items;
    if Anchored(p) then Matches(items, text, 0) else Somewhere(items, text)
  }

  /** grep on one line: compile, then search.  A line is selected exactly if the pattern's
      meaning says so, and a pattern in error is reported. */
  method Grep(p: Str, text: Str) returns (r: Compiled, found: bool)
    requires Seven(p) && Seven(text)
    ensures r.Code? <==> Parse(p).Items?
    ensures r == Error <==> Parse(p) == ReError
    ensures r.Code? ==> (found <==> LineMatches(p, text))
  {
    hide Matches, Encodes, Parse;
    r := Compile(p);
    found := false;
    if r.Code? {
      found := FindMatch(text, r.code, r.circf, |r.code| - 1, Parse(p).items);
    }
  }
}
