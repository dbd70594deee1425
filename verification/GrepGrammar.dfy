/** The patterns of grep (cmds/simple/grep.c) as a grammar: how each one is written and what it
    stands for.  Every string of characters is written by the grammar, and grep's reading of it is
    what the grammar says. */
module GrepGrammar {
  import opened GrepPattern

  // ----- what can be written --------------------------------------------------------

  /** A class after its first character: one more character, or a range up to `hi` that starts at
      the character written just before. */
  datatype Elem = One(c: int) | To(hi: int)

  datatype Piece =
    | Plain(c: int)
    | Escaped(c: int)
    | AnyChar
    | EndOfLine
    | Bracket(neg: bool, head: int, tail: seq<Elem>)

  datatype Part = Part(piece: Piece, stars: nat)

  /** How a pattern ends: as it should, or in something that stops the compiler. */
  datatype Ending =
    | Whole
    | LoneBackslash
    | Unclosed(neg: bool, head: seq<int>, tail: seq<Elem>, dash: bool)
    | OtherEscape(c: int, more: Str)

  datatype Source = Source(caret: bool, stars: nat, parts: seq<Part>, ending: Ending)

  // ----- how it is written ----------------------------------------------------------

  function ShowElem(e: Elem): Str {
    match e
    case One(c) => [c]
    case To(hi) => [DASH, hi]
  }

  function ShowElems(es: seq<Elem>): Str {
    if es == [] then [] else ShowElem(es[0]) + ShowElems(es[1..])
  }

  function Opening(neg: bool): Str {
    if neg then [LBRACK, CARET] else [LBRACK]
  }

  function ShowPiece(a: Piece): Str {
    match a
    case Plain(c) => [c]
    case Escaped(c) => [BSLASH, c]
    case AnyChar => [DOT_CH]
    case EndOfLine => [DOLLAR]
    case Bracket(neg, head, tail) => Opening(neg) + ([head] + (ShowElems(tail) + [RBRACK]))
  }

  function Stars(n: nat): Str {
    seq(n, _ => STAR_CH)
  }

  function ShowParts(parts: seq<Part>): Str {
    if parts == [] then [] else ShowPiece(parts[0].piece) + Stars(parts[0].stars) + ShowParts(parts[1..])
  }

  function OpenEnd(dash: bool): Str {
    if dash then [DASH] else []
  }

  function ShowEnding(e: Ending): Str {
    match e
    case Whole => []
    case LoneBackslash => [BSLASH]
    case Unclosed(neg, head, tail, dash) => Opening(neg) + (head + (ShowElems(tail) + OpenEnd(dash)))
    case OtherEscape(c, more) => [BSLASH, c] + more
  }

  function Show(s: Source): Str {
    (if s.caret then [CARET] else []) + Stars(s.stars) + (ShowParts(s.parts) + ShowEnding(s.ending))
  }

  // A ']' closes the class unless it comes first; a '-' stands for itself if it comes first or last.
  predicate FineElems(es: seq<Elem>, closed: bool) {
    forall k :: 0 <= k < |es| ==>
      match es[k]
      case One(c) => c != RBRACK && (c == DASH ==> closed && k == |es| - 1)
      case To(hi) => hi != RBRACK
  }

  // `last`: nothing follows in the pattern.
  predicate FinePiece(a: Piece, last: bool) {
    match a
    case Plain(c) => c != DOT_CH && c != LBRACK && c != BSLASH && c != STAR_CH && (c == DOLLAR ==> !last)
    case Escaped(c) => PlainEscape(c)
    case AnyChar => true
    case EndOfLine => last
    case Bracket(neg, head, tail) => (head == CARET ==> neg) && FineElems(tail, true)
  }

  predicate FineParts(parts: seq<Part>, last: bool) {
    forall k :: 0 <= k < |parts| ==> FinePiece(parts[k].piece, last && k == |parts| - 1 && parts[k].stars == 0)
  }

  predicate FineEnding(e: Ending) {
    match e
    case Whole => true
    case LoneBackslash => true
    case Unclosed(neg, head, tail, dash) =>
      |head| <= 1 && (head == [CARET] ==> neg) && (head == [] ==> tail == [] && !dash) && FineElems(tail, false)
    case OtherEscape(c, _) => !PlainEscape(c)
  }

  predicate Fine(s: Source) {
    && FineParts(s.parts, s.ending.Whole?) && FineEnding(s.ending)
    && (!s.caret && s.stars == 0 && s.parts != [] ==> s.parts[0].piece != Plain(CARET))
  }

  // ----- what it stands for ---------------------------------------------------------

  // The character written just before element k.
  function Before(head: int, tail: seq<Elem>, k: nat): int
    requires k <= |tail|
  {
    if k == 0 then head else match tail[k - 1] case One(c) => c case To(hi) => hi
  }

  /** A class lists c: as its first character, as another one, or in a range. */
  predicate Lists(head: int, tail: seq<Elem>, c: int) {
    c == head || exists k :: 0 <= k < |tail| && ListsAt(head, tail, k, c)
  }

  predicate ListsAt(head: int, tail: seq<Elem>, k: nat, c: int)
    requires k < |tail|
  {
    match tail[k]
    case One(d) => c == d
    case To(hi) => c == Before(head, tail, k) || Before(head, tail, k) <= c <= hi
  }

  function AtomOf(a: Piece): Atom {
    match a
    case Plain(c) => Chr(c)
    case Escaped(c) => Chr(c)
    case AnyChar => Dot
    case EndOfLine => Dol
    case Bracket(neg, head, tail) => Set(set c | 1 <= c <= 127 && Lists(head, tail, c) != neg)
  }

  function ItemsOf(parts: seq<Part>): seq<Item> {
    seq(|parts|, k requires 0 <= k < |parts| => Item(AtomOf(parts[k].piece), parts[k].stars > 0))
  }

  function Meaning(s: Source): Parsed {
    match s.ending
    case Whole => Items(seq(s.stars, _ => Item(Chr(STAR_CH), false)) + ItemsOf(s.parts))
    case LoneBackslash => ReError
    case Unclosed(_, _, _, dash) => if dash then Overrun else ReError
    case OtherEscape(_, _) => Other
  }

  // ----- reading what is written ----------------------------------------------------

  // p goes on with a and then b from position i.
  lemma Cut(p: Str, i: nat, a: Str, b: Str)
    requires i <= |p| && p[i..] == a + b
    ensures i + |a| <= |p| && p[i + |a|..] == b && |p| == i + |a| + |b|
    ensures forall k :: 0 <= k < |a| ==> p[i + k] == a[k]
    ensures forall k :: 0 <= k < |b| ==> p[i + |a| + k] == b[k]
  {
    assert forall k :: 0 <= k < |p| - i ==> p[i..][k] == p[i + k];
    assert p[i + |a|..] == p[i..][|a|..];
    assert forall k :: 0 <= k < |a| ==> p[i + k] == p[i..][k] == a[k];
    assert forall k :: 0 <= k < |b| ==> p[i + |a| + k] == p[i..][|a| + k] == b[k];
  }

  lemma Skip(p: Str, i: nat, a: Str, b: Str)
    requires i <= |p| && p[i..] == a + b
    ensures i + |a| <= |p| && p[i + |a|..] == b
  {
    Cut(p, i, a, b);
  }

  // The members that the elements list after `prev`.
  function Listed(prev: int, es: seq<Elem>): set<int>
    decreases |es|
  {
    if es == [] then {}
    else
      match es[0]
      case One(c) => {c} + Listed(c, es[1..])
      case To(hi) => Range(prev, hi) + Listed(hi, es[1..])
  }

  lemma {:induction false} ListedMeans(prev: int, es: seq<Elem>, c: int)
    ensures c in Listed(prev, es) <==> exists k :: 0 <= k < |es| && ListsAt(prev, es, k, c)
    decreases |es|
  {
    if es != [] {
      var next, rest := Before(prev, es, 1), es[1..];
      ListedMeans(next, rest, c);
      assert c in Listed(prev, es) <==> ListsAt(prev, es, 0, c) || c in Listed(next, rest);
      forall k | 0 <= k < |rest| ensures ListsAt(next, rest, k, c) <==> ListsAt(prev, es, k + 1, c) {
      }
      if k :| 0 <= k < |es| && ListsAt(prev, es, k, c) {
        if k > 0 { assert ListsAt(next, rest, k - 1, c); }
      }
    }
  }

  lemma FineTail(es: seq<Elem>, closed: bool)
    requires es != [] && FineElems(es, closed)
    ensures FineElems(es[1..], closed)
  {
  }

  // One element is read as what it lists.
  lemma ElemRead(p: Str, i: nat, first: nat, e: Elem, z: Str)
    requires first < i <= |p| && p[i..] == ShowElem(e) + z
    requires match e case One(c) => c != DASH || (z != [] && z[0] == RBRACK) case To(hi) => hi != RBRACK
    ensures var n := i + |ShowElem(e)|;
            && n <= |p| && p[n..] == z && p[n - 1] == Before(0, [e], 1)
            && var here := Listed(p[i - 1], [e]);
               ClassMembers(p, i, first) ==
                 if z != [] && z[0] == RBRACK then Members(here, n + 1)
                 else match ClassMembers(p, n, first)
                      case Members(s, next) => Members(here + s, next)
                      case other => other
  {
    Cut(p, i, ShowElem(e), z);
    assert p[i] == ShowElem(e)[0];
    if e.To? { assert p[i + 1] == ShowElem(e)[1]; }
    assert Listed(p[i - 1], [e]) == if e.One? then {e.c} else Range(p[i - 1], e.hi);
  }

  // The first element, and what follows it.
  lemma ElemsFirst(prev: int, es: seq<Elem>, w: Str)
    requires es != []
    ensures ShowElems(es) + w == ShowElem(es[0]) + (ShowElems(es[1..]) + w)
    ensures |ShowElems(es)| == |ShowElem(es[0])| + |ShowElems(es[1..])|
    ensures Listed(prev, es) == Listed(prev, [es[0]]) + Listed(Before(0, [es[0]], 1), es[1..])
  {
    hide ShowElem;
  }

  // Elements and a closing bracket are read as what the elements list.
  lemma {:induction false} ElemsClosed(p: Str, i: nat, first: nat, es: seq<Elem>, z: Str)
    requires first < i <= |p| && es != [] && FineElems(es, true) && p[i..] == ShowElems(es) + ([RBRACK] + z)
    ensures ClassMembers(p, i, first) == Members(Listed(p[i - 1], es), i + |ShowElems(es)| + 1)
    decreases |es|
  {
    hide ClassMembers, ShowElems, ShowElem, Listed;
    var e, rest := es[0], es[1..];
    var w := ShowElems(rest) + ([RBRACK] + z);
    ElemsFirst(p[i - 1], es, [RBRACK] + z);
    FineTail(es, true);
    ClosesAt(rest, z);
    ElemRead(p, i, first, e, w);
    if rest == [] {
      NothingListed(Before(0, [e], 1));
    } else {
      ElemsClosed(p, i + |ShowElem(e)|, first, rest, z);
    }
  }

  lemma NothingListed(prev: int)
    ensures ShowElems([]) == [] && Listed(prev, []) == {}
  {
  }

  lemma ClosesAt(es: seq<Elem>, z: Str)
    requires FineElems(es, true)
    ensures var w := ShowElems(es) + ([RBRACK] + z); w != [] && (w[0] == RBRACK <==> es == [])
  {
    FirstShown(es);
    if es != [] { assert (ShowElems(es) + ([RBRACK] + z))[0] == ShowElems(es)[0]; }
  }

  lemma FirstShown(es: seq<Elem>)
    ensures es != [] ==> ShowElems(es) != [] && ShowElems(es)[0] == match es[0] case One(c) => c case To(_) => DASH
    ensures es == [] ==> ShowElems(es) == []
  {
  }

  // Elements without a closing bracket are an error, and after them a '-' is read past the end.
  lemma {:induction false} ElemsOpen(p: Str, i: nat, first: nat, es: seq<Elem>, dash: bool)
    requires first < i <= |p| && FineElems(es, false) && p[i..] == ShowElems(es) + OpenEnd(dash)
    ensures ClassMembers(p, i, first) == if dash then Runaway else BadClass
    decreases |es|
  {
    hide ClassMembers, ShowElem, ShowElems, Listed, OpenEnd;
    if es == [] {
      NothingListed(0);
      assert p[i..] == OpenEnd(dash);
      NoElemsRead(p, i, first, dash);
    } else {
      var e, rest := es[0], es[1..];
      var w := ShowElems(rest) + OpenEnd(dash);
      ElemsFirst(0, es, OpenEnd(dash));
      NotClosed(rest, dash);
      FineTail(es, false);
      ElemRead(p, i, first, e, w);
      ElemsOpen(p, i + |ShowElem(e)|, first, rest, dash);
    }
  }

  lemma NoElemsRead(p: Str, i: nat, first: nat, dash: bool)
    requires first < i <= |p| && p[i..] == OpenEnd(dash)
    ensures ClassMembers(p, i, first) == if dash then Runaway else BadClass
  {
    Cut(p, i, [], OpenEnd(dash));
  }

  lemma NotClosed(es: seq<Elem>, dash: bool)
    requires FineElems(es, false)
    ensures var w := ShowElems(es) + OpenEnd(dash); w == [] || w[0] != RBRACK
  {
    FirstShown(es);
  }

  // Where a class begins: after "[^" if that is what is written, else after "[".
  lemma Opens(p: Str, i: nat, neg: bool, z: Str)
    requires i <= |p| && p[i..] == Opening(neg) + z && (z != [] && z[0] == CARET ==> neg)
    ensures var first := i + |Opening(neg)|;
            && i < first <= |p| && p[i] == LBRACK && p[first..] == z
            && Class(p, i) == match ClassMembers(p, first, first)
                              case Members(s, next) => AtomOk(Set(if neg then Range(1, 127) - s else s), next)
                              case BadClass => AtomBad
                              case Runaway => AtomRunaway
  {
    hide ClassMembers;
    Cut(p, i, Opening(neg), z);
    assert p[i] == Opening(neg)[0];
    if neg { assert p[i + 1] == Opening(neg)[1]; } else if z != [] { assert p[i + 1] == z[0]; }
  }

  // The first character of a class stands for itself.
  lemma HeadRead(p: Str, first: nat, head: int, z: Str)
    requires first <= |p| && p[first..] == [head] + z
    ensures first < |p| && p[first] == head && p[first + 1..] == z
    ensures ClassMembers(p, first, first) ==
              if z != [] && z[0] == RBRACK then Members({head}, first + 2)
              else match ClassMembers(p, first + 1, first)
                   case Members(s, next) => Members({head} + s, next)
                   case other => other
  {
    Cut(p, first, [head], z);
  }

  lemma BodyRead(p: Str, first: nat, head: int, tail: seq<Elem>, z: Str)
    requires first <= |p| && FineElems(tail, true) && p[first..] == [head] + (ShowElems(tail) + ([RBRACK] + z))
    ensures ClassMembers(p, first, first) == Members({head} + Listed(head, tail), first + |ShowElems(tail)| + 2)
  {
    hide ClassMembers;
    var w := ShowElems(tail) + ([RBRACK] + z);
    HeadRead(p, first, head, w);
    FirstShown(tail);
    if tail == [] {
      assert w[0] == RBRACK;
      assert {head} + Listed(head, tail) == {head};
    } else {
      assert w[0] == ShowElems(tail)[0];
      ElemsClosed(p, first + 1, first, tail, z);
    }
  }

  lemma BracketText(neg: bool, head: int, tail: seq<Elem>, z: Str)
    ensures ShowPiece(Bracket(neg, head, tail)) + z == Opening(neg) + ([head] + (ShowElems(tail) + ([RBRACK] + z)))
    ensures |ShowPiece(Bracket(neg, head, tail))| == |Opening(neg)| + |ShowElems(tail)| + 2
  {
    hide ShowElems, Opening;
  }

  lemma BracketRead(p: Str, i: nat, neg: bool, head: int, tail: seq<Elem>, z: Str)
    requires i <= |p| && FinePiece(Bracket(neg, head, tail), false)
    requires p[i..] == ShowPiece(Bracket(neg, head, tail)) + z
    ensures i < |p| && p[i] == LBRACK
    ensures var s := {head} + Listed(head, tail);
            Class(p, i) == AtomOk(Set(if neg then Range(1, 127) - s else s), i + |ShowPiece(Bracket(neg, head, tail))|)
  {
    hide ClassMembers, Class, ShowElems, FineElems, Listed;
    var y := [head] + (ShowElems(tail) + ([RBRACK] + z));
    BracketText(neg, head, tail, z);
    Opens(p, i, neg, y);
    BodyRead(p, i + |Opening(neg)|, head, tail, z);
  }

  // Within 7 bits, the members are the characters that the class lists.
  lemma {:induction false} ElemsSeven(es: seq<Elem>, prev: int)
    requires Seven(ShowElems(es)) && 1 <= prev <= 127
    ensures forall c :: c in Listed(prev, es) ==> 1 <= c <= 127
    decreases |es|
  {
    if es != [] {
      var a, b := ShowElem(es[0]), ShowElems(es[1..]);
      assert forall k :: 0 <= k < |b| ==> b[k] == (a + b)[|a| + k];
      assert (a + b)[|a| - 1] == Before(prev, es, 1);
      ElemsSeven(es[1..], Before(prev, es, 1));
    }
  }

  lemma MembersAre(head: int, tail: seq<Elem>, c: int)
    requires Seven([head] + ShowElems(tail))
    ensures c in {head} + Listed(head, tail) <==> Lists(head, tail, c)
    ensures Lists(head, tail, c) ==> 1 <= c <= 127
  {
    hide ListsAt, Listed, ShowElems;
    var y := [head] + ShowElems(tail);
    assert y[0] == head && forall k :: 0 <= k < |ShowElems(tail)| ==> ShowElems(tail)[k] == y[k + 1];
    ElemsSeven(tail, head);
    ListedMeans(head, tail, c);
  }

  lemma SetRead(neg: bool, head: int, tail: seq<Elem>)
    requires Seven([head] + ShowElems(tail))
    ensures var s := {head} + Listed(head, tail);
            Set(if neg then Range(1, 127) - s else s) == AtomOf(Bracket(neg, head, tail))
  {
    hide Lists, Listed, ShowElems, Seven;
    var s := {head} + Listed(head, tail);
    forall c ensures (c in s <==> Lists(head, tail, c)) && (Lists(head, tail, c) ==> 1 <= c <= 127) {
      MembersAre(head, tail, c);
    }
    var m := set c | 1 <= c <= 127 && Lists(head, tail, c) != neg;
    assert m == if neg then Range(1, 127) - s else s;
  }

  lemma SevenPart(p: Str, i: nat, a: Str, b: Str)
    requires Seven(p) && i <= |p| && p[i..] == a + b
    ensures Seven(a)
  {
    Cut(p, i, a, b);
    assert forall k :: 0 <= k < |a| ==> a[k] == p[i + k];
  }

  /** A piece is read as what it stands for. */
  lemma PieceRead(p: Str, i: nat, a: Piece, z: Str)
    requires Seven(p) && i <= |p| && p[i..] == ShowPiece(a) + z && FinePiece(a, z == [])
    ensures i < |p| && AtomAt(p, i) == AtomOk(AtomOf(a), i + |ShowPiece(a)|)
  {
    hide Class;
    Cut(p, i, ShowPiece(a), z);
    assert p[i] == ShowPiece(a)[0];
    if a.Bracket? {
      BracketRead(p, i, a.neg, a.head, a.tail, z);
      var y := ShowElems(a.tail) + [RBRACK];
      assert p[i..] == (Opening(a.neg) + ([a.head] + ShowElems(a.tail))) + ([RBRACK] + z);
      SevenPart(p, i, Opening(a.neg) + ([a.head] + ShowElems(a.tail)), [RBRACK] + z);
      var w := [a.head] + ShowElems(a.tail);
      assert forall k :: 0 <= k < |w| ==> w[k] == (Opening(a.neg) + w)[|Opening(a.neg)| + k];
      SetRead(a.neg, a.head, a.tail);
    } else if a.Escaped? {
      assert p[i + 1] == ShowPiece(a)[1];
    }
  }

  lemma {:induction false} StarsRead(p: Str, i: nat, n: nat, z: Str)
    requires i <= |p| && p[i..] == Stars(n) + z && (z != [] ==> z[0] != STAR_CH)
    ensures StarsEnd(p, i) == i + n && i + n <= |p| && p[i + n..] == z
    decreases n
  {
    Cut(p, i, Stars(n), z);
    if n > 0 {
      assert p[i] == Stars(n)[0] == STAR_CH;
      assert Stars(n) == [STAR_CH] + Stars(n - 1);
      Cut(p, i, [STAR_CH], Stars(n - 1) + z);
      StarsRead(p, i + 1, n - 1, z);
    } else if z != [] {
      assert p[i] == z[0];
    }
  }

  // What follows a piece and its stars never starts with a star.
  lemma NoStarNext(parts: seq<Part>, e: Ending)
    requires FineParts(parts, e.Whole?)
    ensures var z := ShowParts(parts) + ShowEnding(e); z != [] ==> z[0] != STAR_CH
    ensures ShowParts(parts) + ShowEnding(e) == [] <==> parts == [] && e.Whole?
  {
    if parts != [] {
      var a := ShowPiece(parts[0].piece);
      assert a != [] && a[0] != STAR_CH;
      assert (ShowParts(parts) + ShowEnding(e))[0] == a[0];
    }
  }

  function EndRead(e: Ending): Parsed {
    match e
    case Whole => Items([])
    case LoneBackslash => ReError
    case Unclosed(_, _, _, dash) => if dash then Overrun else ReError
    case OtherEscape(_, _) => Other
  }

  lemma EndingRead(p: Str, i: nat, e: Ending)
    requires i <= |p| && p[i..] == ShowEnding(e) && FineEnding(e)
    ensures ParseItems(p, i) == EndRead(e)
  {
    hide Class, ClassMembers;
    Cut(p, i, ShowEnding(e), []);
    if !e.Whole? { assert p[i] == ShowEnding(e)[0]; }
    match e
    case Unclosed(neg, head, tail, dash) =>
      UnclosedRead(p, i, neg, head, tail, dash);
    case OtherEscape(c, more) =>
      assert p[i + 1] == ShowEnding(e)[1];
    case _ =>
  }

  lemma UnclosedRead(p: Str, i: nat, neg: bool, head: seq<int>, tail: seq<Elem>, dash: bool)
    requires i <= |p| && FineEnding(Unclosed(neg, head, tail, dash))
    requires p[i..] == ShowEnding(Unclosed(neg, head, tail, dash))
    ensures i < |p| && p[i] == LBRACK && Class(p, i) == if dash then AtomRunaway else AtomBad
  {
    hide Class, ShowElems, FineElems, ClassMembers, Opening;
    if head == [] {
      NothingListed(0);
      assert p[i..] == Opening(neg) + [];
      UnclosedBare(p, i, neg);
    } else {
      assert head == [head[0]];
      UnclosedHead(p, i, neg, head[0], tail, dash);
    }
  }

  lemma UnclosedBare(p: Str, i: nat, neg: bool)
    requires i <= |p| && p[i..] == Opening(neg) + []
    ensures i < |p| && p[i] == LBRACK && Class(p, i) == AtomBad
  {
    hide Class, ClassMembers;
    Opens(p, i, neg, []);
    NothingRead(p, i + |Opening(neg)|);
  }

  lemma UnclosedHead(p: Str, i: nat, neg: bool, head: int, tail: seq<Elem>, dash: bool)
    requires i <= |p| && (head == CARET ==> neg) && FineElems(tail, false)
    requires p[i..] == Opening(neg) + ([head] + (ShowElems(tail) + OpenEnd(dash)))
    ensures i < |p| && p[i] == LBRACK && Class(p, i) == if dash then AtomRunaway else AtomBad
  {
    hide Class, ShowElems, FineElems, ClassMembers, Opening, OpenEnd;
    Opens(p, i, neg, [head] + (ShowElems(tail) + OpenEnd(dash)));
    OpenBodyRead(p, i + |Opening(neg)|, head, tail, dash);
  }

  lemma NothingRead(p: Str, first: nat)
    requires first <= |p| && p[first..] == []
    ensures ClassMembers(p, first, first) == BadClass
  {
    assert |p[first..]| == |p| - first;
  }

  lemma OpenBodyRead(p: Str, first: nat, head: int, tail: seq<Elem>, dash: bool)
    requires first <= |p| && FineElems(tail, false) && p[first..] == [head] + (ShowElems(tail) + OpenEnd(dash))
    ensures ClassMembers(p, first, first) == if dash then Runaway else BadClass
  {
    hide ClassMembers, ShowElems, OpenEnd;
    HeadRead(p, first, head, ShowElems(tail) + OpenEnd(dash));
    NotClosed(tail, dash);
    ElemsOpen(p, first + 1, first, tail, dash);
  }

  lemma FineRest(parts: seq<Part>, last: bool)
    requires parts != [] && FineParts(parts, last)
    ensures FineParts(parts[1..], last) && (parts[0].piece.EndOfLine? ==> last && |parts| == 1 && parts[0].stars == 0)
    ensures FinePiece(parts[0].piece, last && |parts| == 1 && parts[0].stars == 0)
  {
    assert FinePiece(parts[0].piece, last && 0 == |parts| - 1 && parts[0].stars == 0);
  }

  // A piece and its stars are read as one item.
  lemma PartRead(p: Str, i: nat, a: Piece, n: nat, z: Str)
    requires Seven(p) && i <= |p| && p[i..] == ShowPiece(a) + (Stars(n) + z) && FinePiece(a, n == 0 && z == [])
    requires z != [] ==> z[0] != STAR_CH
    ensures var j := i + |ShowPiece(a)| + n;
            && j <= |p| && p[j..] == z && ParseItems(p, i) == Prepend([Item(AtomOf(a), n > 0)], ParseItems(p, j))
  {
    hide AtomAt, FinePiece, ShowPiece, Seven, ParseItems, StarsEnd, AtomOf, Stars;
    assert |Stars(n)| == n by { StarsLength(n); }
    FineWider(a, n == 0 && z == [], Stars(n) + z == []);
    PieceRead(p, i, a, Stars(n) + z);
    AfterPiece(p, i, ShowPiece(a), n, z);
    AtomThenStars(p, i, AtomOf(a), i + |ShowPiece(a)|, n);
  }

  lemma AfterPiece(p: Str, i: nat, a: Str, n: nat, z: Str)
    requires i <= |p| && p[i..] == a + (Stars(n) + z) && (z != [] ==> z[0] != STAR_CH)
    ensures var j := i + |a|; j + n <= |p| && StarsEnd(p, j) == j + n && p[j + n..] == z
  {
    hide Stars, StarsEnd;
    Skip(p, i, a, Stars(n) + z);
    var j := i + |a|;
    assert p[j..] == Stars(n) + z;
    StarsRead(p, j, n, z);
  }

  lemma StarsLength(n: nat)
    ensures |Stars(n)| == n
  {
  }

  lemma AtomThenStars(p: Str, i: nat, atom: Atom, j: nat, n: nat)
    requires i < |p| && AtomAt(p, i) == AtomOk(atom, j) && j <= |p| && StarsEnd(p, j) == j + n <= |p|
    ensures ParseItems(p, i) == Prepend([Item(atom, n > 0)], ParseItems(p, j + n))
  {
    hide AtomAt, StarsEnd;
  }

  /** Parts and an ending are read as what they stand for. */
  lemma {:induction false} PartsRead(p: Str, i: nat, parts: seq<Part>, e: Ending)
    requires Seven(p) && i <= |p| && FineParts(parts, e.Whole?) && FineEnding(e)
    requires p[i..] == ShowParts(parts) + ShowEnding(e)
    ensures ParseItems(p, i) == Prepend(ItemsOf(parts), EndRead(e))
    decreases |parts|
  {
    hide ParseItems, FineParts, FineEnding, FinePiece, Seven, ShowPiece, ShowEnding, AtomOf;
    if parts == [] {
      assert ShowParts(parts) + ShowEnding(e) == ShowEnding(e);
      EndingRead(p, i, e);
      assert ItemsOf(parts) == [];
    } else {
      var a, n, rest := parts[0].piece, parts[0].stars, parts[1..];
      var z := ShowParts(rest) + ShowEnding(e);
      assert p[i..] == ShowPiece(a) + (Stars(n) + z);
      FineRest(parts, e.Whole?);
      NoStarNext(rest, e);
      FineWider(a, e.Whole? && |parts| == 1 && n == 0, n == 0 && z == []);
      PartRead(p, i, a, n, z);
      PartsRead(p, i + |ShowPiece(a)| + n, rest, e);
      ItemsFirst(parts);
      PrependAgain([Item(AtomOf(a), n > 0)], ItemsOf(rest), EndRead(e));
    }
  }

  lemma ItemsFirst(parts: seq<Part>)
    requires parts != []
    ensures ItemsOf(parts) == [Item(AtomOf(parts[0].piece), parts[0].stars > 0)] + ItemsOf(parts[1..])
  {
  }

  lemma PrependAgain(a: seq<Item>, b: seq<Item>, r: Parsed)
    ensures Prepend(a, Prepend(b, r)) == Prepend(a + b, r)
  {
    if r.Items? { assert a + (b + r.items) == a + b + r.items; }
  }

  lemma FineWider(a: Piece, last: bool, last': bool)
    requires FinePiece(a, last) && (last <==> last')
    ensures FinePiece(a, last')
  {
  }

  /** What the grammar writes is read as what it stands for, errors included. */
  lemma ParseShow(s: Source)
    requires Fine(s) && Seven(Show(s))
    ensures Parse(Show(s)) == Meaning(s) && Anchored(Show(s)) == s.caret
  {
    hide ParseItems, FineParts, FineEnding, ShowParts, ShowEnding, Seven, ItemsOf;
    var p, z := Show(s), ShowParts(s.parts) + ShowEnding(s.ending);
    var i := if s.caret then 1 else 0;
    NoStarNext(s.parts, s.ending);
    Starts(s);
    assert p[i..] == Stars(s.stars) + z;
    StarsRead(p, i, s.stars, z);
    PartsRead(p, i + s.stars, s.parts, s.ending);
    assert StarLiterals(s.stars) == seq(s.stars, _ => Item(Chr(STAR_CH), false));
    PrependAgain(StarLiterals(s.stars), ItemsOf(s.parts), EndRead(s.ending));
    var items := StarLiterals(s.stars) + ItemsOf(s.parts);
    assert items + [] == items;
  }

  lemma Starts(s: Source)
    requires Fine(s)
    ensures Anchored(Show(s)) == s.caret
  {
    var z := ShowParts(s.parts) + ShowEnding(s.ending);
    if !s.caret {
      if s.stars > 0 {
        assert Show(s)[0] == Stars(s.stars)[0];
      } else {
        assert Show(s) == z;
        if s.parts != [] {
          assert z[0] == ShowPiece(s.parts[0].piece)[0];
          assert FinePiece(s.parts[0].piece, s.ending.Whole? && 0 == |s.parts| - 1 && s.parts[0].stars == 0);
        } else if !s.ending.Whole? {
          assert z[0] == ShowEnding(s.ending)[0];
        }
      }
    }
  }

  // ----- every pattern is written by the grammar ------------------------------------

  function CloseOf(closed: bool, dash: bool, z: Str): Str {
    if closed then [RBRACK] + z else OpenEnd(dash)
  }

  lemma OneMore(e: Elem, es: seq<Elem>, closed: bool, w: Str)
    requires FineElems(es, closed)
    requires match e case One(c) => c != RBRACK && (c == DASH ==> closed && es == []) case To(hi) => hi != RBRACK
    ensures FineElems([e] + es, closed) && ShowElems([e] + es) + w == ShowElem(e) + (ShowElems(es) + w)
  {
    assert ([e] + es)[1..] == es;
    ElemsFirst(0, [e] + es, w);
  }

  // The first element of a string that does not start with ']'.
  lemma ElemWrites(w: Str) returns (e: Elem, rest: Str)
    requires w != [] && w[0] != RBRACK && w != [DASH]
    ensures w == ShowElem(e) + rest && (if e.One? then e.c != RBRACK else e.hi != RBRACK)
    ensures e == One(DASH) ==> rest != [] && rest[0] == RBRACK
    ensures |rest| < |w|
  {
    e := if w[0] == DASH && w[1] != RBRACK then To(w[1]) else One(w[0]);
    rest := w[|ShowElem(e)|..];
  }

  lemma OpenClose(w: Str)
    requires w == [] || w == [DASH]
    ensures w == CloseOf(false, w != [], [])
  {
  }

  lemma ShutClose(w: Str)
    requires w != [] && w[0] == RBRACK
    ensures w == CloseOf(true, false, w[1..])
  {
  }

  lemma ElemsWrite(w: Str) returns (es: seq<Elem>, closed: bool, dash: bool, z: Str)
    requires w != [] ==> w[0] != RBRACK
    ensures FineElems(es, closed) && w == ShowElems(es) + CloseOf(closed, dash, z)
    decreases |w|
  {
    hide FineElems, ShowElem, ShowElems, CloseOf;
    assert FineElems([], true) && FineElems([], false) && ShowElems([]) == [] by { NoElems(); }
    if w == [] || w == [DASH] {
      assert w == CloseOf(false, w != [], []) by { OpenClose(w); }
      return [], false, w != [], [];
    }
    var e, rest := ElemWrites(w);
    if rest != [] && rest[0] == RBRACK {
      es, closed, dash, z := [], true, false, rest[1..];
      assert rest == CloseOf(closed, dash, z) by { ShutClose(rest); }
    } else {
      es, closed, dash, z := ElemsWrite(rest);
    }
    OneMore(e, es, closed, CloseOf(closed, dash, z));
    es := [e] + es;
  }

  // The string starts with a piece, or it is an ending.
  lemma PieceWrites(w: Str) returns (ok: bool, a: Piece, e: Ending, z: Str)
    requires w != [] && w[0] != STAR_CH
    ensures ok ==> w == ShowPiece(a) + z && FinePiece(a, z == [])
    ensures !ok ==> w == ShowEnding(e) && FineEnding(e) && !e.Whole?
  {
    if w[0] == LBRACK {
      ok, a, e, z := BracketWrites(w);
    } else if w == [BSLASH] {
      ok, a, e, z := false, AnyChar, LoneBackslash, [];
    } else if w[0] == BSLASH {
      ok, a, e, z := PlainEscape(w[1]), Escaped(w[1]), OtherEscape(w[1], w[2..]), w[2..];
      assert w == [BSLASH, w[1]] + z;
    } else {
      z := w[1..];
      a := if w[0] == DOT_CH then AnyChar else if w == [DOLLAR] then EndOfLine else Plain(w[0]);
      ok, e := true, Whole;
      assert w == [w[0]] + z;
    }
  }

  lemma BracketWrites(w: Str) returns (ok: bool, a: Piece, e: Ending, z: Str)
    requires w != [] && w[0] == LBRACK
    ensures ok ==> w == ShowPiece(a) + z && FinePiece(a, z == [])
    ensures !ok ==> w == ShowEnding(e) && FineEnding(e) && !e.Whole?
  {
    hide FineElems, ShowElems;
    var neg := |w| > 1 && w[1] == CARET;
    var y := w[|Opening(neg)|..];
    assert w == Opening(neg) + y;
    assert FineElems([], false) && ShowElems([]) == [] by { NoElems(); }
    a, e, z := AnyChar, Unclosed(neg, [], [], false), [];
    if y == [] {
      ok := false;
      assert ShowEnding(e) == Opening(neg);
      return;
    }
    var head, t := y[0], y[1..];
    assert y == [head] + t;
    var tail, dash;
    tail, ok, dash, z := TailWrites(t);
    if ok {
      a := Bracket(neg, head, tail);
      BracketText(neg, head, tail, z);
    } else {
      e := Unclosed(neg, [head], tail, dash);
    }
  }

  lemma TailWrites(t: Str) returns (tail: seq<Elem>, closed: bool, dash: bool, z: Str)
    ensures FineElems(tail, closed) && t == ShowElems(tail) + CloseOf(closed, dash, z)
  {
    if t != [] && t[0] == RBRACK {
      tail, closed, dash, z := [], true, false, t[1..];
    } else {
      tail, closed, dash, z := ElemsWrite(t);
    }
  }

  lemma NoElems()
    ensures FineElems([], true) && FineElems([], false) && ShowElems([]) == []
  {
  }

  lemma StarsWrite(w: Str) returns (n: nat, z: Str)
    ensures w == Stars(n) + z && (z != [] ==> z[0] != STAR_CH)
  {
    if w == [] || w[0] != STAR_CH { return 0, w; }
    n, z := StarsWrite(w[1..]);
    n := n + 1;
    assert Stars(n) == [STAR_CH] + Stars(n - 1);
  }

  lemma PartsWrite(w: Str) returns (parts: seq<Part>, e: Ending)
    requires w != [] ==> w[0] != STAR_CH
    ensures FineParts(parts, e.Whole?) && FineEnding(e) && w == ShowParts(parts) + ShowEnding(e)
    decreases |w|
  {
    hide FineEnding, ShowEnding, FinePiece, ShowPiece, Stars;
    if w == [] {
      assert ShowEnding(Whole) == [] && FineEnding(Whole) by { WholeEnds(); }
      return [], Whole;
    }
    var ok, a, end, y := PieceWrites(w);
    if !ok { return [], end; }
    var n, z := StarsWrite(y);
    ShowsSome(a);
    var more;
    more, e := PartsWrite(z);
    parts := [Part(a, n)] + more;
    assert parts[1..] == more;
    assert w == ShowPiece(a) + Stars(n) + z;
    NoStarNext(more, e);
    StarsLength(n);
    FineWider(a, y == [], e.Whole? && more == [] && n == 0);
    FineMore(Part(a, n), more, e.Whole?);
  }

  lemma FineMore(part: Part, more: seq<Part>, last: bool)
    requires FineParts(more, last) && FinePiece(part.piece, last && more == [] && part.stars == 0)
    ensures FineParts([part] + more, last)
  {
    var parts := [part] + more;
    assert forall k :: 1 <= k < |parts| ==> parts[k] == more[k - 1];
  }

  lemma WholeEnds()
    ensures ShowEnding(Whole) == [] && FineEnding(Whole)
  {
  }

  lemma ShowsSome(a: Piece)
    ensures ShowPiece(a) != []
  {
  }

  /** Every string is written by the grammar, so that ParseShow says how each is read. */
  lemma EveryPattern(p: Str) returns (s: Source)
    ensures Fine(s) && Show(s) == p
  {
    hide FineParts, FineEnding, ShowParts, ShowEnding, Stars;
    var caret := p != [] && p[0] == CARET;
    var w := if caret then p[1..] else p;
    var n, z := StarsWrite(w);
    var parts, e := PartsWrite(z);
    s := Source(caret, n, parts, e);
    if caret { assert p == [CARET] + w; } else { assert p == [] + w; }
    StarsLength(n);
    if !caret && n == 0 && parts != [] { FirstChar(parts, e, p); }
  }

  lemma FirstChar(parts: seq<Part>, e: Ending, p: Str)
    requires parts != [] && p == ShowParts(parts) + ShowEnding(e)
    ensures p != [] && (parts[0].piece.Plain? ==> p[0] == parts[0].piece.c)
  {
    ShowsSome(parts[0].piece);
    assert p[0] == ShowPiece(parts[0].piece)[0];
  }

  /** A pattern has a meaning if and only if the grammar writes it whole, and then it is that of the
      grammar. */
  lemma ParseIsGrammar(p: Str, items: seq<Item>)
    requires Seven(p)
    ensures Parse(p) == Items(items) <==>
              exists s :: Fine(s) && Show(s) == p && s.ending.Whole? && Meaning(s) == Items(items)
  {
    hide Show, Fine, Parse;
    var s := EveryPattern(p);
    ParseShow(s);
    if t :| Fine(t) && Show(t) == p && t.ending.Whole? && Meaning(t) == Items(items) {
      ParseShow(t);
    }
  }
}
