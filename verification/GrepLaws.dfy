/** What grep's patterns select, said of the text alone. */
module GrepLaws {
  import opened GrepPattern
  import opened GrepGrammar
  import opened GrepMatch
  import opened GrepCompile

  // ----- single pieces --------------------------------------------------------------

  /** A backslash makes the next character a literal, whatever it would mean alone. */
  lemma EscapeIsLiteral(c: int)
    requires 1 <= c <= 127 && PlainEscape(c)
    ensures Parse([BSLASH, c]) == Items([Item(Chr(c), false)])
  {
    OnePiece(Escaped(c), 0);
  }

  /** A range lists the characters between its ends, and negated all the others. */
  lemma RangeIsInterval(x: int, y: int, neg: bool, stars: nat)
    requires 1 <= x <= y <= 127 && (x == CARET ==> neg) && y != RBRACK
    ensures exists m :: Parse(Opening(neg) + [x, DASH, y, RBRACK] + Stars(stars)) == Items([Item(Set(m), stars > 0)])
                        && forall c :: c in m <==> 1 <= c <= 127 && (x <= c <= y) != neg
  {
    var a := Bracket(neg, x, [To(y)]);
    var tail := [To(y)];
    assert ShowElems(tail[1..]) == [];
    assert ShowElems(tail) == [DASH, y];
    assert ShowPiece(a) == Opening(neg) + [x, DASH, y, RBRACK];
    OnePiece(a, stars);
    var m := AtomOf(a).members;
    forall c ensures Lists(x, tail, c) <==> x <= c <= y {
      assert ListsAt(x, tail, 0, c) <==> x <= c <= y;
    }
    assert forall c :: c in m <==> 1 <= c <= 127 && (x <= c <= y) != neg;
  }

  // A pattern of one piece.
  lemma OnePiece(a: Piece, stars: nat)
    requires FinePiece(a, stars == 0) && Seven(ShowPiece(a)) && a != Plain(CARET)
    ensures Parse(ShowPiece(a) + Stars(stars)) == Items([Item(AtomOf(a), stars > 0)])
    ensures ShowPiece(a) + Stars(0) == ShowPiece(a)
  {
    hide Parse, ShowPiece, AtomOf, FinePiece;
    var parts := [Part(a, stars)];
    var s := Source(false, 0, parts, Whole);
    assert parts[1..] == [];
    assert ShowParts(parts) == ShowPiece(a) + Stars(stars);
    assert ShowEnding(Whole) == [] && Stars(0) == [];
    assert Show(s) == ShowPiece(a) + Stars(stars);
    ParseShow(s);
    assert ItemsOf(parts) == [Item(AtomOf(a), stars > 0)];
    assert seq(0, _ => Item(Chr(STAR_CH), false)) + ItemsOf(parts) == ItemsOf(parts);
  }

  // ----- matching -------------------------------------------------------------------

  /** What one item spells between two places of the line. */
  predicate Spells(it: Item, text: Str, i: int, j: int) {
    && 0 <= i <= j <= |text|
    && if it.star then forall t :: i <= t < j ==> Accepts(it.atom, text[t])
       else if it.atom.Dol? then i == j == |text|
       else j == i + 1 && Accepts(it.atom, text[i])
  }

  /** The line is cut at `cuts`, and each item spells what lies between two cuts. */
  predicate IsCut(items: seq<Item>, text: Str, i: int, cuts: seq<int>) {
    && |cuts| == |items| + 1 && cuts[0] == i && 0 <= i <= |text|
    && forall k :: 0 <= k < |items| ==> Spells(items[k], text, cuts[k], cuts[k + 1])
  }

  lemma {:induction false} MatchHasCut(items: seq<Item>, text: Str, i: int) returns (cuts: seq<int>)
    requires Matches(items, text, i)
    ensures IsCut(items, text, i, cuts)
    decreases |items|
  {
    if items == [] { return [i]; }
    var it, rest := items[0], items[1..];
    var j;
    if it.star {
      j :| AllAccepted(it.atom, text, i, j) && Matches(rest, text, j);
    } else {
      j := if it.atom.Dol? then i else i + 1;
    }
    var more := MatchHasCut(rest, text, j);
    cuts := [i] + more;
    CutMore(items, text, i, j, more);
  }

  lemma CutMore(items: seq<Item>, text: Str, i: int, j: int, more: seq<int>)
    requires items != [] && Spells(items[0], text, i, j)
    ensures IsCut(items[1..], text, j, more) <==> IsCut(items, text, i, [i] + more) && |more| > 0 && more[0] == j
  {
    var cuts := [i] + more;
    if IsCut(items, text, i, cuts) {
      forall k | 0 <= k < |items| - 1 ensures Spells(items[1..][k], text, more[k], more[k + 1]) {
        assert Spells(items[k + 1], text, cuts[k + 1], cuts[k + 2]);
      }
    }
    if IsCut(items[1..], text, j, more) {
      forall k | 0 <= k < |items| ensures Spells(items[k], text, cuts[k], cuts[k + 1]) {
        if k > 0 { assert Spells(items[1..][k - 1], text, more[k - 1], more[k]); }
      }
    }
  }

  lemma {:induction false} CutMatches(items: seq<Item>, text: Str, i: int, cuts: seq<int>)
    requires IsCut(items, text, i, cuts)
    ensures Matches(items, text, i)
    decreases |items|
  {
    if items != [] {
      var j, more := cuts[1], cuts[1..];
      assert Spells(items[0], text, cuts[0], cuts[1]);
      assert cuts == [i] + more;
      CutMore(items, text, i, j, more);
      CutMatches(items[1..], text, j, more);
      if items[0].star { assert AllAccepted(items[0].atom, text, i, j); }
    }
  }

  /** Items match at a place if and only if the line can be cut from there into what they spell. */
  lemma MatchesIsCut(items: seq<Item>, text: Str, i: int)
    ensures Matches(items, text, i) <==> exists cuts :: IsCut(items, text, i, cuts)
  {
    hide Matches, IsCut;
    if Matches(items, text, i) {
      var cuts := MatchHasCut(items, text, i);
    }
    if cuts :| IsCut(items, text, i, cuts) {
      CutMatches(items, text, i, cuts);
    }
  }

  // ----- quoted text ----------------------------------------------------------------

  predicate Special(c: int) {
    c == DOT_CH || c == LBRACK || c == BSLASH || c == STAR_CH || c == CARET || c == DOLLAR
  }

  /** A text written so that every character stands for itself. */
  function Quote(w: Str): seq<Part> {
    seq(|w|, k requires 0 <= k < |w| => Part(if Special(w[k]) then Escaped(w[k]) else Plain(w[k]), 0))
  }

  function Quoted(w: Str, caret: bool, dollar: bool): Source {
    Source(caret, 0, Quote(w) + if dollar then [Part(EndOfLine, 0)] else [], Whole)
  }

  function Literals(w: Str, dollar: bool): seq<Item> {
    seq(|w|, k requires 0 <= k < |w| => Item(Chr(w[k]), false)) + if dollar then [Item(Dol, false)] else []
  }

  lemma {:induction false} QuoteSeven(parts: seq<Part>)
    requires forall k :: 0 <= k < |parts| ==> parts[k].stars == 0 && Seven(ShowPiece(parts[k].piece))
    ensures Seven(ShowParts(parts))
    decreases |parts|
  {
    if parts != [] {
      QuoteSeven(parts[1..]);
      var a, b := ShowPiece(parts[0].piece), ShowParts(parts[1..]);
      assert Stars(0) == [] && a + [] == a;
      assert ShowParts(parts) == a + b;
      forall k | 0 <= k < |a + b| ensures 1 <= (a + b)[k] <= 127 {
        assert (a + b)[k] == if k < |a| then a[k] else b[k - |a|];
      }
    }
  }

  lemma QuotedParses(w: Str, caret: bool, dollar: bool)
    requires Seven(w)
    ensures var p := Show(Quoted(w, caret, dollar));
            Seven(p) && Parse(p) == Items(Literals(w, dollar)) && Anchored(p) == caret
  {
    hide Parse, ShowParts;
    var s := Quoted(w, caret, dollar);
    forall k | 0 <= k < |s.parts| ensures s.parts[k].stars == 0 && Seven(ShowPiece(s.parts[k].piece)) {
    }
    QuoteSeven(s.parts);
    assert Stars(0) == [] && ShowEnding(Whole) == [];
    assert Show(s) == (if caret then [CARET] else []) + ShowParts(s.parts);
    assert Seven(Show(s));
    assert Fine(s);
    ParseShow(s);
    assert ItemsOf(s.parts) == Literals(w, dollar);
    assert seq(0, _ => Item(Chr(STAR_CH), false)) + ItemsOf(s.parts) == ItemsOf(s.parts);
  }

  /** w stands in the line at i, and ends it if `dollar`. */
  predicate StandsAt(w: Str, dollar: bool, text: Str, i: int) {
    0 <= i && i + |w| <= |text| && text[i..i + |w|] == w && (dollar ==> i + |w| == |text|)
  }

  lemma {:induction false} LiteralsMatch(w: Str, dollar: bool, text: Str, i: int)
    ensures Matches(Literals(w, dollar), text, i) <==> StandsAt(w, dollar, text, i)
    decreases |w|
  {
    var items := Literals(w, dollar);
    if w == [] {
      assert items == if dollar then [Item(Dol, false)] else [];
      if dollar { assert items[1..] == []; }
    } else {
      assert items[1..] == Literals(w[1..], dollar);
      LiteralsMatch(w[1..], dollar, text, i + 1);
      if 0 <= i && i + |w| <= |text| {
        assert text[i..i + |w|] == [text[i]] + text[i + 1..i + |w|];
      }
    }
  }

  /** grep for a quoted text selects exactly the lines that contain it: at the start with '^', at
      the end with '$'. */
  lemma QuotedSelects(w: Str, caret: bool, dollar: bool, text: Str)
    requires Seven(w)
    ensures var p := Show(Quoted(w, caret, dollar));
            && Parse(p).Items?
            && (LineMatches(p, text) <==>
                  exists i :: 0 <= i <= |text| && StandsAt(w, dollar, text, i) && (caret ==> i == 0))
  {
    hide Parse, Show, Quoted, Matches, StandsAt;
    QuotedParses(w, caret, dollar);
    forall i ensures Matches(Literals(w, dollar), text, i) <==> StandsAt(w, dollar, text, i) {
      LiteralsMatch(w, dollar, text, i);
    }
  }
}
