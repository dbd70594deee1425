/** Patterns of grep (cmds/simple/grep.c): literals, '.', classes, stars, '^' and a final '$',
    over 7-bit text.  A pattern is a string of characters 1..127; its meaning is a list of
    items, and that list stands for a set of substrings. */
module GrepPattern {

  type Str = seq<int>

  predicate Seven(s: Str) {
    forall i :: 0 <= i < |s| ==> 1 <= s[i] <= 127
  }

  /** What matches a single character, or (Dol) the end of the line. */
  datatype Atom = Chr(c: int) | Dot | Set(members: set<int>) | Dol

  datatype Item = Item(atom: Atom, star: bool)

  // ----- meaning --------------------------------------------------------------------

  predicate Accepts(a: Atom, c: int) {
    match a
    case Chr(d) => c == d
    case Dot => true
    case Set(m) => c in m
    case Dol => false
  }

  predicate AllAccepted(a: Atom, text: Str, i: int, k: int) {
    0 <= i <= k <= |text| && forall t :: i <= t < k ==> Accepts(a, text[t])
  }

  /** Some substring of text that starts at i matches the items: a star stands for any number
      of characters that its atom accepts. */
  ghost predicate Matches(items: seq<Item>, text: Str, i: int)
    decreases |items|
  {
    && 0 <= i <= |text|
    && (items == [] ||
        var it, rest := items[0], items[1..];
        if it.star then exists k :: AllAccepted(it.atom, text, i, k) && Matches(rest, text, k)
        else if it.atom.Dol? then i == |text| && Matches(rest, text, i)
        else i < |text| && Accepts(it.atom, text[i]) && Matches(rest, text, i + 1))
  }

  // ----- syntax ---------------------------------------------------------------------

  const STAR_CH: int := 42
  const DOLLAR: int := 36
  const DOT_CH: int := 46
  const CARET: int := 94
  const LBRACK: int := 91
  const RBRACK: int := 93
  const BSLASH: int := 92
  const DASH: int := 45

  // The first position from i on that is not a star.
  function StarsEnd(p: Str, i: nat): (r: nat)
    requires i <= |p|
    ensures i <= r <= |p| && (r < |p| ==> p[r] != STAR_CH)
    decreases |p| - i
  {
    if i < |p| && p[i] == STAR_CH then StarsEnd(p, i + 1) else i
  }

  datatype Members = Members(chars: set<int>, next: nat) | BadClass | Runaway

  // The characters from lo to hi, or lo alone if the range is empty.
  function Range(lo: int, hi: int): (r: set<int>)
    ensures forall c :: c in r <==> c == lo || lo <= c <= hi
    decreases hi - lo
  {
    if lo < hi then Range(lo, hi - 1) + {hi} else {lo}
  }

  /** The members of a class from position i on: characters, and ranges after the first
      character, up to the closing bracket (which may itself come first).  A class without
      a closing bracket is an error; one that breaks off after a '-' is read past its end. */
  function ClassMembers(p: Str, i: nat, first: nat): (r: Members)
    requires first <= i
    ensures r.Members? ==> i < r.next <= |p|
    decreases |p| - i
  {
    if i >= |p| then BadClass
    else
      var ranged := p[i] == DASH && i > first && (i + 1 >= |p| || p[i + 1] != RBRACK);
      if ranged && i + 1 >= |p| then Runaway
      else
        var here := if ranged then Range(p[i - 1], p[i + 1]) else {p[i]};
        var n := if ranged then i + 2 else i + 1;
        if n < |p| && p[n] == RBRACK then Members(here, n + 1)
        else
          match ClassMembers(p, n, first)
          case Members(s, next) => Members(here + s, next)
          case other => other
  }

  datatype AtomResult = AtomOk(atom: Atom, next: nat) | AtomBad | AtomRunaway | AtomOther

  // \\(, \\), \\<, \\> and \\1..\\9 have other meanings and are not modelled.
  predicate PlainEscape(c: int) {
    c != 40 && c != 41 && c != 60 && c != 62 && !(49 <= c <= 57)
  }

  function Class(p: Str, i: nat): (r: AtomResult)
    requires i < |p|
    ensures r.AtomOk? ==> i < r.next <= |p| && !r.atom.Dol?
  {
    var neg := i + 1 < |p| && p[i + 1] == CARET;
    var first := if neg then i + 2 else i + 1;
    match ClassMembers(p, first, first)
    case Members(s, next) => AtomOk(Set(if neg then Range(1, 127) - s else s), next)
    case BadClass => AtomBad
    case Runaway => AtomRunaway
  }

  function AtomAt(p: Str, i: nat): (r: AtomResult)
    requires i < |p|
    ensures r.AtomOk? ==> i < r.next <= |p|
    ensures r.AtomOk? && r.atom.Dol? ==> r.next == |p|
  {
    if p[i] == DOT_CH then AtomOk(Dot, i + 1)
    else if p[i] == DOLLAR && i + 1 == |p| then AtomOk(Dol, i + 1)
    else if p[i] == LBRACK then Class(p, i)
    else if p[i] == BSLASH then
      if i + 1 == |p| then AtomBad else if PlainEscape(p[i + 1]) then AtomOk(Chr(p[i + 1]), i + 2) else AtomOther
    else AtomOk(Chr(p[i]), i + 1)
  }

  /** A pattern may be in error, be read past its end, or use escapes that are not modelled. */
  datatype Parsed = Items(items: seq<Item>) | ReError | Overrun | Other

  function Prepend(items: seq<Item>, r: Parsed): Parsed {
    if r.Items? then Items(items + r.items) else r
  }

  /** The items from position i on: an atom followed by any number of stars is starred once. */
  function ParseItems(p: Str, i: nat): Parsed
    requires i <= |p|
    decreases |p| - i
  {
    if i == |p| then Items([])
    else
      match AtomAt(p, i)
      case AtomOk(atom, j) =>
        var e := StarsEnd(p, j);
        Prepend([Item(atom, e > j)], ParseItems(p, e))
      case AtomBad => ReError
      case AtomRunaway => Overrun
      case AtomOther => Other
  }

  function StarLiterals(n: nat): seq<Item> {
    seq(n, i => Item(Chr(STAR_CH), false))
  }

  predicate Anchored(p: Str) {
    p != [] && p[0] == CARET
  }

  /** A pattern: an optional '^', then stars that stand for themselves, then items. */
  function Parse(p: Str): Parsed {
    var i := if Anchored(p) then 1 else 0;
    var l := StarsEnd(p, i);
    Prepend(StarLiterals(l - i), ParseItems(p, l))
  }

  /** The pattern [a- is read past its end. */
  lemma OpenRange()
    ensures Parse([LBRACK, 97, DASH]) == Overrun
  {
    var p := [LBRACK, 97, DASH];
    assert ClassMembers(p, 2, 1) == Runaway;
    assert ClassMembers(p, 1, 1) == Runaway;
    assert ParseItems(p, 0) == Overrun;
  }
}
