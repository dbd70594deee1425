/** get_line of cmds/simple/fgrep.c over one buffer-full of whole lines: which lines it
    returns, with cached matches, under -v, -n and neither. */
module FgrepLines {
  import opened Params
  import opened FgrepSearch

  // ----- lines ----------------------------------------------------------------------

  /** fill_buffer leaves whole lines in the buffer. */
  ghost predicate WholeLines(text: seq<Byte>) {
    text != [] ==> text[|text| - 1] == NL
  }

  /** a is where a line, or the end of the text, begins; the sentinel stands before 0. */
  predicate LineStart(text: seq<Byte>, a: int) {
    0 <= a <= |text| && (a == 0 || text[a - 1] == NL)
  }

  /** The position after the newline of the line that a is in. */
  function LineEnd(text: seq<Byte>, a: nat): (e: nat)
    requires a < |text|
    ensures a < e <= |text| && (e < |text| ==> text[e - 1] == NL)
    ensures forall k :: a <= k < e - 1 ==> text[k] != NL
    decreases |text| - a
  {
    if text[a] == NL || a + 1 == |text| then a + 1 else LineEnd(text, a + 1)
  }

  /** The lines of a text, each with its newline. */
  function Lines(text: seq<Byte>): (ls: seq<seq<Byte>>)
    ensures Concat(ls) == text
    ensures forall i :: 0 <= i < |ls| ==> ls[i] != [] && NL !in ls[i][..|ls[i]| - 1]
    decreases |text|
  {
    if text == [] then [] else
      var e := LineEnd(text, 0);
      assert text == text[..e] + text[e..];
      [text[..e]] + Lines(text[e..])
  }

  function Concat(ls: seq<seq<Byte>>): seq<Byte> {
    if ls == [] then [] else ls[0] + Concat(ls[1..])
  }

  ghost predicate Contains(line: seq<Byte>, s: seq<Byte>) {
    exists q :: 0 <= q < |line| && MatchAt(line, s, q)
  }

  ghost predicate ContainsAny(line: seq<Byte>, strs: seq<seq<Byte>>) {
    exists j :: 0 <= j < |strs| && Contains(line, strs[j])
  }

  /** The lines that contain one of the strings; with -v, those that contain none. */
  ghost function Wanted(ls: seq<seq<Byte>>, strs: seq<seq<Byte>>, v: bool): seq<seq<Byte>> {
    if ls == [] then []
    else (if ContainsAny(ls[0], strs) != v then [ls[0]] else []) + Wanted(ls[1..], strs, v)
  }

  // ----- lines by position ----------------------------------------------------------

  ghost predicate AnyAt(text: seq<Byte>, strs: seq<seq<Byte>>, q: int) {
    exists j :: 0 <= j < |strs| && MatchAt(text, strs[j], q)
  }

  ghost predicate AnyIn(text: seq<Byte>, strs: seq<seq<Byte>>, a: int, b: int) {
    exists q :: a <= q < b && AnyAt(text, strs, q)
  }

  predicate Sane(strs: seq<seq<Byte>>) {
    forall j :: 0 <= j < |strs| ==> strs[j] != [] && NL !in strs[j]
  }

  // A string without a newline is in a line exactly if it starts in it.
  lemma MatchInLine(text: seq<Byte>, strs: seq<seq<Byte>>, a: nat)
    requires a < |text| && Sane(strs) && WholeLines(text)
    ensures ContainsAny(text[a..LineEnd(text, a)], strs) <==> AnyIn(text, strs, a, LineEnd(text, a))
  {
    var e := LineEnd(text, a);
    var line := text[a..e];
    if j :| 0 <= j < |strs| && Contains(line, strs[j]) {
      var q :| 0 <= q < |line| && MatchAt(line, strs[j], q);
      SameMatch(text, strs[j], a, e, q);
      assert AnyAt(text, strs, a + q);
    }
    if q :| a <= q < e && AnyAt(text, strs, q) {
      var j :| 0 <= j < |strs| && MatchAt(text, strs[j], q);
      EndsInLine(text, strs[j], q, e);
      SameMatch(text, strs[j], a, e, q - a);
      assert Contains(line, strs[j]);
    }
  }

  lemma SameMatch(text: seq<Byte>, s: seq<Byte>, a: nat, e: nat, q: nat)
    requires a <= e <= |text| && a + q + |s| <= e
    ensures MatchAt(text[a..e], s, q) <==> MatchAt(text, s, a + q)
  {
    if MatchAt(text, s, a + q) {
      forall k | 0 <= k < |s| ensures text[a..e][q + k] == s[k] {
        assert text[a + q + k] == s[k];
      }
    }
  }

  lemma EndsInLine(text: seq<Byte>, s: seq<Byte>, q: nat, e: nat)
    requires q < e <= |text| && text[e - 1] == NL && NL !in s && MatchAt(text, s, q)
    ensures q + |s| < e
  {
    forall j | q <= j < q + |s| ensures text[j] != NL {
      assert text[q + (j - q)] == s[j - q] && s[j - q] in s;
    }
  }

  /** The wanted lines from a on. */
  ghost function From(text: seq<Byte>, strs: seq<seq<Byte>>, v: bool, a: nat): seq<seq<Byte>>
    requires a <= |text|
  {
    Wanted(Lines(text[a..]), strs, v)
  }

  // LineEnd of a suffix is that of the whole, moved.
  lemma {:induction false} LineEndSuffix(text: seq<Byte>, a: nat, b: nat)
    requires a + b < |text|
    ensures LineEnd(text[a..], b) + a == LineEnd(text, a + b)
    decreases |text| - b
  {
    if text[a + b] != NL && a + b + 1 != |text| { LineEndSuffix(text, a, b + 1); }
  }

  lemma FromStep(text: seq<Byte>, strs: seq<seq<Byte>>, v: bool, a: nat)
    requires a < |text| && Sane(strs) && WholeLines(text)
    ensures var e := LineEnd(text, a);
            From(text, strs, v, a)
            == (if AnyIn(text, strs, a, e) != v then [text[a..e]] else []) + From(text, strs, v, e)
  {
    var e := LineEnd(text, a);
    hide ContainsAny, AnyIn, Lines, Concat;
    MatchInLine(text, strs, a);
    LinesStep(text, a);
  }

  lemma LinesUnfold(t: seq<Byte>)
    requires t != []
    ensures Lines(t) == [t[..LineEnd(t, 0)]] + Lines(t[LineEnd(t, 0)..])
  {
    hide LineEnd, Concat;
  }

  lemma LinesStep(text: seq<Byte>, a: nat)
    requires a < |text|
    ensures Lines(text[a..]) == [text[a..LineEnd(text, a)]] + Lines(text[LineEnd(text, a)..])
  {
    hide Lines, LineEnd;
    var e := LineEnd(text, a);
    LinesUnfold(text[a..]);
    LineEndSuffix(text, a, 0);
    assert text[a..][..e - a] == text[a..e] && text[a..][e - a..] == text[e..];
  }

  // The number of lines between two line starts.
  function Count(text: seq<Byte>, a: nat, b: nat): nat
    requires a <= |text|
    decreases |text| - a
  {
    if a >= b || a >= |text| then 0 else 1 + Count(text, LineEnd(text, a), b)
  }

  lemma {:induction false} CountAdd(text: seq<Byte>, a: nat, b: nat, c: nat)
    requires a <= b <= c <= |text| && LineStart(text, b)
    ensures Count(text, a, c) == Count(text, a, b) + Count(text, b, c)
    decreases b - a
  {
    if a < b {
      NoLineStartInside(text, a, b);
      CountAdd(text, LineEnd(text, a), b, c);
    }
  }

  lemma NoLineStartInside(text: seq<Byte>, a: nat, b: nat)
    requires a < b <= |text| && LineStart(text, b)
    ensures LineEnd(text, a) <= b
  {
  }

  // Lines before the first match contain none.
  lemma {:induction false} SkipLines(text: seq<Byte>, strs: seq<seq<Byte>>, a: nat, b: nat)
    requires a <= b <= |text| && LineStart(text, b) && Sane(strs) && WholeLines(text) && !AnyIn(text, strs, a, b)
    ensures From(text, strs, false, a) == From(text, strs, false, b)
    decreases b - a
  {
    if a < b {
      var e := LineEnd(text, a);
      NoLineStartInside(text, a, b);
      FromStep(text, strs, false, a);
      SkipLines(text, strs, e, b);
    }
  }

  // ----- the cached matches ---------------------------------------------------------

  /** What a cached match is good for: it is the leftmost, unless it lies behind the input. */
  ghost predicate Cached(text: seq<Byte>, s: seq<Byte>, bufp: int, input: int) {
    NoneBetween(text, s, input, bufp) && (input <= bufp < |text| ==> MatchAt(text, s, bufp))
  }

  /** m is the first match of any of the first n strings at or after input, or the end. */
  ghost predicate FirstOf(text: seq<Byte>, strs: seq<seq<Byte>>, n: nat, input: int, m: int)
    requires n <= |strs|
  {
    && input <= m <= |text|
    && (forall j :: 0 <= j < n ==> NoneBetween(text, strs[j], input, m))
    && (m < |text| ==> AnyAt(text, strs, m))
  }

  lemma FirstOfNone(text: seq<Byte>, strs: seq<seq<Byte>>, input: int, m: int)
    requires FirstOf(text, strs, |strs|, input, m)
    ensures !AnyIn(text, strs, input, m) && (m < |text| ==> AnyAt(text, strs, m))
  {
  }

  // Taking string j into account, whose leftmost match is r, or which has none before m.
  lemma NextString(text: seq<Byte>, strs: seq<seq<Byte>>, j: nat, input: int, m: int, r: int)
    requires j < |strs| && FirstOf(text, strs, j, input, m) && input <= r && Cached(text, strs[j], r, input)
    ensures FirstOf(text, strs, j + 1, input, if r < m then r else m)
  {
    if r < m { assert MatchAt(text, strs[j], r); }
  }

  class Scanner {
    const text: seq<Byte>
    const tests: seq<TestStr>
    const vflag: bool
    const nflag: bool
    var input: nat
    var lineNum: nat

    ghost const strs: seq<seq<Byte>>

    ghost predicate Good() {
      && WholeLines(text) && |tests| > 0 && |strs| == |tests|
      && forall j :: 0 <= j < |tests| ==> tests[j].Valid() && tests[j].str == strs[j]
    }

    ghost predicate Valid()
      reads this, tests
    {
      && Good() && LineStart(text, input)
      && (input > 0 ==> forall j :: 0 <= j < |tests| ==> Cached(text, strs[j], tests[j].bufp, input))
    }

    constructor (text: seq<Byte>, tests: seq<TestStr>, vflag: bool, nflag: bool)
      requires WholeLines(text) && |tests| > 0 && forall j :: 0 <= j < |tests| ==> tests[j].Valid()
      ensures Valid() && input == 0 && lineNum == 0
      ensures this.text == text && this.tests == tests && this.vflag == vflag && this.nflag == nflag
      ensures strs == seq(|tests|, j requires 0 <= j < |tests| => tests[j].str)
    {
      this.text, this.tests, this.vflag, this.nflag := text, tests, vflag, nflag;
      input, lineNum := 0, 0;
      strs := seq(|tests|, j requires 0 <= j < |tests| => tests[j].str);
    }

    // The part of the loop over the strings that handles string j.
    method TryString(j: nat, m: int) returns (m': int)
      requires Good() && j < |tests| && FirstOf(text, strs, j, input, m)
      requires input > 0 ==> Cached(text, strs[j], tests[j].bufp, input)
      modifies tests[j]
      ensures FirstOf(text, strs, j + 1, input, m')
      ensures Cached(text, strs[j], tests[j].bufp, input)
    {
      hide NoneBetween, MatchAt;
      var ts := tests[j];
      m' := m;
      if input == 0 {
        var r := ts.SearchStr(text, input);
        NextString(text, strs, j, input, m, r);
        if r < m { m' := ts.bufp; }
      } else if ts.bufp < m {
        if ts.bufp < input { var _ := ts.SearchStr(text, input); }
        NextString(text, strs, j, input, m, ts.bufp);
        if ts.bufp < m { m' := ts.bufp; }
      } else {
        NextString(text, strs, j, input, m, ts.bufp);
      }
    }
  
    /** The loop over the strings: the first match of any of them. */
    method FirstMatch() returns (m: int)
      requires Valid() && input < |text|
      modifies tests
      ensures FirstOf(text, strs, |strs|, input, m)
      ensures forall j :: 0 <= j < |tests| ==> Cached(text, strs[j], tests[j].bufp, input)
    {
      hide NoneBetween, MatchAt, Cached;
      m := |text|;
      NoStrings(text, strs, input);
      var j: nat := 0;
      while j < |tests|
        invariant j <= |tests| && FirstOf(text, strs, j, input, m)
        invariant forall k :: 0 <= k < |tests| && (k < j || input > 0) ==> Cached(text, strs[k], tests[k].bufp, input)
      {
        m := TryString(j, m);
        j := j + 1;
      }
    }

    ghost predicate AllCached(at: int)
      requires Good()
      reads this, tests
    {
      forall j :: 0 <= j < |tests| ==> Cached(text, strs[j], tests[j].bufp, at)
    }

    // memchr for the next newline.
    method NextLine(a: nat) returns (e: nat)
      requires WholeLines(text) && a < |text|
      ensures e == LineEnd(text, a) && LineStart(text, e)
    {
      e := a;
      while text[e] != NL
        invariant a <= e < |text| && LineEnd(text, a) == LineEnd(text, e)
        decreases |text| - e
      {
        e := e + 1;
      }
      e := e + 1;
    }

    // The scan back from a match to the start of its line.
    method BackToLine(m: nat, ghost a: nat) returns (line: nat)
      requires m < |text| && a <= m && LineStart(text, a)
      ensures a <= line <= m && LineStart(text, line) && forall k :: line <= k < m ==> text[k] != NL
    {
      line := m;
      while line > 0 && text[line - 1] != NL
        invariant a <= line <= m && forall k :: line <= k < m ==> text[k] != NL
      {
        line := line - 1;
      }
    }

    /** With -v: the next line, which is wanted if it ends before the match. */
    method NextUnmatched(m: int) returns (line: nat, found: bool)
      requires Good() && input < |text| && FirstOf(text, strs, |strs|, input, m)
      modifies `input, `lineNum
      ensures line == old(input) && input == LineEnd(text, line) && LineStart(text, input)
              && lineNum == old(lineNum) + 1
      ensures From(text, strs, true, line) == (if found then [text[line..input]] else [])
              + From(text, strs, true, input)
    {
      lineNum := lineNum + 1;
      line := input;
      input := NextLine(line);
      found := input <= m;
      SaneStrings();
      FirstOfNone(text, strs, line, m);
      FromStep(text, strs, true, line);
    }

    lemma SaneStrings()
      requires Good()
      ensures Sane(strs)
    {
      forall j | 0 <= j < |strs| ensures strs[j] != [] && NL !in strs[j] {
        assert tests[j].Valid();
      }
    }

    /** With -n: line by line to the one with the match, or to the end. */
    method NextNumbered(m: int) returns (line: nat)
      requires Good() && LineStart(text, input) && input < |text| && FirstOf(text, strs, |strs|, input, m)
      modifies `input, `lineNum
      ensures old(input) <= line < input <= |text| && LineStart(text, line) && input == LineEnd(text, line)
              && LineStart(text, input)
      ensures if m < |text| then line <= m < input else input == |text|
      ensures lineNum == old(lineNum) + Count(text, old(input), input)
    {
      hide FirstOf;
      InText(m);
      ghost var a := input;
      lineNum := lineNum + 1;
      line := input;
      input := NextLine(line);
      OneLine(text, a);
      while input < m || (input == m && m < |text|)
        invariant a <= line < input <= |text| && LineStart(text, line) && input == LineEnd(text, line)
                  && LineStart(text, input)
        invariant line <= m && lineNum == old(lineNum) + Count(text, a, input)
        decreases |text| - input
      {
        lineNum := lineNum + 1;
        line := input;
        OneLine(text, line);
        input := NextLine(line);
        CountAdd(text, a, line, input);
      }
    }

    lemma InText(m: int)
      requires Good() && FirstOf(text, strs, |strs|, input, m)
      ensures input <= m <= |text|
    {
    }

    /** With neither: the line around the match, if there is one. */
    method NextMatched(m: int) returns (line: nat)
      requires Good() && LineStart(text, input) && input < |text| && FirstOf(text, strs, |strs|, input, m) && m < |text|
      modifies `input
      ensures old(input) <= line <= m < input <= |text| && LineStart(text, line) && input == LineEnd(text, line)
              && LineStart(text, input)
    {
      line := BackToLine(m, input);
      input := NextLine(m);
      SameLine(text, line, m);
    }

    // What the modes without -v have in common: the match is in the line they return.
    lemma MatchedLine(a: nat, m: int, line: nat)
      requires Good() && FirstOf(text, strs, |strs|, a, m) && a <= line <= m < |text| && LineStart(text, line)
      requires m < LineEnd(text, line)
      ensures From(text, strs, false, a) == [text[line..LineEnd(text, line)]]
              + From(text, strs, false, LineEnd(text, line))
    {
      SaneStrings();
      FirstOfNone(text, strs, a, m);
      SkipLines(text, strs, a, line);
      FromStep(text, strs, false, line);
    }

    lemma NoMatchLeft(a: nat)
      requires Good() && a <= |text| && FirstOf(text, strs, |strs|, a, |text|)
      ensures From(text, strs, false, a) == []
    {
      SaneStrings();
      FirstOfNone(text, strs, a, |text|);
      SkipLines(text, strs, a, |text|);
    }

    // One turn of get_line's loop: the lines before `input` that are wanted are those returned.
    ghost predicate Turn(a: nat, line: int)
      requires Good()
      reads this
    {
      && a < input <= |text| && LineStart(text, input)
      && (line != -1 ==> 0 <= line < input)
      && From(text, strs, vflag, a) == (if line == -1 then [] else [text[line..input]]) + From(text, strs, vflag, input)
    }

    method OneTurn(m: int) returns (line: int)
      requires Good() && LineStart(text, input) && input < |text| && FirstOf(text, strs, |strs|, input, m)
      modifies `input, `lineNum
      ensures Turn(old(input), line)
      ensures lineNum == old(lineNum) + if vflag || nflag then Count(text, old(input), input) else 0
    {
      hide FirstOf, From;
      ghost var a := input;
      InText(m);
      if vflag {
        var next, found := NextUnmatched(m);
        OneLine(text, a);
        line := if found then next else -1;
      } else if nflag {
        var next := NextNumbered(m);
        if m < |text| { MatchedLine(a, m, next); } else { NoMatchLeft(a); AtEnd(); }
        line := if m < |text| then next else -1;
      } else if m < |text| {
        line := NextMatched(m);
        MatchedLine(a, m, line);
      } else {
        NoMatchLeft(a);
        input := |text|;
        AtEnd();
        line := -1;
      }
    }

    lemma AtEnd()
      ensures From(text, strs, vflag, |text|) == []
    {
    }

    lemma StillCached(a: nat, b: nat)
      requires Good() && AllCached(a) && a <= b
      ensures AllCached(b)
    {
      forall j | 0 <= j < |tests| ensures Cached(text, strs[j], tests[j].bufp, b) {
        assert Cached(text, strs[j], tests[j].bufp, a);
      }
    }

    /** get_line: the next wanted line, or -1 if the buffer-full holds no more. */
    method GetLine() returns (line: int)
      requires Valid()
      modifies this, tests
      ensures Valid() && (line == -1 ==> input == |text|) && (line != -1 ==> 0 <= line < input && old(input) < input)
      ensures From(text, strs, vflag, old(input))
              == if line == -1 then [] else [text[line..input]] + From(text, strs, vflag, input)
      ensures lineNum == old(lineNum) + if vflag || nflag then Count(text, old(input), input) else 0
    {
      hide From, Cached, FirstOf, Count;
      ghost var a := input;
      NoneCounted(text, a);
      while input < |text|
        invariant Valid() && a <= input <= |text| && LineStart(text, input)
        invariant From(text, strs, vflag, a) == From(text, strs, vflag, input)
        invariant lineNum == old(lineNum) + if vflag || nflag then Count(text, a, input) else 0
        decreases |text| - input
      {
        ghost var b := input;
        var m := FirstMatch();
        line := OneTurn(m);
        StillCached(b, input);
        CountAdd(text, a, b, input);
        if line != -1 { return; }
      }
      AtEnd();
      return -1;
    }

    /** The caller's loop over a whole buffer-full. */
    method AllLines() returns (lines: seq<seq<Byte>>)
      requires Valid() && input == 0
      modifies this, tests
      ensures lines == Wanted(Lines(text), strs, vflag)
    {
      hide From, Cached, Count, Wanted, Lines, IsTable, LineEnd;
      lines := [];
      FromStart(text, strs, vflag);
      while true
        invariant Valid() && input <= |text|
        invariant From(text, strs, vflag, 0) == lines + From(text, strs, vflag, input)
        decreases |text| - input
      {
        var line := GetLine();
        if line == -1 { return; }
        lines := lines + [text[line..input]];
      }
    }
  }

  lemma FromStart(text: seq<Byte>, strs: seq<seq<Byte>>, v: bool)
    ensures From(text, strs, v, 0) == Wanted(Lines(text), strs, v)
  {
    assert text[0..] == text;
  }

  lemma NoneCounted(text: seq<Byte>, a: nat)
    requires a <= |text|
    ensures Count(text, a, a) == 0
  {
  }

  lemma OneLine(text: seq<Byte>, a: nat)
    requires a < |text|
    ensures Count(text, a, LineEnd(text, a)) == 1
  {
  }

  lemma {:induction false} SameLine(text: seq<Byte>, a: nat, m: nat)
    requires a <= m < |text| && forall k :: a <= k < m ==> text[k] != NL
    ensures LineEnd(text, a) == LineEnd(text, m)
    decreases m - a
  {
    if a < m { SameLine(text, a + 1, m); }
  }

  lemma NoStrings(text: seq<Byte>, strs: seq<seq<Byte>>, input: int)
    requires input <= |text|
    ensures FirstOf(text, strs, 0, input, |text|)
  {
  }
}
