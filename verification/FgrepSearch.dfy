/** Fixed-string search (cmds/simple/fgrep.c): the Boyer-Moore table, the search of the input
    buffer, and the lines that it selects. */
module FgrepSearch {
  import opened Params

  const NL: Byte := 10

  // ----- what a match is ------------------------------------------------------------

  /** s stands at position q of the text. */
  ghost predicate MatchAt(text: seq<Byte>, s: seq<Byte>, q: int) {
    0 <= q && q + |s| <= |text| && forall k :: 0 <= k < |s| ==> text[q + k] == s[k]
  }

  ghost predicate NoneBetween(text: seq<Byte>, s: seq<Byte>, a: int, b: int) {
    forall q :: a <= q < b ==> !MatchAt(text, s, q)
  }

  /** r is the leftmost match at or after input, or beyond the text if there is none. */
  ghost predicate Leftmost(text: seq<Byte>, s: seq<Byte>, input: int, r: int) {
    input <= r && NoneBetween(text, s, input, r) && (r < |text| ==> MatchAt(text, s, r))
  }

  // ----- the table ------------------------------------------------------------------

  /** The distance from the last c in s to the end of s; for an absent byte the length of s, as far
      as a byte can hold it. */
  ghost predicate Entry(s: seq<Byte>, c: Byte, d: int) {
    EntryUpTo(s, c, d, |s|)
  }

  ghost predicate IsTable(s: seq<Byte>, t: seq<Byte>) {
    |t| == 256 && forall c: Byte :: Entry(s, c, t[c])
  }

  // The loop has entered the first n bytes of s.
  ghost predicate EntryUpTo(s: seq<Byte>, c: Byte, d: int, n: nat)
    requires n <= |s|
  {
    if c in s[..n] then |s| - n <= d < |s| && s[|s| - 1 - d] == c && forall k :: |s| - d <= k < n ==> s[k] != c
    else d == |s| % 256
  }

  ghost predicate TableUpTo(s: seq<Byte>, t: seq<Byte>, n: nat) {
    |t| == 256 && n <= |s| && forall c: Byte :: EntryUpTo(s, c, t[c], n)
  }

  datatype AddResult = Ignored | TooLong | Added(table: seq<Byte>)

  /** add_string: an empty string is ignored, one of more than 256 bytes is an error. */
  method AddString(str: seq<Byte>) returns (r: AddResult)
    ensures r.Ignored? <==> str == []
    ensures r.TooLong? <==> |str| > 256
    ensures r.Added? ==> IsTable(str, r.table)
  {
    if |str| == 0 { return Ignored; }
    if |str| > 256 { return TooLong; }
    var table := new Byte[256](_ => |str| % 256);
    var n: nat := 0;
    while n < |str|
      invariant n <= |str| && TableUpTo(str, table[..], n)
    {
      EnterByte(str, table[..], n);
      table[str[n]] := |str| - 1 - n;
      n := n + 1;
    }
    WholeTable(str, table[..]);
    return Added(table[..]);
  }

  lemma EnterByte(s: seq<Byte>, t: seq<Byte>, n: nat)
    requires TableUpTo(s, t, n) && n < |s| <= 256
    ensures TableUpTo(s, t[s[n] := |s| - 1 - n], n + 1)
  {
    var t' := t[s[n] := |s| - 1 - n];
    assert s[..n + 1] == s[..n] + [s[n]];
    forall c: Byte ensures EntryUpTo(s, c, t'[c], n + 1) {
      assert EntryUpTo(s, c, t[c], n);
    }
  }

  lemma WholeTable(s: seq<Byte>, t: seq<Byte>)
    requires TableUpTo(s, t, |s|)
    ensures IsTable(s, t)
  {
  }

  // ----- what the search stops at ---------------------------------------------------

  /** The comparison takes the last byte as right if its entry is 0.  For a string of 256 bytes
      that is so for every byte the string does not contain. */
  ghost predicate Hit(text: seq<Byte>, s: seq<Byte>, q: int) {
    && 0 <= q && q + |s| <= |text| && s != []
    && (forall k :: 0 <= k < |s| - 1 ==> text[q + k] == s[k])
    && var last := text[q + |s| - 1];
       last == s[|s| - 1] || (|s| == 256 && last !in s)
  }

  /** r is the leftmost hit at or after input, or beyond the text if there is none. */
  ghost predicate LeftmostHit(text: seq<Byte>, s: seq<Byte>, input: int, r: int) {
    input <= r && NoHits(text, s, input, r) && (r < |text| ==> Hit(text, s, r))
  }

  ghost predicate NoHits(text: seq<Byte>, s: seq<Byte>, a: int, b: int) {
    forall q :: a <= q < b ==> !Hit(text, s, q)
  }

  // Every match is a hit, and up to 255 bytes there are no other hits.
  lemma HitIsMatch(text: seq<Byte>, s: seq<Byte>, q: int)
    requires s != []
    ensures MatchAt(text, s, q) <==> Hit(text, s, q) && text[q + |s| - 1] == s[|s| - 1]
    ensures |s| < 256 ==> (MatchAt(text, s, q) <==> Hit(text, s, q))
  {
    if Hit(text, s, q) && text[q + |s| - 1] == s[|s| - 1] {
      forall k | 0 <= k < |s| ensures text[q + k] == s[k] {
      }
    }
  }

  /** Up to 255 bytes the search is right. */
  lemma ShortIsRight(text: seq<Byte>, s: seq<Byte>, input: int, r: int)
    requires 1 <= |s| <= 255 && LeftmostHit(text, s, input, r)
    ensures Leftmost(text, s, input, r)
  {
    HitIsMatch(text, s, r);
    forall q | input <= q < r ensures !MatchAt(text, s, q) {
      HitIsMatch(text, s, q);
    }
  }

  /** For 256 bytes it is right if and only if no false hit comes before the first match. */
  lemma LongIsRight(text: seq<Byte>, s: seq<Byte>, input: int, r: int)
    requires |s| == 256 && LeftmostHit(text, s, input, r)
    ensures Leftmost(text, s, input, r) <==>
            !exists q :: input <= q && Hit(text, s, q) && NoneBetween(text, s, input, q + 1)
  {
    forall q ensures MatchAt(text, s, q) ==> Hit(text, s, q) {
      HitIsMatch(text, s, q);
    }
    if r < |text| && !MatchAt(text, s, r) {
      assert Hit(text, s, r) && NoneBetween(text, s, input, r + 1);
    }
  }

  // ----- the search -----------------------------------------------------------------

  // No hit ends in buf..buf+d, if d is the entry of the byte at buf.
  lemma SkipIsSafe(text: seq<Byte>, s: seq<Byte>, buf: int, d: int)
    requires 0 < |s| <= 256 && 0 <= buf < |text| && Entry(s, text[buf], d)
    ensures NoHits(text, s, buf - |s| + 1, buf - |s| + 1 + d)
  {
    assert s[..|s|] == s;
    forall q | buf - |s| + 1 <= q < buf - |s| + 1 + d ensures !Hit(text, s, q) {
      var k := buf - q;
      assert s[k] != text[q + k];
    }
  }

  class TestStr {
    const str: seq<Byte>
    const table: seq<Byte>
    var bufp: int

    ghost predicate Tabled() {
      1 <= |str| <= 256 && IsTable(str, table)
    }

    ghost predicate Valid() {
      Tabled() && |str| <= 255 && NL !in str
    }

    constructor (str: seq<Byte>, table: seq<Byte>)
      ensures this.str == str && this.table == table
    {
      this.str, this.table, bufp := str, table, 0;
    }

    // The comparison from the end of the string, whose last byte is taken as right.
    method Compare(text: seq<Byte>, prev: int) returns (matched: bool)
      requires Tabled() && |str| - 1 <= prev < |text|
      requires text[prev] == str[|str| - 1] || (|str| == 256 && text[prev] !in str)
      ensures matched <==> Hit(text, str, prev - |str| + 1)
    {
      var b, s := prev, |str| - 1;
      while true
        invariant 0 <= s < |str| && b == prev - (|str| - 1 - s)
        invariant forall k :: s <= k < |str| - 1 ==> text[prev - |str| + 1 + k] == str[k]
        decreases s
      {
        if s == 0 { return true; }
        b, s := b - 1, s - 1;
        if text[b] != str[s] {
          assert text[prev - |str| + 1 + s] != str[s];
          return false;
        }
      }
    }

    /** search_str: the leftmost match at or after input for strings of up to 255 bytes; for 256
        bytes the leftmost hit. */
    method SearchStr(text: seq<Byte>, input: nat) returns (r: int)
      requires Tabled()
      modifies `bufp
      ensures r == bufp && LeftmostHit(text, str, input, r)
      ensures |str| <= 255 ==> Leftmost(text, str, input, r)
    {
      hide Leftmost, LeftmostHit, MatchAt, Hit, Entry;
      var buf := input + |str| - 1;
      Nowhere(text, str, input);
      while buf < |text|
        invariant input + |str| - 1 <= buf && NoHits(text, str, input, buf - |str| + 1)
      {
        var d := table[text[buf]];
        SkipIsSafe(text, str, buf, d);
        if d > 0 {
          buf := buf + d;
        } else {
          LastByte(str, text[buf]);
          var matched := Compare(text, buf);
          if matched {
            bufp := buf - |str| + 1;
            FoundAt(text, str, input, bufp);
            return bufp;
          }
          buf := buf + 1;
        }
      }
      bufp := buf;
      PastEnd(text, str, input, buf);
      return buf;
    }
  }

  lemma Nowhere(text: seq<Byte>, s: seq<Byte>, a: int)
    ensures NoHits(text, s, a, a)
  {
  }

  lemma LastByte(s: seq<Byte>, c: Byte)
    requires 0 < |s| <= 256 && Entry(s, c, 0)
    ensures c == s[|s| - 1] || (|s| == 256 && c !in s)
  {
    assert s[..|s|] == s;
  }

  lemma FoundAt(text: seq<Byte>, s: seq<Byte>, input: int, r: int)
    requires input <= r && NoHits(text, s, input, r) && Hit(text, s, r)
    ensures LeftmostHit(text, s, input, r) && (|s| <= 255 ==> Leftmost(text, s, input, r))
  {
    if |s| <= 255 { ShortIsRight(text, s, input, r); }
  }

  // A hit that starts where its end would be past the text is none.
  lemma PastEnd(text: seq<Byte>, s: seq<Byte>, input: int, r: int)
    requires s != [] && |text| <= r && input <= r && NoHits(text, s, input, r - |s| + 1)
    ensures LeftmostHit(text, s, input, r) && (|s| <= 255 ==> Leftmost(text, s, input, r))
  {
    forall q | input <= q < r ensures !Hit(text, s, q) {
      if q >= r - |s| + 1 { assert q + |s| > |text|; }
    }
    if |s| <= 255 { ShortIsRight(text, s, input, r); }
  }

  /** 256 times 'a' is found in 255 times 'a' and a 'b'. */
  method FalseMatch() returns (str: seq<Byte>, text: seq<Byte>, r: int)
    ensures |str| == 256 && r == 0 < |text| && !MatchAt(text, str, r)
  {
    str, text := seq(256, _ => 97), seq(256, k => if k < 255 then 97 else 98);
    var added := AddString(str);
    var ts := new TestStr(str, added.table);
    r := ts.SearchStr(text, 0);
    assert Hit(text, str, 0);
    assert text[0 + 255] != str[255];
  }
}
