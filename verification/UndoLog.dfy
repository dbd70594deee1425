/** The editor's buffer manager (cmds/s/Bman.c): edits of the text leave modification records,
    and undo plays the records of the last user change backwards. */
module UndoLog {
  import opened LineBuffer

  type Text = seq<string>

  /** struct mod_rec. */
  datatype Rec = Deleted(line: int, text: string) | Inserted(line: int) | Replaced(line: int, text: string)

  // ----- the effect of edits on the text --------------------------------------------

  function InsertLine(t: Text, k: int, s: string): Text
    requires 1 <= k <= |t| + 1
  {
    t[..k - 1] + [s] + t[k - 1..]
  }

  function DeleteLines(t: Text, from: int, to: int): Text
    requires 1 <= from <= to + 1 <= |t| + 1
  {
    t[..from - 1] + t[to..]
  }

  predicate Applies(t: Text, r: Rec) {
    if r.Deleted? then 1 <= r.line <= |t| + 1 else 1 <= r.line <= |t|
  }

  /** What undo does for one record. */
  function Revert(t: Text, r: Rec): Text
    requires Applies(t, r)
  {
    match r
    case Deleted(k, s) => InsertLine(t, k, s)
    case Inserted(k) => DeleteLines(t, k, k)
    case Replaced(k, s) => t[k - 1 := s]
  }

  /** Playing the records, the most recent first, turns text t into `target`. */
  ghost predicate Restores(recs: seq<Rec>, t: Text, target: Text)
    decreases |recs|
  {
    if recs == [] then t == target
    else Applies(t, recs[0]) && Restores(recs[1..], Revert(t, recs[0]), target)
  }

  /** add_rec: a replacement of the line just inserted or replaced needs no record. */
  function AddRec(recs: seq<Rec>, r: Rec): seq<Rec> {
    if recs != [] && recs[0].line == r.line && r.Replaced? && !recs[0].Deleted? then recs
    else [r] + recs
  }

  /** Recording an edit that r reverts keeps the records exact, even if r is dropped. */
  lemma RecordExact(recs: seq<Rec>, r: Rec, t: Text, t': Text, target: Text)
    requires Restores(recs, t, target) && Applies(t', r) && Revert(t', r) == t
    ensures Restores(AddRec(recs, r), t', target)
  {
    if AddRec(recs, r) == recs && recs != [] {
      // t' and t differ in line r.line only, and reverting recs[0] removes or resets that line.
      assert t == t'[r.line - 1 := r.text];
      match recs[0]
      case Inserted(k) =>
        assert DeleteLines(t', k, k) == DeleteLines(t, k, k);
      case Replaced(k, s) =>
        assert t'[k - 1 := s] == t[k - 1 := s];
    } else {
      assert ([r] + recs)[1..] == recs;
    }
  }

  lemma RevertInsert(t: Text, k: int, s: string)
    requires 1 <= k <= |t| + 1
    ensures Applies(InsertLine(t, k, s), Inserted(k)) && Revert(InsertLine(t, k, s), Inserted(k)) == t
  {
  }

  lemma RevertReplace(t: Text, k: int, s: string)
    requires 1 <= k <= |t|
    ensures Applies(t[k - 1 := s], Replaced(k, t[k - 1])) && Revert(t[k - 1 := s], Replaced(k, t[k - 1])) == t
  {
  }

  // Lines from..line of a deletion have been recorded: replaying puts them back one by one.
  lemma RevertDelete(t: Text, from: int, line: int)
    requires 1 <= from <= line <= |t|
    ensures var t' := DeleteLines(t, from, line);
            Applies(t', Deleted(from, t[line - 1]))
              && Revert(t', Deleted(from, t[line - 1])) == DeleteLines(t, from, line - 1)
  {
  }

  /** How b_replace ends: the line is replaced, the number is reported, or there is nothing to copy. */
  datatype Replacement = Done | Improper | NoText

  /** The editor's buffer with its undo records. */
  class Bman {
    const buf: Buffer
    var count: int              // b_count
    var curr: seq<Rec>          // records of the current user command, newest first
    var prev: seq<Rec>          // records of the previous user change
    ghost var start: Text       // the text when the current user command began
    ghost var prevStart: Text   // the text when the previous user change began

    ghost predicate Valid()
      reads this, buf, buf.repr
    {
      && buf.Valid() && count == |buf.Lines()|
      && Restores(curr, buf.Lines(), start)
      && Restores(prev, start, prevStart)
    }

    ghost function Lines(): Text
      requires buf.Valid()
      reads this, buf, buf.repr
    {
      buf.Lines()
    }

    constructor ()
      ensures Valid() && Lines() == [] && curr == [] && prev == []
      ensures fresh(buf) && fresh(buf.repr) && start == [] && prevStart == []
    {
      buf := new Buffer();
      count, curr, prev, start, prevStart := 0, [], [], [], [];
    }

    /** b_insert: tell if successful. */
    method Insert(k: int, s: string) returns (ok: bool)
      requires Valid()
      modifies this`count, this`curr, buf, buf.repr
      ensures Valid() && fresh(buf.repr - old(buf.repr))
      ensures ok <==> 1 <= k <= |old(Lines())| + 1
      ensures Lines() == if ok then InsertLine(old(Lines()), k, s) else old(Lines())
      ensures curr == if ok then AddRec(old(curr), Inserted(k)) else old(curr)
    {
      hide Restores, Buffer.Linked, Buffer.Lines;
      if k < 1 || k > count + 1 { return false; }
      buf.LineCount();
      ghost var t := buf.Lines();
      buf.Insert(k, s);
      RevertInsert(t, k, s);
      RecordExact(curr, Inserted(k), t, InsertLine(t, k, s), start);
      curr := AddRec(curr, Inserted(k));
      count := count + 1;
      ok := true;
    }

    /** b_replace.  It reads the line before it checks the number: a number outside the text is
        reported, unless the walk to it ends at the head of the ring, which has no text to read. */
    method Replace(k: int, s: string) returns (r: Replacement)
      requires Valid()
      modifies this`curr, buf, buf.repr
      ensures Valid() && buf.repr == old(buf.repr)
      ensures r.Done? <==> 1 <= k <= |old(Lines())|
      ensures r.NoText? <==> Around(k, |old(Lines())| + 1) == 0
      ensures Lines() == if r.Done? then old(Lines())[k - 1 := s] else old(Lines())
      ensures curr == if r.Done? then AddRec(old(curr), Replaced(k, old(Lines())[k - 1])) else old(curr)
    {
      hide Restores, Buffer.Linked, Buffer.Lines;
      buf.LineCount();
      ghost var t := buf.Lines();
      var text, found := buf.Gets(k);
      if !found { return NoText; }
      if k < 1 || k > count { return Improper; }
      buf.LineCount();
      buf.Replace(k, s);
      RevertReplace(t, k, s);
      RecordExact(curr, Replaced(k, text), t, t[k - 1 := s], start);
      curr := AddRec(curr, Replaced(k, text));
      r := Done;
    }

    // One round of b_delete's loop: record that a line is about to go.
    method RecordLine(from: int, line: int, ghost t: Text)
      requires buf.Valid() && buf.Lines() == t && 1 <= from <= line <= |t|
      requires Restores(curr, DeleteLines(t, from, line - 1), start)
      modifies this`curr, buf`refLine, buf`refNbr
      ensures buf.Valid() && buf.Lines() == t && curr != []
      ensures Restores(curr, DeleteLines(t, from, line), start)
    {
      hide Restores, Buffer.Linked, Buffer.Lines, Around;
      buf.LineCount();
      var text, _ := buf.Gets(line);
      RevertDelete(t, from, line);
      RecordExact(curr, Deleted(from, text), DeleteLines(t, from, line - 1), DeleteLines(t, from, line), start);
      curr := AddRec(curr, Deleted(from, text));
    }

    /** b_delete: remove lines from..to, or report an improper range. */
    method Delete(from: int, to: int) returns (ok: bool)
      requires Valid()
      modifies this`count, this`curr, buf, buf.repr
      ensures Valid() && buf.repr == old(buf.repr)
      ensures ok <==> 1 <= from <= to + 1 <= |old(Lines())| + 1
      ensures Lines() == if ok then DeleteLines(old(Lines()), from, to) else old(Lines())
      ensures !ok ==> curr == old(curr)
      ensures ok && from <= to ==> curr != []
    {
      hide Restores, Buffer.Linked, Buffer.Lines;
      buf.LineCount();
      var n := to - from + 1;
      if n < 0 || from < 1 || to > count { return false; }
      ghost var t := buf.Lines();
      var line := from;
      assert t == DeleteLines(t, from, from - 1);
      while line <= to
        invariant from <= line <= to + 1 && buf.Valid() && buf.Lines() == t && buf.repr == old(buf.repr)
        invariant Restores(curr, DeleteLines(t, from, line - 1), start)
        invariant count == |t| && (line > from ==> curr != [])
      {
        RecordLine(from, line, t);
        line := line + 1;
      }
      buf.LineCount();
      buf.Delete(from, to);
      count := count - n;
      ok := true;
    }

    /** b_newcmd: a user command that changed the text becomes the previous change. */
    method NewCmd(keyboard: bool)
      requires Valid()
      modifies this`curr, this`prev, this`start, this`prevStart
      ensures Valid() && Lines() == old(Lines())
      ensures !keyboard ==> curr == old(curr) && prev == old(prev) && start == old(start) && prevStart == old(prevStart)
      ensures keyboard ==> curr == [] && start == Lines()
      ensures keyboard && old(curr) != [] ==> prev == old(curr) && prevStart == old(start)
      ensures keyboard && old(curr) == [] ==> prev == old(prev) && prevStart == old(prevStart)
    {
      if !keyboard { return; }
      if curr != [] {
        prev, prevStart := curr, start;
        curr := [];
      }
      start := buf.Lines();
    }

    // What undo does for one record, by way of the ordinary edits.
    method RevertOne(r: Rec)
      requires Valid() && Applies(Lines(), r)
      modifies this`count, this`curr, buf, buf.repr
      ensures Valid() && fresh(buf.repr - old(buf.repr))
      ensures Lines() == Revert(old(Lines()), r) && curr != []
    {
      hide Restores, Buffer.Linked, Buffer.Lines;
      match r
      case Deleted(k, s) => var ok := Insert(k, s);
      case Inserted(k) => var ok := Delete(k, k);
      case Replaced(k, s) => var _ := Replace(k, s);
    }

    /** undo: the text is again what it was before the last change of a user command, and the
        new records lead back to where undo started. */
    method Undo()
      requires Valid()
      modifies this`count, this`curr, buf, buf.repr
      ensures Valid() && fresh(buf.repr - old(buf.repr))
      ensures old(curr) != [] ==> Lines() == old(Lines()) && curr == old(curr)
      ensures old(curr) == [] ==> Lines() == if old(prevStart) == [] then [""] else old(prevStart)
      ensures old(curr) == [] && old(prev) != [] ==> curr != []
    {
      hide Applies, Revert, Buffer.Linked, Buffer.Lines;
      if curr != [] { return; }
      var m := prev;
      while m != []
        invariant Valid() && fresh(buf.repr - old(buf.repr))
        invariant Restores(m, Lines(), prevStart)
        invariant m != old(prev) ==> curr != []
        decreases |m|
      {
        RevertOne(m[0]);
        m := m[1..];
      }
      if count <= 0 {
        var ok := Insert(1, "");
      }
    }

    /** Undoing an undo brings back the text, as long as there was any. */
    method UndoTwice()
      requires Valid() && curr == [] && Lines() != []
      modifies this, buf, buf.repr
      ensures Valid() && Lines() == old(Lines())
    {
      hide Restores, Applies, Revert, Buffer.Linked, Buffer.Lines;
      NoRecords();
      Undo();
      NewCmd(true);
      Undo();
    }

    lemma NoRecords()
      requires Valid()
      ensures curr == [] ==> start == Lines()
      ensures prev == [] ==> prevStart == start
    {
    }
  }

  /** b_replace of line 0 of a text of one line has nothing to copy; of line 3 it is reported. */
  method ReplaceBeyond() returns (zero: Replacement, three: Replacement)
    ensures zero == NoText && three == Improper
  {
    hide Restores;
    var b := new Bman();
    var ok := b.Insert(1, "a");
    zero := b.Replace(0, "b");
    assert Around(3, 2) == 1;
    three := b.Replace(3, "b");
  }
}
