/** The document: an ordered sequence of rows plus a dirty flag
    (src/document.rs). Positions address a row by `y` and a cluster within
    it by `x`. */
module Documents {
  import opened Common
  import opened Rows
  import opened SeqFacts

  const NEWLINE: byte := 0x0A

  // ---------------------------------------------------------------------------
  // The document operations on the texts of the rows. Each Document method is
  // proved to leave its rows' texts equal to one of these; the bodies follow
  // the source's composition of row operations, the contracts say what the
  // result is.
  // ---------------------------------------------------------------------------

  /** What `insert_enter_key` leaves in the row it cuts: the clusters
      before `x` when `delete_slice(x, size)` cuts anything, else the row. */
  function SplitHead(t: seq<Cluster>, x: nat): seq<Cluster>
  {
    CutSlice(t, x, |t|).1
  }

  /** The new row `insert_enter_key` creates: `insert_str(0, slice)` on an
      empty row when a slice was cut, else the empty row. */
  function SplitTail(t: seq<Cluster>, x: nat): seq<Cluster>
  {
    var cut := CutSlice(t, x, |t|).0;
    if cut.Some? then InsertRunAt([], 0, cut.value) else []
  }

  /** `insert_enter_key`: the row at `at.y` is cut at `at.x`, and the tail
      (empty when nothing was cut) becomes a new row right after it. Past the
      last row nothing happens. */
  function Split(lines: seq<seq<Cluster>>, at: Position): (r: seq<seq<Cluster>>)
    ensures at.y >= |lines| ==> r == lines
    ensures at.y < |lines| ==>
      var t, k := lines[at.y], Min(at.x, |lines[at.y]|);
      && |r| == |lines| + 1
      && r[..at.y] == lines[..at.y]
      && r[at.y] == t[..k]
      && r[at.y + 1] == t[k..]
      && r[at.y + 2..] == lines[at.y + 1..]
  {
    if at.y < |lines| then
      var t := lines[at.y];
      assert CutSlice(t, at.x, |t|).0.None? ==> Min(at.x, |t|) == |t| && t[Min(at.x, |t|)..] == [];
      lines[..at.y] + [SplitHead(t, at.x), SplitTail(t, at.x)] + lines[at.y + 1..]
    else
      lines
  }

  /** The split as the method performs it: first the row is cut in place,
      then the new row is inserted after it. */
  lemma SplitInTwoSteps(lines: seq<seq<Cluster>>, at: Position, mid: seq<seq<Cluster>>, after: seq<seq<Cluster>>)
    requires at.y < |lines|
    requires mid == lines[at.y := SplitHead(lines[at.y], at.x)]
    requires after == mid[..at.y + 1] + [SplitTail(lines[at.y], at.x)] + mid[at.y + 1..]
    ensures after == Split(lines, at)
  {
    assert mid[..at.y + 1] == lines[..at.y] + [SplitHead(lines[at.y], at.x)];
    assert mid[at.y + 1..] == lines[at.y + 1..];
  }

  /** `Document::insert`: nothing past one-past-the-last row; a newline
      splits the row; one past the last row a new row holding just `ch` is
      appended; otherwise only the addressed row changes. */
  function Inserted(lines: seq<seq<Cluster>>, at: Position, ch: char): (r: seq<seq<Cluster>>)
    ensures at.y > |lines| ==> r == lines
    ensures ch == '\n' ==> r == Split(lines, at)
    ensures ch != '\n' && at.y == |lines| ==> r == lines + [[Utf8(ch)]]
    ensures ch != '\n' && at.y < |lines| ==>
      && |r| == |lines|
      && r[at.y] == InsertAt(lines[at.y], at.x, Utf8(ch))
      && forall i :: 0 <= i < |lines| && i != at.y ==> r[i] == lines[i]
  {
    if at.y > |lines| then lines
    else if ch == '\n' then Split(lines, at)
    else if at.y == |lines| then lines + [InsertAt([], 0, Utf8(ch))]
    else lines[at.y := InsertAt(lines[at.y], at.x, Utf8(ch))]
  }

  /** `Document::insert_str`: one past the last row a row holding `s` is
      appended; an existing row gets `Row::insert_str`, which drops the run
      at an interior index; further out nothing happens. */
  function InsertedRun(lines: seq<seq<Cluster>>, at: Position, s: seq<Cluster>): (r: seq<seq<Cluster>>)
    ensures at.y > |lines| ==> r == lines
    ensures at.y == |lines| ==> r == lines + [s]
    ensures at.y < |lines| && at.x < |lines[at.y]| ==> r == lines
    ensures at.y < |lines| && at.x >= |lines[at.y]| ==>
      && |r| == |lines|
      && r[at.y] == lines[at.y] + s
      && forall i :: 0 <= i < |lines| && i != at.y ==> r[i] == lines[i]
  {
    if at.y == |lines| then lines + [InsertRunAt([], 0, s)]
    else if at.y < |lines| then lines[at.y := InsertRunAt(lines[at.y], at.x, s)]
    else lines
  }

  /** `Document::delete`: at the end of a row that has a successor the next
      row is appended to it and removed; elsewhere within the document one
      cluster is deleted from the row (nothing at the end of the last row);
      past the last row nothing happens. */
  function Deleted(lines: seq<seq<Cluster>>, at: Position): (r: seq<seq<Cluster>>)
    ensures at.y >= |lines| ==> r == lines
    ensures at.y + 1 < |lines| && at.x == |lines[at.y]| ==>
      && |r| == |lines| - 1
      && r[..at.y] == lines[..at.y]
      && r[at.y] == lines[at.y] + lines[at.y + 1]
      && r[at.y + 1..] == lines[at.y + 2..]
    ensures at.y < |lines| && !(at.y + 1 < |lines| && at.x == |lines[at.y]|) ==>
      && |r| == |lines|
      && r[at.y] == RemoveAt(lines[at.y], at.x)
      && forall i :: 0 <= i < |lines| && i != at.y ==> r[i] == lines[i]
  {
    if at.y < |lines| then
      if at.y < |lines| - 1 && at.x == |lines[at.y]| then
        var prev := lines[at.y];
        lines[..at.y] + [InsertRunAt(prev, |prev|, lines[at.y + 1])] + lines[at.y + 2..]
      else
        lines[at.y := RemoveAt(lines[at.y], at.x)]
    else
      lines
  }

  /** The merge as the method performs it: first the next row is appended
      to row `y` in place, then it is removed. */
  lemma JoinInTwoSteps(lines: seq<seq<Cluster>>, at: Position)
    requires at.y + 1 < |lines| && at.x == |lines[at.y]|
    ensures var mid := lines[at.y := lines[at.y] + lines[at.y + 1]];
      Deleted(lines, at) == mid[..at.y + 1] + mid[at.y + 2..]
  {
    var mid := lines[at.y := lines[at.y] + lines[at.y + 1]];
    assert mid[..at.y + 1] == lines[..at.y] + [lines[at.y] + lines[at.y + 1]];
    assert mid[at.y + 2..] == lines[at.y + 2..];
  }

  /** The bytes `save_to_disk` writes: every row's bytes followed by a
      newline, the last row included. */
  function Serialized(lines: seq<seq<Cluster>>): (r: seq<byte>)
    ensures |r| >= |lines|
  {
    if lines == [] then [] else Bytes(lines[0]) + [NEWLINE] + Serialized(lines[1..])
  }

  // ---------------------------------------------------------------------------
  // Properties of the document operations.
  // ---------------------------------------------------------------------------

  /** Pressing Enter at (x, y) and then deleting forward at (x, y) gives the
      original rows back, whenever x is within row y. */
  lemma SplitThenDeleteRestores(lines: seq<seq<Cluster>>, at: Position)
    requires at.y < |lines| && at.x <= |lines[at.y]|
    ensures Deleted(Inserted(lines, at, '\n'), at) == lines
  {
    var t := lines[at.y];
    var split := Inserted(lines, at, '\n');
    assert split[at.y] == t[..at.x] && split[at.y + 1] == t[at.x..];
    var merged := Deleted(split, at);
    assert merged[at.y] == t by {
      assert t[..at.x] + t[at.x..] == t;
    }
    assert merged == lines[..at.y] + [t] + lines[at.y + 1..];
    assert lines[..at.y] + [t] + lines[at.y + 1..] == lines;
  }

  /** Serialising one more row appends that row's bytes and a newline: the
      loop in `save_to_disk` writes exactly `Serialized`. */
  lemma {:induction false} SerializedAppend(lines: seq<seq<Cluster>>, t: seq<Cluster>)
    ensures Serialized(lines + [t]) == Serialized(lines) + Bytes(t) + [NEWLINE]
  {
    if lines == [] {
      assert lines + [t] == [t] && [t][1..] == [];
      assert Serialized([t]) == Bytes(t) + [NEWLINE] + [];
    } else {
      var head, rest := Bytes(lines[0]) + [NEWLINE], lines[1..];
      assert (lines + [t])[0] == lines[0] && (lines + [t])[1..] == rest + [t];
      assert Serialized(lines + [t]) == head + Serialized(rest + [t]);
      SerializedAppend(rest, t);
      assert Serialized(lines) == head + Serialized(rest);
    }
  }

  /** A saved non-empty document ends in a newline, and the newline written
      after the last row comes right after that row's bytes. */
  lemma SerializedEndsWithLastRow(lines: seq<seq<Cluster>>)
    requires lines != []
    ensures var b, last := Serialized(lines), lines[|lines| - 1];
      && |b| > |Bytes(last)|
      && b[|b| - 1] == NEWLINE
      && b[|b| - 1 - |Bytes(last)|..|b| - 1] == Bytes(last)
  {
    var init := lines[..|lines| - 1];
    assert lines == init + [lines[|lines| - 1]];
    SerializedAppend(init, lines[|lines| - 1]);
  }

  // ---------------------------------------------------------------------------
  // The document object.
  // ---------------------------------------------------------------------------

  /** The texts of a sequence of row objects. */
  function Texts(rs: seq<Row>): (r: seq<seq<Cluster>>)
    reads rs
    ensures |r| == |rs| && forall i :: 0 <= i < |rs| ==> r[i] == rs[i].text
  {
    seq(|rs|, i requires 0 <= i < |rs| reads rs => rs[i].text)
  }

  /** Every row keeps its cached length. */
  ghost predicate AllValid(rs: seq<Row>)
    reads rs
  {
    forall r | r in rs :: r.Valid()
  }

  /** Inserting a valid row keeps all rows valid. */
  lemma AllValidInserted(rs: seq<Row>, k: nat, v: Row)
    requires k <= |rs| && AllValid(rs) && v.Valid()
    ensures AllValid(rs[..k] + [v] + rs[k..])
  {
    InsertedDistinct(rs, k, v);
  }

  /** Removing a row keeps all rows valid. */
  lemma AllValidRemoved(rs: seq<Row>, k: nat)
    requires k < |rs| && AllValid(rs)
    ensures AllValid(rs[..k] + rs[k + 1..])
  {
    RemovedDistinct(rs, k);
  }

  class Document {
    var path: Option<seq<char>>
    var rows: seq<Row>
    var dirty: bool

    /** Every row keeps its cached length, and no row object is shared
        between two positions. */
    ghost predicate Valid()
      reads this, rows
    {
      && AllValid(rows)
      && Distinct(rows)
    }

    /** `Document::default()`: no path, no rows, clean. */
    constructor Empty()
      ensures Valid() && rows == [] && path.None? && !dirty
    {
      path := None;
      rows := [];
      dirty := false;
    }

    /** The rows' texts, in order. */
    function Lines(): (r: seq<seq<Cluster>>)
      reads this, rows
      ensures |r| == |rows|
    {
      Texts(rows)
    }

    /** `row` (and `row_mut`): the row at `index`, if there is one. */
    function RowAt(index: nat): (r: Option<Row>)
      reads this, rows
      ensures r.Some? <==> index < |Lines()|
      ensures r.Some? ==> r.value == rows[index] && r.value.text == Lines()[index]
    {
      if index < |rows| then Some(rows[index]) else None
    }

    /** `rows_size`: the number of rows. */
    function RowsSize(): (n: nat)
      reads this, rows
      ensures n == |Lines()|
    {
      |rows|
    }

    /** `is_empty`: there are no rows. */
    function IsEmpty(): (b: bool)
      reads this, rows
      ensures b <==> Lines() == []
    {
      |rows| == 0
    }

    /** `is_dirty`: whether there are unsaved edits. */
    function IsDirty(): (d: bool)
      reads this
      ensures d <==> dirty
    {
      dirty
    }

    /** `Document::insert`. Any position up to one past the last row marks the
        document dirty, even a newline there that changes no row. */
    method Insert(at: Position, ch: char)
      requires Valid()
      modifies this, rows
      ensures Valid()
      ensures Lines() == Inserted(old(Lines()), at, ch)
      ensures dirty == (old(dirty) || at.y <= old(|rows|))
      ensures path == old(path)
    {
      if at.y > RowsSize() {
        return;
      }
      dirty := true;
      ghost var before := Lines();
      assert before == old(Lines());
      if ch == '\n' {
        InsertEnterKey(at);
        return;
      }
      if at.y == RowsSize() {
        AppendRowWith(ch);
      } else if at.y < RowsSize() {
        InsertWithinRow(at, ch);
      }
    }

    /** The middle branch of `Document::insert`: one past the last row, a new
        row holding just `ch` is pushed. */
    method AppendRowWith(ch: char)
      requires Valid()
      modifies this`rows
      ensures Valid()
      ensures Lines() == old(Lines()) + [[Utf8(ch)]]
    {
      ghost var before := Lines();
      var row := new Row.Empty();
      row.Insert(0, ch);
      assert before[..|rows|] == before && before[|rows|..] == [];
      InsertRow(|rows|, row);
    }

    /** The last branch of `Document::insert`: `ch` goes into the addressed
        row. */
    method InsertWithinRow(at: Position, ch: char)
      requires Valid() && at.y < |rows|
      modifies rows[at.y]
      ensures Valid()
      ensures Lines() == old(Lines())[at.y := InsertAt(old(Lines())[at.y], at.x, Utf8(ch))]
    {
      var row := rows[at.y];
      row.Insert(at.x, ch);
      assert forall i :: 0 <= i < |rows| && i != at.y ==> rows[i] != row;
      assert Lines() == old(Lines())[at.y := row.text];
    }

    /** `Document::insert_str`. It never touches `dirty`. */
    method InsertStr(at: Position, s: seq<Cluster>)
      requires Valid()
      modifies this, rows
      ensures Valid()
      ensures Lines() == InsertedRun(old(Lines()), at, s)
      ensures dirty == old(dirty) && path == old(path)
    {
      ghost var before := Lines();
      if at.y == RowsSize() {
        var row := new Row.Empty();
        row.InsertStr(0, s);
        assert before[..|rows|] == before && before[|rows|..] == [];
        InsertRow(|rows|, row);
      } else if at.y < RowsSize() {
        InsertStrWithinRow(at, s);
      }
    }

    /** The last branch of `Document::insert_str`: the addressed row gets
        `Row::insert_str`. */
    method InsertStrWithinRow(at: Position, s: seq<Cluster>)
      requires Valid() && at.y < |rows|
      modifies rows[at.y]
      ensures Valid()
      ensures Lines() == old(Lines())[at.y := InsertRunAt(old(Lines())[at.y], at.x, s)]
    {
      var row := rows[at.y];
      row.InsertStr(at.x, s);
      assert forall i :: 0 <= i < |rows| && i != at.y ==> rows[i] != row;
      assert Lines() == old(Lines())[at.y := row.text];
    }

    /** `Document::delete`. It never touches `dirty`. */
    method Delete(at: Position)
      requires Valid()
      modifies this, rows
      ensures Valid()
      ensures Lines() == Deleted(old(Lines()), at)
      ensures dirty == old(dirty) && path == old(path)
    {
      if at.y < RowsSize() {
        if at.y < RowsSize() - 1 && at.x == rows[at.y].Size() {
          JoinWithNext(at);
        } else {
          DeleteWithinRow(at);
        }
      }
    }

    /** The first branch of `Document::delete`: at the end of a row that has
        a successor, the successor's text is appended and the successor
        removed. */
    method JoinWithNext(at: Position)
      requires Valid() && at.y + 1 < |rows| && at.x == |rows[at.y].text|
      modifies this`rows, rows[at.y]
      ensures Valid()
      ensures Lines() == Deleted(old(Lines()), at)
    {
      ghost var before := Lines();
      var prevRow, row := rows[at.y], rows[at.y + 1];
      prevRow.InsertStr(prevRow.Size(), row.text);
      ghost var mid := before[at.y := before[at.y] + before[at.y + 1]];
      assert Valid() && Lines() == mid by {
        assert forall i :: 0 <= i < |rows| && i != at.y ==> rows[i] != prevRow;
        assert Lines() == before[at.y := prevRow.text];
      }
      JoinInTwoSteps(before, at);
      RemoveRow(at.y + 1);
    }

    /** The second branch of `Document::delete`: one cluster is deleted from
        the addressed row. */
    method DeleteWithinRow(at: Position)
      requires Valid() && at.y < |rows| && !(at.y + 1 < |rows| && at.x == |rows[at.y].text|)
      modifies rows[at.y]
      ensures Valid()
      ensures Lines() == Deleted(old(Lines()), at)
    {
      var row := rows[at.y];
      row.Delete(at.x);
      assert forall i :: 0 <= i < |rows| && i != at.y ==> rows[i] != row;
      assert Lines() == old(Lines())[at.y := row.text];
    }

    /** `insert_enter_key`: splits the addressed row. */
    method InsertEnterKey(at: Position)
      requires Valid()
      modifies this, rows
      ensures Valid()
      ensures Lines() == Split(old(Lines()), at)
      ensures dirty == old(dirty) && path == old(path)
    {
      if at.y < RowsSize() {
        ghost var before := Lines();
        var newRow := SplitOffTail(at);
        ghost var mid := Lines();
        InsertRow(at.y + 1, newRow);
        SplitInTwoSteps(before, at, mid, Lines());
      }
    }

    /** The part of `insert_enter_key` before the `Vec::insert`: the tail of
        the addressed row is cut off and put into a new row, not yet placed
        in the document. */
    method SplitOffTail(at: Position) returns (newRow: Row)
      requires Valid() && at.y < |rows|
      modifies rows[at.y]
      ensures Valid() && fresh(newRow) && newRow.Valid()
      ensures newRow.text == SplitTail(old(Lines())[at.y], at.x)
      ensures Lines() == old(Lines())[at.y := SplitHead(old(Lines())[at.y], at.x)]
    {
      ghost var before := Lines();
      newRow := new Row.Empty();
      var slice := CutRowTail(at);
      ghost var mid := Lines();
      if slice.Some? {
        newRow.InsertStr(0, slice.value);
      }
      assert Lines() == mid && Valid();
    }

    /** The first half of `insert_enter_key`: `delete_slice(x, size)` on the
        addressed row, returning what it cut. */
    method CutRowTail(at: Position) returns (slice: Option<seq<Cluster>>)
      requires Valid() && at.y < |rows|
      modifies rows[at.y]
      ensures Valid()
      ensures slice == CutSlice(old(Lines())[at.y], at.x, |old(Lines())[at.y]|).0
      ensures Lines() == old(Lines())[at.y := SplitHead(old(Lines())[at.y], at.x)]
    {
      var row := rows[at.y];
      slice := row.DeleteSlice(at.x, row.Size());
      assert forall i :: 0 <= i < |rows| && i != at.y ==> rows[i] != row;
      assert Lines() == old(Lines())[at.y := row.text];
    }

    /** `Vec::insert` on the rows: a valid row not yet present is placed at
        index `k`, every other row object keeps its place and contents. */
    method InsertRow(k: nat, row: Row)
      requires Valid() && k <= |rows| && row.Valid() && row !in rows
      modifies this`rows
      ensures Valid() && rows == old(rows[..k] + [row] + rows[k..])
      ensures Lines() == old(Lines())[..k] + [row.text] + old(Lines())[k..]
    {
      AllValidInserted(rows, k, row);
      InsertedDistinct(rows, k, row);
      rows := rows[..k] + [row] + rows[k..];
    }

    /** `Vec::remove` on the rows: the row object at `k` is dropped. */
    method RemoveRow(k: nat)
      requires Valid() && k < |rows|
      modifies this`rows
      ensures Valid() && rows == old(rows[..k] + rows[k + 1..])
      ensures Lines() == old(Lines())[..k] + old(Lines())[k + 1..]
    {
      AllValidRemoved(rows, k);
      RemovedDistinct(rows, k);
      rows := rows[..k] + rows[k + 1..];
    }

    /** `save_to_disk`. With a path, the file receives every row's bytes
        followed by a newline and the document becomes clean, unless the file
        system refuses (`fileOk` false), which leaves `dirty` alone. Without a
        path nothing is written and the document still becomes clean. */
    method SaveToDisk(fileOk: bool) returns (ok: bool, written: seq<byte>)
      requires Valid()
      modifies this`dirty
      ensures ok == (path.None? || fileOk)
      ensures ok ==> !dirty
      ensures !ok ==> dirty == old(dirty)
      ensures written == if path.Some? && fileOk then Serialized(Lines()) else []
    {
      written := [];
      ghost var lines := Lines();
      if path.Some? {
        if !fileOk {
          return false, [];
        }
        var i := 0;
        while i < |rows|
          invariant 0 <= i <= |rows|
          invariant written == Serialized(lines[..i])
        {
          SerializedAppend(lines[..i], rows[i].text);
          assert lines[..i + 1] == lines[..i] + [rows[i].text];
          written := written + rows[i].AsBytes();
          written := written + [NEWLINE];
          i := i + 1;
        }
        assert lines[..|rows|] == lines;
      }
      dirty := false;
      ok := true;
      assert Lines() == lines;
    }
  }
}
