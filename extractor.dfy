/**
 * The spreadsheet-to-records extractor (scripts/parseXlsx.ts).
 *
 * The worksheet arrives as a sequence of rows. Every cell is normalised, rows
 * without any truthy cell are dropped, the first surviving row is taken off
 * as the category header, and the remaining rows are read in pairs: a
 * "value" row and below it a row whose cells hold an id and a description
 * separated by CR LF. One record is produced per truthy cell of a value row.
 */
module Extractor {
  import opened Basics
  import opened JsString

  /** A spreadsheet cell: `None` for a missing, `null` or `undefined` cell. */
  type Cell = Option<string>

  /** A row as the spreadsheet library hands it over. */
  datatype RawRow = Cells(cells: seq<Cell>) | NotAnArray

  /** One extracted entry. `category` is `None` when the header has no text in that column. */
  datatype Record = Record(category: Option<string>, value: string, id: string, description: string)

  /**
   * Why the extraction aborts. Row and column numbers of the two pairing
   * errors are 0-based positions in the data rows that follow the header.
   */
  datatype ExtractError =
    | RowNotAnArray(index: nat)
    | MissingPairedRow(row: nat, column: nat)
    | MissingPairedCell(row: nat, column: nat)

  const CRLF: string := "\r\n"
  const LF: string := "\n"

  /** JavaScript truthiness of a cell: present and not the empty string. */
  predicate Truthy(c: Cell)
  {
    c.Some? && |c.value| > 0
  }

  function NormalizeCell(c: Cell): Cell
  {
    if Truthy(c) && c.value != CRLF then c else None
  }

  /** The per-row normalisation: falsy cells and a lone CR LF become null. */
  function NormalizeRow(row: seq<Cell>): (r: seq<Cell>)
    ensures |r| == |row|
    ensures forall i :: 0 <= i < |row| ==> (r[i].None? <==> !Truthy(row[i]) || row[i] == Some(CRLF))
    ensures forall i :: 0 <= i < |row| && r[i].Some? ==> r[i] == row[i]
  {
    seq(|row|, i requires 0 <= i < |row| => NormalizeCell(row[i]))
  }

  /** Normalising a second time changes nothing. */
  lemma NormalizeRowIdempotent(row: seq<Cell>)
    ensures NormalizeRow(NormalizeRow(row)) == NormalizeRow(row)
  {
    var once := NormalizeRow(row);
    assert forall i :: 0 <= i < |once| ==> NormalizeCell(once[i]) == once[i];
  }

  /** The row has at least one truthy cell (`row.some((item) => !!item)`). */
  predicate HasTruthyCell(row: seq<Cell>)
  {
    exists i :: 0 <= i < |row| && Truthy(row[i])
  }

  /** The empty-row filter. */
  function KeepNonEmpty(rows: seq<seq<Cell>>): (kept: seq<seq<Cell>>)
    ensures |kept| <= |rows|
    ensures forall k :: 0 <= k < |kept| ==> HasTruthyCell(kept[k])
  {
    if |rows| == 0 then []
    else (if HasTruthyCell(rows[0]) then [rows[0]] else []) + KeepNonEmpty(rows[1..])
  }

  /** The filter keeps rows in their original relative order: it distributes over concatenation. */
  lemma {:induction false} KeepNonEmptyAppend(a: seq<seq<Cell>>, b: seq<seq<Cell>>)
    ensures KeepNonEmpty(a + b) == KeepNonEmpty(a) + KeepNonEmpty(b)
    decreases |a|
  {
    if |a| > 0 {
      assert (a + b)[1..] == a[1..] + b;
      KeepNonEmptyAppend(a[1..], b);
    } else {
      assert a + b == b;
    }
  }

  /** A row survives the filter exactly when it was present and has a truthy cell. */
  lemma {:induction false} KeepNonEmptyMembership(rows: seq<seq<Cell>>, row: seq<Cell>)
    ensures row in KeepNonEmpty(rows) <==> row in rows && HasTruthyCell(row)
    decreases |rows|
  {
    if |rows| > 0 {
      KeepNonEmptyMembership(rows[1..], row);
      assert rows == [rows[0]] + rows[1..];
    }
  }

  /** A normalised row is kept exactly when some cell survived normalisation. */
  lemma NormalizedKeptIffPresentCell(row: seq<Cell>)
    ensures HasTruthyCell(NormalizeRow(row)) <==> exists i :: 0 <= i < |row| && NormalizeRow(row)[i].Some?
  {
    var n := NormalizeRow(row);
    if exists i :: 0 <= i < |row| && n[i].Some? {
      var i :| 0 <= i < |row| && n[i].Some?;
      assert Truthy(n[i]);
    }
  }

  /**
   * `data.map(...)`: every row normalised, or the error for the first row
   * that is not an array.
   */
  function NormalizeRows(data: seq<RawRow>): (r: Result<seq<seq<Cell>>, ExtractError>)
    ensures r.Success? <==> forall i :: 0 <= i < |data| ==> data[i].Cells?
    ensures r.Success? ==> |r.value| == |data|
    ensures r.Success? ==> forall i :: 0 <= i < |data| ==> r.value[i] == NormalizeRow(data[i].cells)
    ensures r.Failure? ==> r.error.RowNotAnArray? && r.error.index < |data|
    ensures r.Failure? ==> data[r.error.index].NotAnArray?
    ensures r.Failure? ==> forall i :: 0 <= i < r.error.index ==> data[i].Cells?
    decreases |data|
  {
    if |data| == 0 then Success([])
    else if data[0].NotAnArray? then Failure(RowNotAnArray(0))
    else
      match NormalizeRows(data[1..])
      case Failure(e) => Failure(RowNotAnArray(e.index + 1))
      case Success(rest) => Success([NormalizeRow(data[0].cells)] + rest)
  }

  /** Lines 7-17: normalise every row, then drop the rows left without a truthy cell. */
  function Prepare(data: seq<RawRow>): (r: Result<seq<seq<Cell>>, ExtractError>)
    ensures r.Success? <==> forall i :: 0 <= i < |data| ==> data[i].Cells?
    ensures r.Success? ==> |r.value| <= |data|
    ensures r.Success? ==> forall k :: 0 <= k < |r.value| ==> HasTruthyCell(r.value[k])
  {
    match NormalizeRows(data)
    case Failure(e) => Failure(e)
    case Success(rows) => Success(KeepNonEmpty(rows))
  }

  /**
   * Every present cell is a non-empty string, as after normalisation: on
   * such rows a cell is truthy exactly when it is present.
   */
  predicate Normalized(rows: seq<seq<Cell>>)
  {
    forall k, i :: 0 <= k < |rows| && 0 <= i < |rows[k]| && rows[k][i].Some? ==> Truthy(rows[k][i])
  }

  /** The rows that lines 7-17 hand on, the header and every row after it, are normalised. */
  lemma PreparedNormalized(data: seq<RawRow>)
    requires Prepare(data).Success?
    ensures Normalized(Prepare(data).value)
    ensures |Prepare(data).value| > 0 ==> Normalized(Prepare(data).value[1..])
  {
    var rows: seq<seq<Cell>> := NormalizeRows(data).value;
    var kept: seq<seq<Cell>> := Prepare(data).value;
    forall k: int, i: int | 0 <= k < |kept| && 0 <= i < |kept[k]| && kept[k][i].Some?
      ensures Truthy(kept[k][i])
    {
      KeepNonEmptyMembership(rows, kept[k]);
      var j :| 0 <= j < |rows| && rows[j] == kept[k];
      assert kept[k] == NormalizeRow(data[j].cells);
    }
    if |kept| > 0 {
      forall k: int, i: int | 0 <= k < |kept[1..]| && 0 <= i < |kept[1..][k]| && kept[1..][k][i].Some?
        ensures Truthy(kept[1..][k][i])
      {
        assert kept[1..][k] == kept[k + 1];
      }
    }
  }

  /** The header cell of a column; `None` past the end of the header. */
  function CellAt(header: seq<Cell>, column: nat): Cell
  {
    if column < |header| then header[column] else None
  }

  /**
   * The record for a truthy value cell and the text of the cell below it:
   * the id is the text before the first CR LF, and the pieces after it are
   * joined with LF to form the description.
   */
  function MakeRecord(header: seq<Cell>, column: nat, value: string, paired: string): (r: Record)
  {
    var pieces := Split(paired, CRLF);
    Record(CellAt(header, column), value, pieces[0], Join(pieces[1..], LF))
  }

  /**
   * The record's category is the header cell and its value the value cell;
   * its id is the paired cell up to its first CR LF (all of it when there is
   * none, with an empty description), and its description is the rest with
   * every CR LF turned into LF.
   */
  lemma MakeRecordFields(header: seq<Cell>, column: nat, value: string, paired: string)
    ensures var r := MakeRecord(header, column, value, paired);
            && r.category == CellAt(header, column) && r.value == value
            && Free(r.id, CRLF)
            && (IndexOf(paired, CRLF).None? ==> r.id == paired && r.description == "")
            && (IndexOf(paired, CRLF).Some? ==>
                  var i := IndexOf(paired, CRLF).value;
                  r.id == paired[..i] && r.description == Join(Split(paired[i + 2..], CRLF), LF))
  {
  }

  /**
   * The id followed by CR LF and the description pieces rebuilds the cell
   * below the value: nothing of the cell is lost but the separators.
   */
  lemma {:induction false} RecordRebuildsPairedCell(header: seq<Cell>, column: nat, value: string, paired: string)
    ensures var pieces := Split(paired, CRLF);
            var r := MakeRecord(header, column, value, paired);
            pieces[0] == r.id && Join(pieces[1..], LF) == r.description && Join(pieces, CRLF) == paired
  {
    JoinSplit(paired, CRLF);
  }

  /** A position in the data rows: `row` indexes the rows after the header. */
  datatype Slot = Slot(row: nat, col: nat)

  /** A present cell of a value row, that is of an even data row: on normalised rows, the cells line 29 does not skip. */
  predicate IsValueSlot(rows: seq<seq<Cell>>, s: Slot)
  {
    s.row < |rows| && s.row % 2 == 0 && s.col < |rows[s.row]| && rows[s.row][s.col].Some?
  }

  /** `s` is at or after column `c` of row `r` in reading order. */
  predicate AtOrAfter(s: Slot, r: nat, c: nat)
  {
    s.row > r || (s.row == r && s.col >= c)
  }

  /** Row-major reading order. */
  predicate Before(a: Slot, b: Slot)
  {
    a.row < b.row || (a.row == b.row && a.col < b.col)
  }

  /**
   * The present cells of the value rows from column `c` of row `r` on, in
   * reading order: row by row, left to right.
   */
  function ValueSlots(rows: seq<seq<Cell>>, r: nat, c: nat): (slots: seq<Slot>)
    requires r % 2 == 0
    ensures forall k :: 0 <= k < |slots| ==> IsValueSlot(rows, slots[k]) && AtOrAfter(slots[k], r, c)
    decreases |rows| - r, if r < |rows| && c < |rows[r]| then |rows[r]| - c else 0
  {
    if r >= |rows| then []
    else if c >= |rows[r]| then ValueSlots(rows, r + 2, 0)
    else (if rows[r][c].Some? then [Slot(r, c)] else []) + ValueSlots(rows, r, c + 1)
  }

  /** Every present value cell from column `c` of row `r` on is among the slots. */
  lemma {:induction false} ValueSlotsComplete(rows: seq<seq<Cell>>, r: nat, c: nat, s: Slot)
    requires r % 2 == 0 && IsValueSlot(rows, s) && AtOrAfter(s, r, c)
    ensures s in ValueSlots(rows, r, c)
    decreases |rows| - r, if r < |rows| && c < |rows[r]| then |rows[r]| - c else 0
  {
    if r >= |rows| {
    } else if c >= |rows[r]| {
      ValueSlotsComplete(rows, r + 2, 0, s);
    } else if s == Slot(r, c) {
    } else {
      ValueSlotsComplete(rows, r, c + 1, s);
    }
  }

  predicate InReadingOrder(slots: seq<Slot>)
  {
    forall k, l :: 0 <= k < l < |slots| ==> Before(slots[k], slots[l])
  }

  /** The slots are listed in strict reading order: row by row, left to right, with no repeats. */
  lemma {:induction false} ValueSlotsOrdered(rows: seq<seq<Cell>>, r: nat, c: nat)
    requires r % 2 == 0
    ensures InReadingOrder(ValueSlots(rows, r, c))
    decreases |rows| - r, if r < |rows| && c < |rows[r]| then |rows[r]| - c else 0
  {
    if r < |rows| {
      if c >= |rows[r]| {
        ValueSlotsOrdered(rows, r + 2, 0);
        assert ValueSlots(rows, r, c) == ValueSlots(rows, r + 2, 0);
      } else {
        ValueSlotsOrdered(rows, r, c + 1);
        var rest := ValueSlots(rows, r, c + 1);
        if rows[r][c].Some? {
          var slots := [Slot(r, c)] + rest;
          assert ValueSlots(rows, r, c) == slots;
          forall k, l | 0 <= k < l < |slots|
            ensures Before(slots[k], slots[l])
          {
            assert slots[l] == rest[l - 1];
            assert AtOrAfter(rest[l - 1], r, c + 1);
            if k > 0 {
              assert slots[k] == rest[k - 1];
              assert Before(rest[k - 1], rest[l - 1]);
            }
          }
        } else {
          assert ValueSlots(rows, r, c) == rest;
        }
      }
    }
  }

  /** Number of present cells in a row. */
  function CountPresent(row: seq<Cell>): nat
  {
    if |row| == 0 then 0 else (if row[0].Some? then 1 else 0) + CountPresent(row[1..])
  }

  /** Number of present cells in the value rows `r`, `r + 2`, `r + 4`, ... */
  function ValueCellCount(rows: seq<seq<Cell>>, r: nat): nat
    decreases |rows| - r
  {
    if r >= |rows| then 0 else CountPresent(rows[r]) + ValueCellCount(rows, r + 2)
  }

  /** There is one slot per present value cell. */
  lemma {:induction false} ValueSlotsCount(rows: seq<seq<Cell>>, r: nat, c: nat)
    requires r % 2 == 0
    ensures r < |rows| && c <= |rows[r]| ==>
              |ValueSlots(rows, r, c)| == CountPresent(rows[r][c..]) + ValueCellCount(rows, r + 2)
    ensures r >= |rows| ==> |ValueSlots(rows, r, c)| == 0
    decreases |rows| - r, if r < |rows| && c < |rows[r]| then |rows[r]| - c else 0
  {
    if r < |rows| && c <= |rows[r]| {
      if c == |rows[r]| {
        ValueSlotsCount(rows, r + 2, 0);
        if r + 2 < |rows| {
          assert rows[r + 2][0..] == rows[r + 2];
        }
      } else {
        ValueSlotsCount(rows, r, c + 1);
        assert rows[r][c..][1..] == rows[r][c + 1..];
      }
    }
  }

  /** The value cell at `s` has a paired row below it with a present cell in the same column. */
  predicate Paired(rows: seq<seq<Cell>>, s: Slot)
  {
    s.row + 1 < |rows| && s.col < |rows[s.row + 1]| && rows[s.row + 1][s.col].Some?
  }

  /** The failure of `.split` on the cell paired with an unpaired value cell. */
  function SlotError(rows: seq<seq<Cell>>, s: Slot): ExtractError
  {
    if s.row + 1 < |rows| then MissingPairedCell(s.row + 1, s.col)
    else MissingPairedRow(s.row + 1, s.col)
  }

  /** The record emitted for a paired value cell. */
  function RecordAt(header: seq<Cell>, rows: seq<seq<Cell>>, s: Slot): Record
    requires IsValueSlot(rows, s) && Paired(rows, s)
  {
    MakeRecord(header, s.col, rows[s.row][s.col].value, rows[s.row + 1][s.col].value)
  }

  /**
   * The records for the value cells `slots`, in order, or the error for the
   * first of them that has no paired cell.
   */
  function RecordsAt(header: seq<Cell>, rows: seq<seq<Cell>>, slots: seq<Slot>): (r: Result<seq<Record>, ExtractError>)
    requires forall k :: 0 <= k < |slots| ==> IsValueSlot(rows, slots[k])
    ensures r.Failure? ==> r.error.MissingPairedRow? || r.error.MissingPairedCell?
    decreases |slots|
  {
    if |slots| == 0 then Success([])
    else if !Paired(rows, slots[0]) then Failure(SlotError(rows, slots[0]))
    else
      var first := RecordAt(header, rows, slots[0]);
      match RecordsAt(header, rows, slots[1..])
      case Failure(e) => Failure(e)
      case Success(rest) => Success([first] + rest)
  }

  /**
   * The records for `slots` exist exactly when every slot is paired; they
   * are then one per slot, in the order of the slots.
   */
  lemma {:induction false} RecordsAtSucceeds(header: seq<Cell>, rows: seq<seq<Cell>>, slots: seq<Slot>)
    requires forall k :: 0 <= k < |slots| ==> IsValueSlot(rows, slots[k])
    ensures var r := RecordsAt(header, rows, slots);
            && (r.Success? <==> forall k :: 0 <= k < |slots| ==> Paired(rows, slots[k]))
            && (r.Success? ==> |r.value| == |slots|)
            && (r.Success? ==> forall k :: 0 <= k < |slots| ==> r.value[k] == RecordAt(header, rows, slots[k]))
    decreases |slots|
  {
    if |slots| > 0 {
      var tail := slots[1..];
      assert forall k :: 1 <= k < |slots| ==> slots[k] == tail[k - 1];
      if Paired(rows, slots[0]) {
        RecordsAtSucceeds(header, rows, tail);
      }
    }
  }

  /** When the records for `slots` do not exist, the error is that of the first unpaired slot. */
  lemma {:induction false} RecordsAtFails(header: seq<Cell>, rows: seq<seq<Cell>>, slots: seq<Slot>)
    requires forall k :: 0 <= k < |slots| ==> IsValueSlot(rows, slots[k])
    requires RecordsAt(header, rows, slots).Failure?
    ensures exists k :: 0 <= k < |slots| && !Paired(rows, slots[k])
                        && RecordsAt(header, rows, slots).error == SlotError(rows, slots[k])
                        && forall l :: 0 <= l < k ==> Paired(rows, slots[l])
    decreases |slots|
  {
    if Paired(rows, slots[0]) {
      var tail := slots[1..];
      RecordsAtFails(header, rows, tail);
      var k :| 0 <= k < |tail| && !Paired(rows, tail[k]) && RecordsAt(header, rows, tail).error == SlotError(rows, tail[k])
               && forall l :: 0 <= l < k ==> Paired(rows, tail[l]);
      assert slots[k + 1] == tail[k];
      forall l | 0 <= l < k + 1
        ensures Paired(rows, slots[l])
      {
        if l > 0 {
          assert slots[l] == tail[l - 1];
        }
      }
    } else {
      assert !Paired(rows, slots[0]);
    }
  }

  /** The whole extraction (lines 7-45), as the value the script would write out. */
  function Extraction(data: seq<RawRow>): (r: Result<seq<Record>, ExtractError>)
    ensures (exists i :: 0 <= i < |data| && data[i].NotAnArray?) <==> r.Failure? && r.error.RowNotAnArray?
  {
    match Prepare(data)
    case Failure(e) => Failure(e)
    case Success(mapped) =>
      if |mapped| == 0 then Success([])
      else RecordsAt(mapped[0], mapped[1..], ValueSlots(mapped[1..], 0, 0))
  }

  /** `done` followed by whatever the rest of the extraction yields. */
  function Prefixed(done: seq<Record>, rest: Result<seq<Record>, ExtractError>): Result<seq<Record>, ExtractError>
  {
    match rest
    case Failure(e) => Failure(e)
    case Success(more) => Success(done + more)
  }

  lemma EmptyPrefix(rest: Result<seq<Record>, ExtractError>)
    ensures Prefixed([], rest) == rest
  {
    if rest.Success? {
      assert [] + rest.value == rest.value;
    }
  }

  /** Emitting the record of a paired first slot moves it from what remains to what is done. */
  lemma PrefixedStep(header: seq<Cell>, rows: seq<seq<Cell>>, slots: seq<Slot>, done: seq<Record>, entry: Record)
    requires forall k :: 0 <= k < |slots| ==> IsValueSlot(rows, slots[k])
    requires |slots| > 0 && Paired(rows, slots[0]) && entry == RecordAt(header, rows, slots[0])
    ensures Prefixed(done, RecordsAt(header, rows, slots)) == Prefixed(done + [entry], RecordsAt(header, rows, slots[1..]))
  {
    var rest := RecordsAt(header, rows, slots[1..]);
    if rest.Success? {
      assert done + ([entry] + rest.value) == done + [entry] + rest.value;
    }
  }

  /** The inner loop's step over a paired value cell: its record moves to what is done. */
  lemma PushRecord(header: seq<Cell>, rows: seq<seq<Cell>>, r: nat, c: nat, done: seq<Record>,
                   goal: Result<seq<Record>, ExtractError>)
    requires r % 2 == 0 && r + 1 < |rows| && c < |rows[r]| && rows[r][c].Some?
    requires c < |rows[r + 1]| && rows[r + 1][c].Some?
    requires Prefixed(done, RecordsAt(header, rows, ValueSlots(rows, r, c))) == goal
    ensures Prefixed(done + [RecordAt(header, rows, Slot(r, c))], RecordsAt(header, rows, ValueSlots(rows, r, c + 1))) == goal
  {
    ValueSlotsStep(rows, r, c);
    PushSlot(header, rows, ValueSlots(rows, r, c), ValueSlots(rows, r, c + 1), Slot(r, c), done, goal);
  }

  /** The record of the paired value cell in row `r`, column `c`, as the loop body builds it. */
  lemma RecordAtCell(header: seq<Cell>, rows: seq<seq<Cell>>, r: nat, c: nat)
    requires r % 2 == 0 && r + 1 < |rows| && c < |rows[r]| && rows[r][c].Some?
    requires c < |rows[r + 1]| && rows[r + 1][c].Some?
    ensures RecordAt(header, rows, Slot(r, c)) == MakeRecord(header, c, rows[r][c].value, rows[r + 1][c].value)
  {
  }

  /** What remains after the paired first slot `s` of `slots` is emitted. */
  lemma PushSlot(header: seq<Cell>, rows: seq<seq<Cell>>, slots: seq<Slot>, rest: seq<Slot>, s: Slot,
                 done: seq<Record>, goal: Result<seq<Record>, ExtractError>)
    requires forall k :: 0 <= k < |slots| ==> IsValueSlot(rows, slots[k])
    requires |slots| > 0 && slots[0] == s && slots[1..] == rest && Paired(rows, s)
    requires Prefixed(done, RecordsAt(header, rows, slots)) == goal
    ensures Prefixed(done + [RecordAt(header, rows, s)], RecordsAt(header, rows, rest)) == goal
  {
    PrefixedStep(header, rows, slots, done, RecordAt(header, rows, s));
  }

  /** The inner loop's step over a value cell without a paired cell: the extraction fails there. */
  lemma ThrowAtUnpaired(header: seq<Cell>, rows: seq<seq<Cell>>, r: nat, c: nat, done: seq<Record>,
                        goal: Result<seq<Record>, ExtractError>)
    requires r % 2 == 0 && r < |rows| && c < |rows[r]| && rows[r][c].Some?
    requires r + 1 >= |rows| || c >= |rows[r + 1]| || rows[r + 1][c].None?
    requires Prefixed(done, RecordsAt(header, rows, ValueSlots(rows, r, c))) == goal
    ensures r + 1 >= |rows| ==> goal == Failure(MissingPairedRow(r + 1, c))
    ensures r + 1 < |rows| ==> goal == Failure(MissingPairedCell(r + 1, c))
  {
    ValueSlotsStep(rows, r, c);
    PrefixedFail(header, rows, ValueSlots(rows, r, c), done);
  }

  /** An unpaired first slot ends the extraction with its error. */
  lemma PrefixedFail(header: seq<Cell>, rows: seq<seq<Cell>>, slots: seq<Slot>, done: seq<Record>)
    requires forall k :: 0 <= k < |slots| ==> IsValueSlot(rows, slots[k])
    requires |slots| > 0 && !Paired(rows, slots[0])
    ensures Prefixed(done, RecordsAt(header, rows, slots)) == Failure(SlotError(rows, slots[0]))
  {
  }

  /** Past the end of a value row the slots continue with the next value row. */
  lemma ValueSlotsRowEnd(rows: seq<seq<Cell>>, r: nat, c: nat)
    requires r % 2 == 0 && r < |rows| && c >= |rows[r]|
    ensures ValueSlots(rows, r, c) == ValueSlots(rows, r + 2, 0)
  {
  }

  /** Past the last row nothing remains to be extracted. */
  lemma NothingAfterLastRow(header: seq<Cell>, rows: seq<seq<Cell>>, r: nat, done: seq<Record>)
    requires r % 2 == 0 && r >= |rows|
    ensures Prefixed(done, RecordsAt(header, rows, ValueSlots(rows, r, 0))) == Success(done)
  {
    assert done + [] == done;
  }

  /** Removing the first value slot of row `r` at column `c` leaves the slots after it. */
  lemma ValueSlotsStep(rows: seq<seq<Cell>>, r: nat, c: nat)
    requires r % 2 == 0 && r < |rows| && c < |rows[r]|
    ensures rows[r][c].None? ==> ValueSlots(rows, r, c) == ValueSlots(rows, r, c + 1)
    ensures rows[r][c].Some? ==>
              var slots := ValueSlots(rows, r, c);
              |slots| > 0 && slots[0] == Slot(r, c) && slots[1..] == ValueSlots(rows, r, c + 1)
  {
    if rows[r][c].Some? {
      var rest := ValueSlots(rows, r, c + 1);
      assert ValueSlots(rows, r, c) == [Slot(r, c)] + rest;
      assert ([Slot(r, c)] + rest)[1..] == rest;
    }
  }

  /**
   * Lines 19-45: take the header off the surviving rows and extract the
   * records of the rows below it. The pipeline of lines 7-17 is the function
   * `Prepare`.
   */
  method Extract(data: seq<RawRow>) returns (result: Result<seq<Record>, ExtractError>)
    ensures result == Extraction(data)
  {
    var prepared := Prepare(data);
    if prepared.Failure? {
      return Failure(prepared.error);
    }
    var mapped := prepared.value;
    if |mapped| == 0 {
      // `shift()` of an empty list: the loop over the data rows does not run.
      return Success([]);
    }
    PreparedNormalized(data);
    var categories := mapped[0];
    mapped := mapped[1..];
    result := ExtractRows(categories, mapped);
  }

  /**
   * Lines 21-45: walk the data rows two at a time, pushing the records of
   * each pair. Reading the cell below a value cell that has no paired row,
   * or whose paired cell is null, throws.
   */
  method ExtractRows(categories: seq<Cell>, mapped: seq<seq<Cell>>) returns (result: Result<seq<Record>, ExtractError>)
    requires Normalized(mapped)
    ensures result == RecordsAt(categories, mapped, ValueSlots(mapped, 0, 0))
  {
    var parsedData: seq<Record> := [];
    var rowIndex: nat := 0;
    ghost var goal := RecordsAt(categories, mapped, ValueSlots(mapped, 0, 0));
    EmptyPrefix(goal);
    while rowIndex < |mapped|
      invariant rowIndex % 2 == 0 && rowIndex <= |mapped| + 1
      invariant Prefixed(parsedData, RecordsAt(categories, mapped, ValueSlots(mapped, rowIndex, 0))) == goal
    {
      var pair := ExtractPair(categories, mapped, rowIndex, parsedData);
      if pair.Failure? {
        return pair;
      }
      parsedData := pair.value;
      rowIndex := rowIndex + 2;
    }
    NothingAfterLastRow(categories, mapped, rowIndex, parsedData);
    return Success(parsedData);
  }

  /**
   * Lines 24-44: the inner loop over the columns of value row `rowIndex`,
   * appending to `parsedData` the records of that pair, or throwing at the
   * first value cell without a paired cell.
   */
  method ExtractPair(categories: seq<Cell>, mapped: seq<seq<Cell>>, rowIndex: nat, parsedData: seq<Record>)
    returns (result: Result<seq<Record>, ExtractError>)
    requires rowIndex % 2 == 0 && rowIndex < |mapped| && Normalized(mapped)
    ensures Prefixed(parsedData, RecordsAt(categories, mapped, ValueSlots(mapped, rowIndex, 0)))
            == if result.Failure? then result
               else Prefixed(result.value, RecordsAt(categories, mapped, ValueSlots(mapped, rowIndex + 2, 0)))
  {
    ghost var goal := Prefixed(parsedData, RecordsAt(categories, mapped, ValueSlots(mapped, rowIndex, 0)));
    var done := parsedData;
    var categoryIndex: nat := 0;
    while categoryIndex < |mapped[rowIndex]|
      invariant categoryIndex <= |mapped[rowIndex]|
      invariant Prefixed(done, RecordsAt(categories, mapped, ValueSlots(mapped, rowIndex, categoryIndex))) == goal
    {
      var cell := mapped[rowIndex][categoryIndex];
      if Truthy(cell) {
        if rowIndex + 1 >= |mapped| {
          ThrowAtUnpaired(categories, mapped, rowIndex, categoryIndex, done, goal);
          return Failure(MissingPairedRow(rowIndex + 1, categoryIndex));
        }
        var below := mapped[rowIndex + 1];
        if categoryIndex >= |below| || below[categoryIndex].None? {
          ThrowAtUnpaired(categories, mapped, rowIndex, categoryIndex, done, goal);
          return Failure(MissingPairedCell(rowIndex + 1, categoryIndex));
        }
        var entry := MakeRecord(categories, categoryIndex, cell.value, below[categoryIndex].value);
        RecordAtCell(categories, mapped, rowIndex, categoryIndex);
        PushRecord(categories, mapped, rowIndex, categoryIndex, done, goal);
        done := done + [entry];
      } else {
        ValueSlotsStep(mapped, rowIndex, categoryIndex);
      }
      assert Prefixed(done, RecordsAt(categories, mapped, ValueSlots(mapped, rowIndex, categoryIndex + 1))) == goal;
      categoryIndex := categoryIndex + 1;
    }
    ValueSlotsRowEnd(mapped, rowIndex, categoryIndex);
    return Success(done);
  }

  /**
   * The number of extracted records equals the number of truthy cells in
   * the value rows, the even data rows after the header.
   */
  lemma ExtractionCount(data: seq<RawRow>)
    requires Extraction(data).Success?
    ensures var mapped := Prepare(data).value;
            |Extraction(data).value| == if |mapped| == 0 then 0 else ValueCellCount(mapped[1..], 0)
  {
    var mapped := Prepare(data).value;
    if |mapped| > 0 {
      var rows := mapped[1..];
      ValueSlotsCount(rows, 0, 0);
      RecordsAtSucceeds(mapped[0], rows, ValueSlots(rows, 0, 0));
      if |rows| > 0 {
        assert rows[0][0..] == rows[0];
      }
    }
  }

  /**
   * Every extracted record comes from a truthy value cell, in reading
   * order, with its category, value, id and description taken from that cell,
   * the header above it and the cell below it.
   */
  lemma ExtractionRecords(data: seq<RawRow>)
    requires Extraction(data).Success? && |Prepare(data).value| > 0
    ensures var mapped := Prepare(data).value;
            var rows := mapped[1..];
            var slots := ValueSlots(rows, 0, 0);
            var records := Extraction(data).value;
            && |records| == |slots|
            && (forall k :: 0 <= k < |slots| ==> Paired(rows, slots[k]))
            && (forall k :: 0 <= k < |slots| ==> records[k] == RecordAt(mapped[0], rows, slots[k]))
  {
    var mapped := Prepare(data).value;
    RecordsAtSucceeds(mapped[0], mapped[1..], ValueSlots(mapped[1..], 0, 0));
  }

  /**
   * The extraction fails exactly when some truthy value cell has no paired
   * cell below it (the script then throws at `.split`), or a row is not an array.
   */
  lemma ExtractionFails(data: seq<RawRow>)
    requires Prepare(data).Success? && |Prepare(data).value| > 0
    ensures var mapped := Prepare(data).value;
            var rows := mapped[1..];
            Extraction(data).Failure? <==> exists s :: IsValueSlot(rows, s) && !Paired(rows, s)
  {
    var mapped := Prepare(data).value;
    var rows := mapped[1..];
    var slots := ValueSlots(rows, 0, 0);
    RecordsAtSucceeds(mapped[0], rows, slots);
    if exists s :: IsValueSlot(rows, s) && !Paired(rows, s) {
      var s :| IsValueSlot(rows, s) && !Paired(rows, s);
      ValueSlotsComplete(rows, 0, 0, s);
    }
  }

  /**
   * An odd number of data rows always fails: the last data row is a value
   * row, survived the filter so it has a truthy cell, and has no row below.
   */
  lemma OddDataRowsFail(data: seq<RawRow>)
    requires Prepare(data).Success? && |Prepare(data).value| > 0
    requires (|Prepare(data).value| - 1) % 2 == 1
    ensures Extraction(data).Failure?
  {
    var mapped := Prepare(data).value;
    var rows := mapped[1..];
    var last := |rows| - 1;
    assert rows[last] == mapped[|mapped| - 1];
    assert HasTruthyCell(rows[last]);
    var c :| 0 <= c < |rows[last]| && Truthy(rows[last][c]);
    assert IsValueSlot(rows, Slot(last, c)) && !Paired(rows, Slot(last, c));
    ExtractionFails(data);
  }
}
