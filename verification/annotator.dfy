/** `updateTableWithImpactFactors` (scripts/content.js:64-101): one pass over
    the citation table that adds the "Impact Factor" header cell to the
    column-header row and one value cell to every citation row that has none.

    A row is abstracted to its cells, each with a tag and a flag standing for
    the `impact-factor-column` class, and to the text of its journal line
    (`.gsc_a_t .gs_gray:nth-child(3)`), when it has one. */
module Annotator {
  import opened Wrappers
  import opened FactorTable
  import JournalName

  /** `th` or `td`. */
  datatype CellKind = HeaderCell | DataCell

  /** A cell; `marked` is the `impact-factor-column` class. */
  datatype Cell = Cell(kind: CellKind, marked: bool, text: CellText)

  datatype Row = Row(cells: seq<Cell>, journalText: Option<string>)

  /** The column the annotation cells are inserted at. */
  const ColumnIndex: nat := 3

  const HeaderLabel: string := "Impact Factor"

  /** The header cell of lines 73-76. */
  const NewHeaderCell: Cell := Cell(HeaderCell, true, Literal(HeaderLabel))

  /** `th.impact-factor-column`. */
  predicate IsMarkedHeader(c: Cell) {
    c.kind == HeaderCell && c.marked
  }

  /** `headerRow.querySelector('th.impact-factor-column')` finds a cell (line 72). */
  predicate HasMarkedHeader(row: Row) {
    exists j :: 0 <= j < |row.cells| && IsMarkedHeader(row.cells[j])
  }

  /** `row.querySelector('.impact-factor-column')` finds a cell (line 84). */
  predicate HasMarked(row: Row) {
    exists j :: 0 <= j < |row.cells| && row.cells[j].marked
  }

  function InsertAt(cells: seq<Cell>, at: nat, c: Cell): (r: seq<Cell>)
    requires at <= |cells|
    ensures |r| == |cells| + 1 && r[at] == c
    ensures forall j :: 0 <= j < at ==> r[j] == cells[j]
    ensures forall j :: at < j < |r| ==> r[j] == cells[j - 1]
  {
    cells[..at] + [c] + cells[at..]
  }

  /** Where `insertBefore(cell, headerRow.children[3])` puts the cell: before
      the fourth child, or at the end when there is no fourth child. */
  function HeaderIndex(row: Row): nat {
    if |row.cells| < ColumnIndex then |row.cells| else ColumnIndex
  }

  /** Row 1 after lines 72-78. */
  function WithHeader(row: Row): Row {
    if HasMarkedHeader(row) then row
    else row.(cells := InsertAt(row.cells, HeaderIndex(row), NewHeaderCell))
  }

  /** `journalName` after lines 89-92: "" when the row has no journal line. */
  function JournalNameOf(row: Row): string {
    match row.journalText
    case Some(t) => JournalName.ExtractJournalName(t)
    case None => ""
  }

  /** The cell inserted by lines 95-98. */
  function ValueCell(row: Row, factors: FactorMap): Cell {
    Cell(DataCell, true, Lookup(factors, JournalNameOf(row)))
  }

  /** `insertCell(3)` can only be reached with at least three cells. */
  predicate Insertable(row: Row) {
    HasMarked(row) || |row.cells| >= ColumnIndex
  }

  /** A citation row after one turn of the loop of lines 81-99. */
  function AnnotateRow(row: Row, factors: FactorMap): Row
    requires Insertable(row)
  {
    if HasMarked(row) then row
    else row.(cells := InsertAt(row.cells, ColumnIndex, ValueCell(row, factors)))
  }

  /** `rows[1]` exists, and every row the pass inserts into has three cells. */
  predicate Annotatable(rows: seq<Row>) {
    |rows| >= 2 && forall i :: 2 <= i < |rows| ==> Insertable(rows[i])
  }

  /** The table rows after one pass with the lookup table `factors`. */
  function Pass(rows: seq<Row>, factors: FactorMap): (r: seq<Row>)
    requires Annotatable(rows)
    ensures |r| == |rows|
  {
    seq(|rows|, i requires 0 <= i < |rows| =>
      if i == 1 then WithHeader(rows[1])
      else if i >= 2 then AnnotateRow(rows[i], factors)
      else rows[i])
  }

  /** The citation table (`document.getElementById("gsc_a_t")`), whose rows
      the pass updates in place. */
  class CitationTable {
    var rows: seq<Row>

    constructor (rows: seq<Row>)
      ensures this.rows == rows
    {
      this.rows := rows;
    }

    /** Lines 68-99, with the map the pass read from the store. */
    method UpdateWithFactors(factors: FactorMap)
      requires Annotatable(rows)
      modifies this
      ensures rows == Pass(old(rows), factors)
    {
      var headerRow := rows[1];
      if !HasMarkedHeader(headerRow) {
        rows := rows[1 := headerRow.(cells := InsertAt(headerRow.cells, HeaderIndex(headerRow), NewHeaderCell))];
      }
      assert rows[1] == WithHeader(old(rows)[1]);
      var i := 2;
      while i < |rows|
        invariant 2 <= i <= |rows| == |old(rows)|
        invariant rows[0] == old(rows)[0] && rows[1] == WithHeader(old(rows)[1])
        invariant forall j :: 2 <= j < i ==> rows[j] == AnnotateRow(old(rows)[j], factors)
        invariant forall j :: i <= j < |rows| ==> rows[j] == old(rows)[j]
      {
        var row := rows[i];
        if !HasMarked(row) {
          var journalName := "";
          if row.journalText.Some? {
            journalName := JournalName.ExtractJournalName(row.journalText.value);
          }
          assert journalName == JournalNameOf(row);
          var cell := Cell(DataCell, true, Lookup(factors, journalName));
          rows := rows[i := row.(cells := InsertAt(row.cells, ColumnIndex, cell))];
        }
        assert rows[i] == AnnotateRow(old(rows)[i], factors);
        i := i + 1;
      }
      assert forall j :: 0 <= j < |rows| ==> rows[j] == Pass(old(rows), factors)[j];
    }
  }

  /** Number of cells that are marked (header cells only, when `headerOnly`). */
  function CountMarked(cells: seq<Cell>, headerOnly: bool): nat
    decreases |cells|
  {
    if cells == [] then 0
    else
      var c := cells[0];
      (if c.marked && (!headerOnly || c.kind == HeaderCell) then 1 else 0) +
      CountMarked(cells[1..], headerOnly)
  }

  lemma {:induction false} CountMarkedPositive(cells: seq<Cell>, headerOnly: bool)
    ensures CountMarked(cells, headerOnly) > 0 <==>
            exists j :: 0 <= j < |cells| && cells[j].marked && (!headerOnly || cells[j].kind == HeaderCell)
    decreases |cells|
  {
    if cells != [] {
      CountMarkedPositive(cells[1..], headerOnly);
      if CountMarked(cells[1..], headerOnly) > 0 {
        var j :| 0 <= j < |cells[1..]| && cells[1..][j].marked &&
                 (!headerOnly || cells[1..][j].kind == HeaderCell);
        assert cells[j + 1] == cells[1..][j];
      }
      if exists j :: 0 <= j < |cells| && cells[j].marked && (!headerOnly || cells[j].kind == HeaderCell) {
        var j :| 0 <= j < |cells| && cells[j].marked && (!headerOnly || cells[j].kind == HeaderCell);
        if j > 0 {
          assert cells[1..][j - 1] == cells[j];
        }
      }
    }
  }

  lemma {:induction false} CountMarkedInsert(cells: seq<Cell>, at: nat, c: Cell, headerOnly: bool)
    requires at <= |cells|
    ensures CountMarked(InsertAt(cells, at, c), headerOnly) ==
            CountMarked(cells, headerOnly) + (if c.marked && (!headerOnly || c.kind == HeaderCell) then 1 else 0)
    decreases |cells|
  {
    var r := InsertAt(cells, at, c);
    if at == 0 {
      assert r[1..] == cells;
    } else {
      assert r[0] == cells[0];
      assert r[1..] == InsertAt(cells[1..], at - 1, c);
      CountMarkedInsert(cells[1..], at - 1, c, headerOnly);
    }
  }

  /** After a pass the column-header row holds exactly one marked header cell
      when it held none before, at index 3 when it has three cells; a row that
      had one is left alone, so no pass adds a second. Row 0 and the number of
      rows do not change. */
  lemma PassHeader(rows: seq<Row>, factors: FactorMap)
    requires Annotatable(rows)
    ensures Pass(rows, factors)[0] == rows[0]
    ensures HasMarkedHeader(Pass(rows, factors)[1])
    ensures HasMarkedHeader(rows[1]) ==> Pass(rows, factors)[1] == rows[1]
    ensures !HasMarkedHeader(rows[1]) ==>
              CountMarked(Pass(rows, factors)[1].cells, true) == 1 &&
              Pass(rows, factors)[1].cells[HeaderIndex(rows[1])] == NewHeaderCell &&
              |Pass(rows, factors)[1].cells| == |rows[1].cells| + 1 &&
              Pass(rows, factors)[1].journalText == rows[1].journalText &&
              Pass(rows, factors)[1].cells[..HeaderIndex(rows[1])] == rows[1].cells[..HeaderIndex(rows[1])] &&
              Pass(rows, factors)[1].cells[HeaderIndex(rows[1]) + 1..] == rows[1].cells[HeaderIndex(rows[1])..]
  {
    var h := rows[1];
    var r := Pass(rows, factors)[1];
    if !HasMarkedHeader(h) {
      CountMarkedPositive(h.cells, true);
      CountMarkedInsert(h.cells, HeaderIndex(h), NewHeaderCell, true);
      assert r.cells[HeaderIndex(h)] == NewHeaderCell;
    }
  }

  /** A citation row (index 2 on) without a marked cell gets exactly one,
      at index 3, showing the looked-up value; the cells before it stay,
      those after it move one place right. A row that had one is unchanged. */
  lemma PassDataRow(rows: seq<Row>, factors: FactorMap, i: nat)
    requires Annotatable(rows) && 2 <= i < |rows|
    ensures HasMarked(Pass(rows, factors)[i])
    ensures HasMarked(rows[i]) ==> Pass(rows, factors)[i] == rows[i]
    ensures !HasMarked(rows[i]) ==>
              var r := Pass(rows, factors)[i];
              r.journalText == rows[i].journalText &&
              |r.cells| == |rows[i].cells| + 1 &&
              CountMarked(r.cells, false) == 1 &&
              r.cells[ColumnIndex] == Cell(DataCell, true, Lookup(factors, JournalNameOf(rows[i]))) &&
              r.cells[..ColumnIndex] == rows[i].cells[..ColumnIndex] &&
              r.cells[ColumnIndex + 1..] == rows[i].cells[ColumnIndex..]
  {
    var row := rows[i];
    if !HasMarked(row) {
      CountMarkedPositive(row.cells, false);
      CountMarkedInsert(row.cells, ColumnIndex, ValueCell(row, factors), false);
      var r := Pass(rows, factors)[i];
      assert r.cells[ColumnIndex] == ValueCell(row, factors);
    }
  }

  /** A pass leaves a table another pass accepts. */
  lemma PassAnnotatable(rows: seq<Row>, factors: FactorMap)
    requires Annotatable(rows)
    ensures Annotatable(Pass(rows, factors))
  {
    forall i | 2 <= i < |rows| ensures Insertable(Pass(rows, factors)[i]) {
      PassDataRow(rows, factors, i);
    }
  }

  /** A second pass, with whatever lookup table, changes nothing. */
  lemma PassIdempotent(rows: seq<Row>, factors: FactorMap, later: FactorMap)
    requires Annotatable(rows)
    ensures Annotatable(Pass(rows, factors))
    ensures Pass(Pass(rows, factors), later) == Pass(rows, factors)
  {
    PassAnnotatable(rows, factors);
    var once := Pass(rows, factors);
    PassHeader(rows, factors);
    forall i | 2 <= i < |rows| ensures HasMarked(once[i]) {
      PassDataRow(rows, factors, i);
    }
  }

  /** Rows appended to an annotated table (the next page of citations) are
      each annotated by the next pass; the rows annotated before are not
      touched again. */
  lemma PassAfterNewRows(rows: seq<Row>, factors: FactorMap, added: seq<Row>)
    requires Annotatable(rows)
    requires forall j :: 0 <= j < |added| ==> Insertable(added[j])
    ensures Annotatable(Pass(rows, factors) + added)
    ensures var again := Pass(Pass(rows, factors) + added, factors);
      again[..|rows|] == Pass(rows, factors) &&
      forall j :: 0 <= j < |added| ==> again[|rows| + j] == AnnotateRow(added[j], factors)
  {
    var once := Pass(rows, factors);
    PassIdempotent(rows, factors, factors);
    var t := once + added;
    forall i | 2 <= i < |t| ensures Insertable(t[i]) {
      if i >= |rows| {
        assert t[i] == added[i - |rows|];
      }
    }
    var again := Pass(t, factors);
    assert again[..|rows|] == Pass(once, factors);
  }

  /** With an empty lookup table, every cell a pass adds to a citation row
      shows "N/A". */
  lemma PassWithEmptyTable(rows: seq<Row>, i: nat)
    requires Annotatable(rows) && 2 <= i < |rows| && !HasMarked(rows[i])
    ensures Pass(rows, map[])[i].cells[ColumnIndex].text == Literal(NotAvailable)
  {
    PassDataRow(rows, map[], i);
  }
}
