/**
 * The live spreadsheet table: a header row of column letters after a corner
 * cell, and a body of rows, each an index cell followed by one input cell
 * per value. Each handler that reshapes the table is a method proved equal
 * to a pure transition on (headers, rows); the lemmas are about those
 * transitions.
 */
module Grid {
  import opened Wrappers

  /**
   * A body row: the number shown in its index cell, `None` once a column
   * delete has removed that cell, and the values of its input cells.
   */
  datatype Row = Row(index: Option<nat>, cells: seq<string>)

  /** What a column delete did: nothing, removed the last column, or stopped at a row that had no cell left to remove. */
  datatype ColOutcome = Ignored | Removed | Aborted(row: nat)

  const ScaffoldRows: nat := 20
  const ScaffoldCols: nat := 5
  /** The code of `A`, the first column letter. */
  const LetterA: nat := 65
  /** `String.fromCharCode` reduces its argument modulo 2^16. */
  const CodeUnits: nat := 0x1_0000

  /** The header a fresh page shows: the letters A to E. */
  function InitialHeaders(): seq<nat> {
    [65, 66, 67, 68, 69]
  }

  /** The code unit of the letter heading data column `n` (counting from 0). */
  function HeaderFor(n: nat): (code: nat)
    ensures code < CodeUnits
    ensures n + LetterA < CodeUnits ==> code == LetterA + n
  {
    (LetterA + n) % CodeUnits
  }

  /** Headers that read A, B, C, ... from the first data column on. */
  predicate Lettered(headers: seq<nat>) {
    forall k :: 0 <= k < |headers| ==> headers[k] == HeaderFor(k)
  }

  function Blank(n: nat): (cells: seq<string>)
    ensures |cells| == n
    ensures forall k :: 0 <= k < n ==> cells[k] == ""
  {
    seq(n, _ => "")
  }

  /** The rows `setupSpreadsheet` appends: numbered 1 to 20, five empty inputs each. */
  function Scaffold(): seq<Row> {
    seq(ScaffoldRows, i requires 0 <= i < ScaffoldRows => Row(Some(i + 1), Blank(ScaffoldCols)))
  }

  /** The table is orderly: rows numbered 1, 2, ... in order and every row exactly as wide as the header. */
  predicate Orderly(headers: seq<nat>, rows: seq<Row>) {
    forall k :: 0 <= k < |rows| ==> rows[k].index == Some(k + 1) && |rows[k].cells| == |headers|
  }

  /** The values `saveSpreadsheetData` reads: every row's input values, in order. */
  function CellsOf(rows: seq<Row>): (data: seq<seq<string>>)
    ensures |data| == |rows|
    ensures forall k :: 0 <= k < |rows| ==> data[k] == rows[k].cells
  {
    seq(|rows|, k requires 0 <= k < |rows| => rows[k].cells)
  }

  /** The rows a CSV import builds: one per parsed line, numbered from 1. */
  function Numbered(data: seq<seq<string>>): (rows: seq<Row>)
    ensures |rows| == |data|
    ensures forall k :: 0 <= k < |data| ==> rows[k] == Row(Some(k + 1), data[k])
  {
    seq(|data|, k requires 0 <= k < |data| => Row(Some(k + 1), data[k]))
  }

  // ---------------------------------------------------------------- transitions

  /** Adding a row: one more row, numbered one past the row count, with one empty input per header letter. */
  function RowAdded(headers: seq<nat>, rows: seq<Row>): (r: seq<Row>)
    ensures |r| == |rows| + 1 && r[..|rows|] == rows
    ensures r[|rows|].index == Some(|rows| + 1)
    ensures |r[|rows|].cells| == |headers|
    ensures forall k :: 0 <= k < |headers| ==> r[|rows|].cells[k] == ""
  {
    rows + [Row(Some(|rows| + 1), Blank(|headers|))]
  }

  /** Deleting a row: the last row goes, unless it is the only one. */
  function RowDeleted(rows: seq<Row>): (r: seq<Row>)
    ensures |r| == if |rows| > 1 then |rows| - 1 else |rows|
    ensures r == rows[..|r|]
  {
    if |rows| > 1 then rows[..|rows| - 1] else rows
  }

  function Widen(row: Row): Row {
    Row(row.index, row.cells + [""])
  }

  /** Adding a column: the next letter in the header and one more empty input at the end of every row. */
  function ColAdded(headers: seq<nat>, rows: seq<Row>): (r: (seq<nat>, seq<Row>))
    ensures |r.0| == |headers| + 1 && r.0[..|headers|] == headers
    ensures r.0[|headers|] == HeaderFor(|headers|)
    ensures |r.1| == |rows|
    ensures forall k :: 0 <= k < |rows| ==>
              r.1[k].index == rows[k].index && r.1[k].cells == rows[k].cells + [""]
  {
    (headers + [HeaderFor(|headers|)], seq(|rows|, k requires 0 <= k < |rows| => Widen(rows[k])))
  }

  /** Removing a row's last cell: an input if it has one, else its index cell; a row with neither cannot lose one. */
  function DropLast(row: Row): (r: Option<Row>)
    ensures r.None? <==> row.cells == [] && row.index.None?
    ensures r.Some? ==> |r.value.cells| + (if r.value.index.Some? then 1 else 0)
                        == |row.cells| + (if row.index.Some? then 1 else 0) - 1
    ensures r.Some? && row.cells != [] ==> r.value.index == row.index && row.cells == r.value.cells + [row.cells[|row.cells| - 1]]
  {
    if row.cells != [] then Some(Row(row.index, row.cells[..|row.cells| - 1]))
    else if row.index.Some? then Some(Row(None, []))
    else None
  }

  /** The first row at or after `from` with no cell left to remove. */
  function StuckFrom(rows: seq<Row>, from: nat): (r: Option<nat>)
    requires from <= |rows|
    ensures r.Some? ==> from <= r.value < |rows| && DropLast(rows[r.value]).None?
    ensures r.Some? ==> forall k :: from <= k < r.value ==> DropLast(rows[k]).Some?
    ensures r.None? ==> forall k :: from <= k < |rows| ==> DropLast(rows[k]).Some?
    decreases |rows| - from
  {
    if from == |rows| then None
    else if DropLast(rows[from]).None? then Some(from)
    else StuckFrom(rows, from + 1)
  }

  /**
   * Deleting a column, when the header has more than one letter: the last
   * letter goes, then each row in turn loses its last cell; a row with no
   * cell left stops the pass there, with the rows before it already changed
   * and it and the rows after it untouched.
   */
  function ColDeleted(headers: seq<nat>, rows: seq<Row>): (r: (ColOutcome, seq<nat>, seq<Row>))
    ensures |r.2| == |rows|
    ensures r.0 == Ignored <==> |headers| <= 1
    ensures r.0 == Ignored ==> r.1 == headers && r.2 == rows
    ensures r.0 != Ignored ==> r.1 == headers[..|headers| - 1]
    ensures r.0 == Removed ==> forall k :: 0 <= k < |rows| ==> DropLast(rows[k]) == Some(r.2[k])
    ensures r.0.Aborted? ==> r.0.row < |rows| && DropLast(rows[r.0.row]).None?
    ensures r.0.Aborted? ==> forall k :: 0 <= k < r.0.row ==> DropLast(rows[k]) == Some(r.2[k])
    ensures r.0.Aborted? ==> r.2[r.0.row..] == rows[r.0.row..]
  {
    if |headers| <= 1 then (Ignored, headers, rows)
    else
      var stuck := StuckFrom(rows, 0);
      var stop := if stuck.Some? then stuck.value else |rows|;
      var narrowed := seq(|rows|, k requires 0 <= k < |rows| => if k < stop then DropLast(rows[k]).value else rows[k]);
      (if stuck.Some? then Aborted(stuck.value) else Removed, headers[..|headers| - 1], narrowed)
  }

  // ---------------------------------------------------------------- lemmas

  /** The page's scaffold is orderly and its header lettered. */
  lemma ScaffoldOrderly()
    ensures Lettered(InitialHeaders())
    ensures Orderly(InitialHeaders(), Scaffold())
  {
    forall k | 0 <= k < ScaffoldRows ensures |Scaffold()[k].cells| == ScaffoldCols {
      assert Scaffold()[k].cells == Blank(ScaffoldCols);
    }
  }

  /** Adding a row keeps an orderly table orderly. */
  lemma RowAddedOrderly(headers: seq<nat>, rows: seq<Row>)
    requires Orderly(headers, rows)
    ensures Orderly(headers, RowAdded(headers, rows))
  {
  }

  /** Deleting a row keeps an orderly table orderly. */
  lemma RowDeletedOrderly(headers: seq<nat>, rows: seq<Row>)
    requires Orderly(headers, rows)
    ensures Orderly(headers, RowDeleted(rows))
  {
  }

  /** Adding a column keeps an orderly table orderly and its header lettered. */
  lemma ColAddedOrderly(headers: seq<nat>, rows: seq<Row>)
    requires Orderly(headers, rows) && Lettered(headers)
    ensures Orderly(ColAdded(headers, rows).0, ColAdded(headers, rows).1)
    ensures Lettered(ColAdded(headers, rows).0)
  {
  }

  /** In an orderly table a column delete never stops early, and it leaves the table orderly and its header lettered. */
  lemma ColDeletedOrderly(headers: seq<nat>, rows: seq<Row>)
    requires Orderly(headers, rows) && Lettered(headers) && |headers| > 1
    ensures ColDeleted(headers, rows).0 == Removed
    ensures Orderly(ColDeleted(headers, rows).1, ColDeleted(headers, rows).2)
    ensures Lettered(ColDeleted(headers, rows).1)
  {
    var r := ColDeleted(headers, rows);
    assert StuckFrom(rows, 0).None? by {
      assert forall k :: 0 <= k < |rows| ==> DropLast(rows[k]).Some?;
    }
    forall k | 0 <= k < |rows| ensures r.2[k].index == Some(k + 1) && |r.2[k].cells| == |r.1| {
      assert DropLast(rows[k]) == Some(r.2[k]);
    }
  }

  /** Deleting a row right after adding one gives back the table. */
  lemma DeleteUndoesAddRow(headers: seq<nat>, rows: seq<Row>)
    requires |rows| >= 1
    ensures RowDeleted(RowAdded(headers, rows)) == rows
  {
  }

  /** Deleting a column right after adding one gives back the table, whatever its shape. */
  lemma DeleteUndoesAddCol(headers: seq<nat>, rows: seq<Row>)
    requires |headers| >= 1
    ensures var (h, rs) := ColAdded(headers, rows);
            ColDeleted(h, rs) == (Removed, headers, rows)
  {
    var (h, rs) := ColAdded(headers, rows);
    forall k | 0 <= k < |rs| ensures DropLast(rs[k]) == Some(rows[k]) {
      assert rs[k].cells[..|rs[k].cells| - 1] == rows[k].cells;
    }
    assert StuckFrom(rs, 0).None?;
    var r := ColDeleted(h, rs);
    assert r.2 == rows by {
      forall k | 0 <= k < |rows| ensures r.2[k] == rows[k] {
        assert Some(r.2[k]) == DropLast(rs[k]);
      }
    }
    assert h[..|h| - 1] == headers;
  }

  /** Reading back the rows a CSV import built gives the parsed lines. */
  lemma CellsOfNumbered(data: seq<seq<string>>)
    ensures CellsOf(Numbered(data)) == data
  {
  }

  /**
   * A CSV import keeps the table orderly exactly when every line has as many
   * fields as the header has letters; the header is never adjusted.
   */
  lemma NumberedOrderlyIff(headers: seq<nat>, data: seq<seq<string>>)
    ensures Orderly(headers, Numbered(data)) <==> forall k :: 0 <= k < |data| ==> |data[k]| == |headers|
  {
    if Orderly(headers, Numbered(data)) {
      forall k | 0 <= k < |data| ensures |data[k]| == |headers| {
        assert Numbered(data)[k].cells == data[k];
      }
    }
  }

  /**
   * After importing a one-column CSV file into the five-column page, the
   * first column delete strips the row to its index cell, the second removes
   * that cell, and the third stops at the row with nothing left.
   */
  lemma NarrowRowRunsOut()
    ensures var rows := Numbered([["x"]]);
            var (o1, h1, r1) := ColDeleted(InitialHeaders(), rows);
            var (o2, h2, r2) := ColDeleted(h1, r1);
            var (o3, h3, r3) := ColDeleted(h2, r2);
            o1 == Removed && r1 == [Row(Some(1), [])]
            && o2 == Removed && r2 == [Row(None, [])]
            && o3 == Aborted(0) && r3 == r2 && |h3| == 2
  {
    var rows := Numbered([["x"]]);
    assert rows == [Row(Some(1), ["x"])];
    var (o1, h1, r1) := ColDeleted(InitialHeaders(), rows);
    assert StuckFrom(rows, 1) == None;
    assert r1 == [Row(Some(1), [])];
    var (o2, h2, r2) := ColDeleted(h1, r1);
    assert StuckFrom(r1, 1) == None;
    assert r2 == [Row(None, [])];
    var (o3, h3, r3) := ColDeleted(h2, r2);
    assert r3 == r2;
  }

  // ---------------------------------------------------------------- the live table

  class Sheet {
    /** The header letters' code units, after the corner cell. */
    var headers: seq<nat>
    var rows: seq<Row>

    /** The table as the page first shows it: header A to E and an empty body. */
    constructor()
      ensures headers == InitialHeaders() && rows == []
    {
      headers := InitialHeaders();
      rows := [];
    }

    /** `setupSpreadsheet`'s scaffold: twenty numbered rows of five empty inputs appended to the body. */
    method Setup()
      modifies this
      ensures headers == old(headers)
      ensures rows == old(rows) + Scaffold()
    {
      var i := 1;
      while i <= ScaffoldRows
        invariant 1 <= i <= ScaffoldRows + 1
        invariant headers == old(headers)
        invariant rows == old(rows) + Scaffold()[..i - 1]
      {
        var cells: seq<string> := [];
        var j := 0;
        while j < ScaffoldCols
          invariant 0 <= j <= ScaffoldCols
          invariant cells == Blank(j)
        {
          cells := cells + [""];
          j := j + 1;
        }
        assert Scaffold()[..i] == Scaffold()[..i - 1] + [Row(Some(i), cells)];
        rows := rows + [Row(Some(i), cells)];
        i := i + 1;
      }
      assert Scaffold()[..ScaffoldRows] == Scaffold();
    }

    /** The add-row handler. */
    method AddRow()
      modifies this
      ensures headers == old(headers)
      ensures rows == RowAdded(headers, old(rows))
    {
      var number := |rows| + 1;
      var colCount := |headers|;
      var cells: seq<string> := [];
      var j := 0;
      while j < colCount
        invariant 0 <= j <= colCount
        invariant cells == Blank(j)
      {
        cells := cells + [""];
        j := j + 1;
      }
      rows := rows + [Row(Some(number), cells)];
    }

    /** The add-column handler: the next letter, then one empty input appended to every row in turn. */
    method AddCol()
      modifies this
      ensures (headers, rows) == ColAdded(old(headers), old(rows))
    {
      headers := headers + [HeaderFor(|headers|)];
      var k := 0;
      while k < |rows|
        invariant 0 <= k <= |rows| == |old(rows)|
        invariant headers == ColAdded(old(headers), old(rows)).0
        invariant forall m :: 0 <= m < k ==> rows[m] == Widen(old(rows)[m])
        invariant forall m :: k <= m < |rows| ==> rows[m] == old(rows)[m]
      {
        rows := rows[k := Widen(rows[k])];
        k := k + 1;
      }
      assert rows == ColAdded(old(headers), old(rows)).1;
    }

    /** The delete-row handler; `deleted` tells whether a row went (and the page saved). */
    method DeleteRow() returns (deleted: bool)
      modifies this
      ensures deleted <==> |old(rows)| > 1
      ensures headers == old(headers)
      ensures rows == RowDeleted(old(rows))
    {
      deleted := |rows| > 1;
      if deleted {
        rows := rows[..|rows| - 1];
      }
    }

    /** The delete-column handler: the last letter, then each row's last cell, stopping at a row with none. */
    method DeleteCol() returns (outcome: ColOutcome)
      modifies this
      ensures (outcome, headers, rows) == ColDeleted(old(headers), old(rows))
    {
      if |headers| <= 1 {
        return Ignored;
      }
      headers := headers[..|headers| - 1];
      ghost var spec := ColDeleted(old(headers), old(rows));
      var k := 0;
      while k < |rows|
        invariant 0 <= k <= |rows| == |old(rows)|
        invariant headers == spec.1
        invariant StuckFrom(old(rows), 0) == StuckFrom(old(rows), k)
        invariant forall m :: 0 <= m < k ==> rows[m] == spec.2[m]
        invariant forall m :: k <= m < |rows| ==> rows[m] == old(rows)[m]
      {
        var dropped := DropLast(rows[k]);
        if dropped.None? {
          assert StuckFrom(old(rows), k) == Some(k);
          assert rows == spec.2;
          return Aborted(k);
        }
        assert StuckFrom(old(rows), k) == StuckFrom(old(rows), k + 1);
        assert spec.2[k] == dropped.value;
        rows := rows[k := dropped.value];
        k := k + 1;
      }
      assert rows == spec.2;
      return Removed;
    }

    /** Typing into an input: the one cell takes the new value. */
    method SetCell(r: nat, c: nat, value: string)
      requires r < |rows| && c < |rows[r].cells|
      modifies this
      ensures headers == old(headers)
      ensures rows == old(rows)[r := Row(old(rows)[r].index, old(rows)[r].cells[c := value])]
    {
      rows := rows[r := Row(rows[r].index, rows[r].cells[c := value])];
    }

    /** Emptying the body (`innerHTML = ''`). */
    method Clear()
      modifies this
      ensures headers == old(headers) && rows == []
    {
      rows := [];
    }

    /** A CSV import's rebuild of the body: emptied, then one numbered row per parsed line; the header stays. */
    method Rebuild(data: seq<seq<string>>)
      modifies this
      ensures headers == old(headers)
      ensures rows == Numbered(data)
    {
      rows := [];
      var k := 0;
      while k < |data|
        invariant 0 <= k <= |data|
        invariant headers == old(headers)
        invariant rows == Numbered(data[..k])
      {
        rows := rows + [Row(Some(k + 1), data[k])];
        k := k + 1;
      }
      assert data[..k] == data;
    }

    /** `saveSpreadsheetData`'s pass: every row's input values, collected cell by cell. */
    method Collect() returns (data: seq<seq<string>>)
      ensures data == CellsOf(rows)
    {
      data := [];
      var k := 0;
      while k < |rows|
        invariant 0 <= k <= |rows|
        invariant data == CellsOf(rows[..k])
      {
        var rowData: seq<string> := [];
        var m := 0;
        while m < |rows[k].cells|
          invariant 0 <= m <= |rows[k].cells|
          invariant rowData == rows[k].cells[..m]
        {
          rowData := rowData + [rows[k].cells[m]];
          m := m + 1;
        }
        assert rowData == rows[k].cells;
        assert rows[..k + 1] == rows[..k] + [rows[k]];
        assert CellsOf(rows[..k + 1]) == CellsOf(rows[..k]) + [rows[k].cells];
        data := data + [rowData];
        k := k + 1;
      }
      assert rows[..k] == rows;
    }
  }
}
