/**
 * The `has-th` check: a row-major scan of a table's cells that records every TH cell as a
 * related node and passes when there is at least one.
 */
module HasTh {
  import opened JsValues

  /** A table cell: an opaque element handle and its node name. */
  datatype Cell = Cell(handle: nat, nodeName: string)

  /** A table as its rows, each row as its cells, in document order. */
  type Table = seq<seq<Cell>>

  predicate IsTh(c: Cell) {
    c.nodeName == "TH"
  }

  /** The TH cells of a row, in order. */
  function RowTh(row: seq<Cell>): (r: seq<Cell>)
    ensures |r| <= |row|
    ensures forall k :: 0 <= k < |r| ==> IsTh(r[k])
  {
    if |row| == 0 then []
    else RowTh(row[..|row| - 1]) + (if IsTh(row[|row| - 1]) then [row[|row| - 1]] else [])
  }

  /** The TH cells of a table in row-major order. */
  function ThCells(t: Table): (r: seq<Cell>)
    ensures forall k :: 0 <= k < |r| ==> IsTh(r[k])
  {
    if |t| == 0 then []
    else ThCells(t[..|t| - 1]) + RowTh(t[|t| - 1])
  }

  /** A cell is among a row's TH cells iff it is a TH cell of that row. */
  lemma {:induction false} RowThMembers(row: seq<Cell>, c: Cell)
    ensures c in RowTh(row) <==> IsTh(c) && c in row
  {
    if |row| > 0 {
      var init := row[..|row| - 1];
      RowThMembers(init, c);
      assert row == init + [row[|row| - 1]];
    }
  }

  /** A cell is among a table's TH cells iff it is a TH cell of some row. */
  lemma {:induction false} ThCellsMembers(t: Table, c: Cell)
    ensures c in ThCells(t) <==> IsTh(c) && exists i :: 0 <= i < |t| && c in t[i]
  {
    if |t| > 0 {
      var init := t[..|t| - 1];
      ThCellsMembers(init, c);
      RowThMembers(t[|t| - 1], c);
      assert forall i :: 0 <= i < |init| ==> init[i] == t[i];
    }
  }

  /** A table has a TH cell iff its list of TH cells is not empty. */
  lemma ThCellsEmpty(t: Table)
    ensures |ThCells(t)| == 0 <==> forall i, j :: 0 <= i < |t| && 0 <= j < |t[i]| ==> !IsTh(t[i][j])
  {
    if |ThCells(t)| > 0 {
      var c := ThCells(t)[0];
      ThCellsMembers(t, c);
    } else {
      forall i, j | 0 <= i < |t| && 0 <= j < |t[i]|
        ensures !IsTh(t[i][j])
      {
        ThCellsMembers(t, t[i][j]);
      }
    }
  }

  /**
   * The check body: collects the TH cells row by row, cell by cell; when there are any, they
   * become the related nodes and the check passes, otherwise nothing is recorded and it fails.
   */
  method Evaluate(t: Table) returns (result: bool, related: Option<seq<Cell>>)
    ensures result <==> exists i, j :: 0 <= i < |t| && 0 <= j < |t[i]| && IsTh(t[i][j])
    ensures related.Some? <==> result
    ensures related.Some? ==> related.value == ThCells(t)
    ensures related.Some? ==> forall k :: 0 <= k < |related.value| ==> IsTh(related.value[k])
  {
    var badCells: seq<Cell> := [];
    var rowIndex := 0;
    while rowIndex < |t|
      invariant 0 <= rowIndex <= |t|
      invariant badCells == ThCells(t[..rowIndex])
    {
      var row := t[rowIndex];
      var cellIndex := 0;
      while cellIndex < |row|
        invariant 0 <= cellIndex <= |row|
        invariant badCells == ThCells(t[..rowIndex]) + RowTh(row[..cellIndex])
      {
        if row[cellIndex].nodeName == "TH" {
          badCells := badCells + [row[cellIndex]];
        }
        assert row[..cellIndex + 1][..cellIndex] == row[..cellIndex];
        cellIndex := cellIndex + 1;
      }
      assert row[..cellIndex] == row;
      assert t[..rowIndex + 1][..rowIndex] == t[..rowIndex];
      rowIndex := rowIndex + 1;
    }
    assert t[..rowIndex] == t;
    ThCellsEmpty(t);
    if |badCells| > 0 {
      related := Some(badCells);
      result := true;
    } else {
      related := None;
      result := false;
    }
  }
}
