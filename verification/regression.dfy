/**
 The compressed-row arrays of the 4-by-4 "arrow" matrix used by the
 regression tests, and of a 2-by-2 matrix whose pattern is not symmetric,
 worked out from the specification functions.
 */
module Regression {
  import opened Pattern

  /** Row 0 and column 0 full, plus the diagonal. */
  const Arrow: seq<seq<int>> := [[1, 1, 1, 1], [1, 1, 0, 0], [1, 0, 1, 0], [1, 0, 0, 1]]

  /** The arrow matrix as read from an integer buffer. */
  function ArrowAt(i: nat, j: nat): Entry
  {
    if i < 4 && j < 4 && (i == 0 || j == 0 || i == j) then Nonzero else Zero
  }

  /** ArrowAt reads the literal matrix: nonzero exactly where it holds a nonzero. */
  lemma ArrowAtReadsArrow(i: nat, j: nat)
    requires i < 4 && j < 4
    ensures ArrowAt(i, j) == Nonzero <==> Arrow[i][j] != 0
    ensures ArrowAt(i, j) != Invalid
  {
  }

  /** The nonzero columns of each row of the arrow matrix. */
  lemma ArrowRows()
    ensures RowColumns(ArrowAt, 0, 4) == [0, 1, 2, 3]
    ensures RowColumns(ArrowAt, 1, 4) == [0, 1]
    ensures RowColumns(ArrowAt, 2, 4) == [0, 2]
    ensures RowColumns(ArrowAt, 3, 4) == [0, 3]
  {
  }

  /** The column-index array after each row of the arrow matrix. */
  lemma ArrowColumns()
    ensures Columns(ArrowAt, 4, 1) == [0, 1, 2, 3]
    ensures Columns(ArrowAt, 4, 2) == [0, 1, 2, 3, 0, 1]
    ensures Columns(ArrowAt, 4, 3) == [0, 1, 2, 3, 0, 1, 0, 2]
    ensures Columns(ArrowAt, 4, 4) == [0, 1, 2, 3, 0, 1, 0, 2, 0, 3]
  {
    ArrowRows();
  }

  /** The arrays handed to the ordering keep every diagonal entry. */
  lemma ArrowCompressed()
    ensures RowPointers(ArrowAt, 4) == [0, 4, 6, 8, 10]
    ensures Columns(ArrowAt, 4, 4) == [0, 1, 2, 3, 0, 1, 0, 2, 0, 3]
  {
    ArrowColumns();
  }

  /** A 2-by-2 matrix whose only nonzero, (0, 1), has a zero mirror entry. */
  const Corner: seq<seq<int>> := [[0, 1], [0, 0]]

  /** The corner matrix as read from an integer buffer. */
  function CornerAt(i: nat, j: nat): Entry
  {
    if i == 0 && j == 1 then Nonzero else Zero
  }

  /** CornerAt reads the literal matrix: nonzero exactly where it holds a nonzero. */
  lemma CornerAtReadsCorner(i: nat, j: nat)
    requires i < 2 && j < 2
    ensures CornerAt(i, j) == Nonzero <==> Corner[i][j] != 0
    ensures CornerAt(i, j) != Invalid
  {
  }

  /** The conversion does not symmetrise: (0, 1) is listed and (1, 0) is not. */
  lemma CornerCompressed()
    ensures RowPointers(CornerAt, 2) == [0, 1, 1]
    ensures Columns(CornerAt, 2, 2) == [1]
  {
    assert RowColumns(CornerAt, 0, 2) == [1];
    assert RowColumns(CornerAt, 1, 2) == [];
  }
}
