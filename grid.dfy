/** The score matrix and the cells the base search passes between its stages. */
module Grid {
  import opened Sorting

  /** A cell as the search carries it: the tuple (value, row, col). */
  datatype Cell = Cell(v: int, r: int, c: int)

  /** A row-major score matrix (a numpy 2-D array of int8 scores; -1 marks "not buildable"). */
  type Matrix = seq<seq<int>>

  /** `0 <= r < linii and 0 <= c < coloane`; for a rectangular matrix |mat[r]| is the column count. */
  predicate InBounds(mat: Matrix, r: int, c: int) {
    0 <= r < |mat| && 0 <= c < |mat[r]|
  }

  /** `x` is the cell (mat[r][c], r, c) of the matrix. */
  predicate CellOf(mat: Matrix, x: Cell) {
    InBounds(mat, x.r, x.c) && x.v == mat[x.r][x.c]
  }

  function Pos(x: Cell): (int, int) {
    (x.r, x.c)
  }

  function Abs(x: int): nat {
    if x < 0 then -x else x
  }

  /** 4-neighbourhood: one step up, down, left or right. */
  predicate Adjacent(x: Cell, y: Cell) {
    Abs(x.r - y.r) + Abs(x.c - y.c) == 1
  }

  /** The four offsets the region grower walks, in its order. */
  const Offsets: seq<(int, int)> := [(0, 1), (0, -1), (1, 0), (-1, 0)]

  /** Chebyshev distance between the positions of two cells. */
  function Chebyshev(x: Cell, y: Cell): nat {
    var dr := Abs(x.r - y.r);
    var dc := Abs(x.c - y.c);
    if dr < dc then dc else dr
  }

  /** The cells of row `i`, left to right. */
  function RowCells(mat: Matrix, i: nat): (cells: seq<Cell>)
    requires i < |mat|
    ensures |cells| == |mat[i]|
    ensures forall j :: 0 <= j < |cells| ==> cells[j] == Cell(mat[i][j], i, j)
  {
    seq(|mat[i]|, j requires 0 <= j < |mat[i]| => Cell(mat[i][j], i, j))
  }

  /** `mat.ravel()` from row `i` on, each entry paired with its coordinates. */
  function RavelFrom(mat: Matrix, i: nat): (cells: seq<Cell>)
    requires i <= |mat|
    ensures forall x :: x in cells <==> CellOf(mat, x) && i <= x.r
    decreases |mat| - i
  {
    if i == |mat| then []
    else
      var row := RowCells(mat, i);
      var rest := RavelFrom(mat, i + 1);
      assert forall x :: x in row <==> CellOf(mat, x) && x.r == i by {
        forall x | CellOf(mat, x) && x.r == i ensures x in row {
          assert row[x.c] == x;
        }
      }
      row + rest
  }

  /** The flattened matrix: every cell, in row-major order. */
  function Ravel(mat: Matrix): (cells: seq<Cell>)
    ensures forall x :: x in cells <==> CellOf(mat, x)
  {
    RavelFrom(mat, 0)
  }

  /** No cell occurs twice in a flattened matrix: cells of one row differ in column, of two rows in row. */
  lemma {:induction false} RavelFromDistinct(mat: Matrix, i: nat)
    requires i <= |mat|
    ensures Distinct(RavelFrom(mat, i))
    decreases |mat| - i
  {
    if i < |mat| {
      RavelFromDistinct(mat, i + 1);
      var row, rest := RowCells(mat, i), RavelFrom(mat, i + 1);
      assert RavelFrom(mat, i) == row + rest;
      assert Distinct(row) by {
        forall a, b | 0 <= a < b < |row| ensures row[a] != row[b] {
          assert row[a].c == a && row[b].c == b;
        }
      }
      forall x | x in row ensures x !in rest {
        assert x.r == i;
      }
      DistinctAppend(row, rest);
    }
  }

  /** Sum of the values of a list of cells (`sum(celula[0] for celula in configuratie)`). */
  function SumValues(cells: seq<Cell>): int {
    if cells == [] then 0 else cells[0].v + SumValues(cells[1..])
  }
}
