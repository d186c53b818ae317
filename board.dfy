/** The board of the puzzle: positions, cells, square grids as values, and the
    writes and clears that placing and removing a shape perform on them. */
module Board {

  datatype Option<T> = None | Some(value: T)

  /** A (row, col) pair: a grid coordinate, a shape offset or an anchor. */
  datatype Pos = Pos(row: int, col: int)

  /** A grid cell: `null` in the source, or a number. */
  datatype Cell = Empty | Filled(value: int)

  /** A size x size matrix of cells, as the grid state holds it. */
  type Grid = g: seq<seq<Cell>> | forall i | 0 <= i < |g| :: |g[i]| == |g|

  predicate InGrid(g: Grid, p: Pos) {
    0 <= p.row < |g| && 0 <= p.col < |g|
  }

  function At(g: Grid, p: Pos): Cell
    requires InGrid(g, p)
  {
    g[p.row][p.col]
  }

  /** The grid with one cell replaced. */
  function SetCell(g: Grid, p: Pos, c: Cell): (r: Grid)
    requires InGrid(g, p)
    ensures |r| == |g|
    ensures At(r, p) == c
    ensures forall q | InGrid(g, q) && q != p :: At(r, q) == At(g, q)
  {
    g[p.row := g[p.row][p.col := c]]
  }

  /** Two grids of one size that agree on every cell are the same grid. */
  lemma GridExt(a: Grid, b: Grid)
    requires |a| == |b|
    requires forall p | InGrid(a, p) :: At(a, p) == At(b, p)
    ensures a == b
  {
    forall i | 0 <= i < |a|
      ensures a[i] == b[i]
    {
      forall j | 0 <= j < |a|
        ensures a[i][j] == b[i][j]
      {
        assert At(a, Pos(i, j)) == At(b, Pos(i, j));
      }
    }
  }

  /** The grid a level starts with: every cell empty. */
  function EmptyGrid(n: nat): (g: Grid)
    ensures |g| == n
    ensures forall p | InGrid(g, p) :: At(g, p) == Empty
  {
    seq(n, i => seq(n, j => Empty))
  }

  ghost predicate Full(g: Grid) {
    forall p | InGrid(g, p) :: At(g, p).Filled?
  }

  // ---------------------------------------------------------------------------
  // Counting filled cells, as the completion check does

  function RowFilled(row: seq<Cell>): nat {
    if row == [] then 0
    else RowFilled(row[..|row| - 1]) + (if row[|row| - 1].Filled? then 1 else 0)
  }

  function FilledCount(rows: seq<seq<Cell>>): nat {
    if rows == [] then 0
    else FilledCount(rows[..|rows| - 1]) + RowFilled(rows[|rows| - 1])
  }

  lemma {:induction false} RowFilledBound(row: seq<Cell>)
    ensures RowFilled(row) <= |row|
    ensures RowFilled(row) == |row| <==> forall j | 0 <= j < |row| :: row[j].Filled?
  {
    if row != [] {
      var n := |row| - 1;
      RowFilledBound(row[..n]);
      assert forall j | 0 <= j < n :: row[..n][j] == row[j];
    }
  }

  lemma {:induction false} FilledCountBound(rows: seq<seq<Cell>>, n: nat)
    requires forall i | 0 <= i < |rows| :: |rows[i]| == n
    ensures FilledCount(rows) <= |rows| * n
    ensures FilledCount(rows) == |rows| * n <==>
              forall i, j | 0 <= i < |rows| && 0 <= j < n :: rows[i][j].Filled?
  {
    if rows != [] {
      var k := |rows| - 1;
      var pre := rows[..k];
      assert forall i | 0 <= i < k :: pre[i] == rows[i];
      FilledCountBound(pre, n);
      RowFilledBound(rows[k]);
      assert FilledCount(rows) == FilledCount(pre) + RowFilled(rows[k]);
      MulStep(k, n);
      if FilledCount(rows) == |rows| * n {
        assert FilledCount(pre) == k * n && RowFilled(rows[k]) == n;
      }
    }
  }

  lemma MulStep(k: nat, n: nat)
    ensures (k + 1) * n == k * n + n
  {
  }

  /** The completion check's test "filled cells == size * size" means the grid is full. */
  lemma FullIffCountIsArea(g: Grid)
    ensures FilledCount(g) <= |g| * |g|
    ensures FilledCount(g) == |g| * |g| <==> Full(g)
  {
    FilledCountBound(g, |g|);
    if FilledCount(g) == |g| * |g| {
      forall p | InGrid(g, p) ensures At(g, p).Filled? {
        assert g[p.row][p.col].Filled?;
      }
    }
    if Full(g) {
      forall i, j | 0 <= i < |g| && 0 <= j < |g| ensures g[i][j].Filled? {
        assert At(g, Pos(i, j)).Filled?;
      }
    }
  }

  // ---------------------------------------------------------------------------
  // Writing and clearing a shape's cells

  /** The grid coordinate of an offset taken from an anchor. */
  function Offset(at: Pos, c: Pos): Pos {
    Pos(at.row + c.row, at.col + c.col)
  }

  predicate FootprintInGrid(g: Grid, at: Pos, cells: seq<Pos>) {
    forall k | 0 <= k < |cells| :: InGrid(g, Offset(at, cells[k]))
  }

  /** Every cell lands inside the grid on an empty cell: the placement test. */
  predicate Fits(g: Grid, at: Pos, cells: seq<Pos>) {
    forall k | 0 <= k < |cells| ::
      InGrid(g, Offset(at, cells[k])) && At(g, Offset(at, cells[k])) == Empty
  }

  /** Writes values[k] at anchor + cells[k], for k in increasing order. */
  function WriteCells(g: Grid, at: Pos, cells: seq<Pos>, values: seq<int>): (r: Grid)
    requires |values| == |cells| && FootprintInGrid(g, at, cells)
    ensures |r| == |g|
    decreases |cells|
  {
    if cells == [] then g
    else
      var n := |cells| - 1;
      SetCell(WriteCells(g, at, cells[..n], values[..n]), Offset(at, cells[n]), Filled(values[n]))
  }

  /** Clears anchor + cells[k] for every k whose coordinate is inside the grid. */
  function ClearCells(g: Grid, at: Pos, cells: seq<Pos>): (r: Grid)
    ensures |r| == |g|
    decreases |cells|
  {
    if cells == [] then g
    else
      var n := |cells| - 1;
      var h := ClearCells(g, at, cells[..n]);
      if InGrid(h, Offset(at, cells[n])) then SetCell(h, Offset(at, cells[n]), Empty) else h
  }

  predicate Covered(at: Pos, cells: seq<Pos>, p: Pos) {
    exists k | 0 <= k < |cells| :: Offset(at, cells[k]) == p
  }

  /** A write leaves every cell outside the footprint as it was. */
  lemma {:induction false} WriteCellsElsewhere(g: Grid, at: Pos, cells: seq<Pos>, values: seq<int>, p: Pos)
    requires |values| == |cells| && FootprintInGrid(g, at, cells)
    requires InGrid(g, p) && !Covered(at, cells, p)
    ensures At(WriteCells(g, at, cells, values), p) == At(g, p)
    decreases |cells|
  {
    if cells != [] {
      var n := |cells| - 1;
      assert Offset(at, cells[n]) != p;
      assert !Covered(at, cells[..n], p) by {
        forall k | 0 <= k < n ensures Offset(at, cells[..n][k]) != p {
          assert cells[..n][k] == cells[k];
        }
      }
      WriteCellsElsewhere(g, at, cells[..n], values[..n], p);
    }
  }

  /** A footprint cell holds the value of the last offset that lands on it. */
  lemma {:induction false} WriteCellsLastWins(g: Grid, at: Pos, cells: seq<Pos>, values: seq<int>, k: nat)
    requires |values| == |cells| && FootprintInGrid(g, at, cells)
    requires k < |cells|
    requires forall j | k < j < |cells| :: cells[j] != cells[k]
    ensures At(WriteCells(g, at, cells, values), Offset(at, cells[k])) == Filled(values[k])
    decreases |cells|
  {
    var n := |cells| - 1;
    if k < n {
      assert Offset(at, cells[n]) != Offset(at, cells[k]);
      assert cells[..n][k] == cells[k] && values[..n][k] == values[k];
      WriteCellsLastWins(g, at, cells[..n], values[..n], k);
    }
  }

  /** After a write every footprint cell holds a value. */
  lemma {:induction false} WriteCellsCovered(g: Grid, at: Pos, cells: seq<Pos>, values: seq<int>, p: Pos)
    requires |values| == |cells| && FootprintInGrid(g, at, cells)
    requires InGrid(g, p) && Covered(at, cells, p)
    ensures At(WriteCells(g, at, cells, values), p).Filled?
    decreases |cells|
  {
    var n := |cells| - 1;
    if Offset(at, cells[n]) != p {
      var k :| 0 <= k < |cells| && Offset(at, cells[k]) == p;
      assert cells[..n][k] == cells[k];
      WriteCellsCovered(g, at, cells[..n], values[..n], p);
    }
  }

  /** A clear leaves every cell outside the footprint as it was. */
  lemma {:induction false} ClearCellsElsewhere(g: Grid, at: Pos, cells: seq<Pos>, p: Pos)
    requires InGrid(g, p) && !Covered(at, cells, p)
    ensures At(ClearCells(g, at, cells), p) == At(g, p)
    decreases |cells|
  {
    if cells != [] {
      var n := |cells| - 1;
      assert !Covered(at, cells[..n], p) by {
        forall k | 0 <= k < n ensures Offset(at, cells[..n][k]) != p {
          assert cells[..n][k] == cells[k];
        }
      }
      ClearCellsElsewhere(g, at, cells[..n], p);
    }
  }

  /** A clear empties every footprint cell inside the grid. */
  lemma {:induction false} ClearCellsCovered(g: Grid, at: Pos, cells: seq<Pos>, p: Pos)
    requires InGrid(g, p) && Covered(at, cells, p)
    ensures At(ClearCells(g, at, cells), p) == Empty
    decreases |cells|
  {
    var n := |cells| - 1;
    if Offset(at, cells[n]) != p {
      var k :| 0 <= k < |cells| && Offset(at, cells[k]) == p;
      assert cells[..n][k] == cells[k];
      ClearCellsCovered(g, at, cells[..n], p);
    }
  }

  /** Clearing the cells just written onto a fitting footprint gives back the grid. */
  lemma RemoveRestores(g: Grid, at: Pos, cells: seq<Pos>, values: seq<int>)
    requires |values| == |cells| && Fits(g, at, cells)
    ensures ClearCells(WriteCells(g, at, cells, values), at, cells) == g
  {
    var w := WriteCells(g, at, cells, values);
    var r := ClearCells(w, at, cells);
    forall p | InGrid(r, p) ensures At(r, p) == At(g, p) {
      if Covered(at, cells, p) {
        var k :| 0 <= k < |cells| && Offset(at, cells[k]) == p;
        ClearCellsCovered(w, at, cells, p);
      } else {
        ClearCellsElsewhere(w, at, cells, p);
        WriteCellsElsewhere(g, at, cells, values, p);
      }
    }
    GridExt(r, g);
  }
}
