/** The live puzzle session: the grid as a mutable square array, the shape list
    and the selection, with the operations the player triggers. Each operation
    is proved to leave exactly the state the pure model of the move describes. */
module Engine {
  import opened Board
  import opened Zones
  import opened Validation
  import opened Shapes
  import opened Moves
  import opened Solution
  import opened Progress

  /** A shape as a level lists it. */
  datatype ShapeDef = ShapeDef(id: int, cells: seq<Pos>, values: seq<int>)

  /** A level: the grid size, its zones, its shapes and, optionally, an authored solution. */
  datatype Level = Level(size: nat, zones: seq<ZoneDef>, shapes: seq<ShapeDef>, solution: Option<seq<Step>>)

  /** Every level shape as a new session starts it: unplaced, at angle 0, with its offsets and values. */
  function InitialShapes(defs: seq<ShapeDef>): (r: seq<Shape>)
    ensures |r| == |defs|
    ensures forall i | 0 <= i < |defs| ::
      r[i] == Shape(defs[i].id, defs[i].cells, defs[i].values, 0, None)
  {
    seq(|defs|, i requires 0 <= i < |defs| => Shape(defs[i].id, defs[i].cells, defs[i].values, 0, None))
  }

  /** What showing the solution did. */
  datatype Shown = NoSolution | OffGrid | Shown

  /** The grid an array holds, row by row. */
  function Snapshot(a: array2<Cell>): (g: Grid)
    requires a.Length0 == a.Length1
    reads a
    ensures |g| == a.Length0
    ensures forall i, j | 0 <= i < a.Length0 && 0 <= j < a.Length1 :: g[i][j] == a[i, j]
  {
    seq(a.Length0, i requires 0 <= i < a.Length0 reads a =>
      seq(a.Length1, j requires 0 <= j < a.Length1 reads a => a[i, j]))
  }

  /** One array write is one SetCell on the snapshot. */
  lemma SnapshotAfterWrite(a: array2<Cell>, before: Grid, p: Pos, c: Cell)
    requires a.Length0 == a.Length1 == |before| && InGrid(before, p)
    requires a[p.row, p.col] == c
    requires forall i, j | 0 <= i < a.Length0 && 0 <= j < a.Length1 && (i != p.row || j != p.col) ::
      a[i, j] == before[i][j]
    ensures Snapshot(a) == SetCell(before, p, c)
  {
    var g := Snapshot(a);
    var h := SetCell(before, p, c);
    forall q | InGrid(g, q) ensures At(g, q) == At(h, q) {
      if q != p {
        assert At(h, q) == At(before, q);
      }
    }
    GridExt(g, h);
  }

  lemma SnapshotEmpty(a: array2<Cell>)
    requires a.Length0 == a.Length1
    requires forall i, j | 0 <= i < a.Length0 && 0 <= j < a.Length1 :: a[i, j] == Empty
    ensures Snapshot(a) == EmptyGrid(a.Length0)
  {
    GridExt(Snapshot(a), EmptyGrid(a.Length0));
  }

  /** The completion check's count of non-empty cells. */
  method CountFilled(a: array2<Cell>) returns (n: nat)
    requires a.Length0 == a.Length1
    ensures n == FilledCount(Snapshot(a))
  {
    ghost var g := Snapshot(a);
    n := 0;
    var i := 0;
    while i < a.Length0
      invariant 0 <= i <= a.Length0
      invariant n == FilledCount(g[..i])
    {
      var j := 0;
      while j < a.Length1
        invariant 0 <= j <= a.Length1
        invariant n == FilledCount(g[..i]) + RowFilled(g[i][..j])
      {
        if a[i, j] != Empty {
          n := n + 1;
        }
        assert g[i][..j + 1][..j] == g[i][..j];
        j := j + 1;
      }
      assert g[i][..a.Length1] == g[i];
      assert g[..i + 1][..i] == g[..i];
      i := i + 1;
    }
    assert g[..a.Length0] == g;
  }

  /** The placement test of placeShape: every cell inside the grid and empty. */
  method CanPlace(a: array2<Cell>, at: Pos, cells: seq<Pos>) returns (canPlace: bool)
    requires a.Length0 == a.Length1
    ensures canPlace <==> Fits(Snapshot(a), at, cells)
  {
    ghost var g := Snapshot(a);
    canPlace := true;
    var k := 0;
    while k < |cells|
      invariant 0 <= k <= |cells|
      invariant canPlace <==> Fits(g, at, cells[..k])
    {
      var r, c := at.row + cells[k].row, at.col + cells[k].col;
      if r < 0 || r >= a.Length0 || c < 0 || c >= a.Length0 {
        canPlace := false;
      } else if a[r, c] != Empty {
        canPlace := false;
      }
      assert cells[..k + 1] == cells[..k] + [cells[k]];
      k := k + 1;
    }
    assert cells[..|cells|] == cells;
  }

  /** The write loop of placeShape. */
  method WriteShape(a: array2<Cell>, at: Pos, cells: seq<Pos>, values: seq<int>)
    requires a.Length0 == a.Length1 && |values| == |cells|
    requires FootprintInGrid(Snapshot(a), at, cells)
    modifies a
    ensures Snapshot(a) == WriteCells(old(Snapshot(a)), at, cells, values)
  {
    ghost var g := Snapshot(a);
    var k := 0;
    while k < |cells|
      invariant 0 <= k <= |cells|
      invariant FootprintInGrid(g, at, cells[..k])
      invariant Snapshot(a) == WriteCells(g, at, cells[..k], values[..k])
    {
      WriteOne(a, g, at, cells, values, k);
      k := k + 1;
    }
    assert cells[..|cells|] == cells && values[..|values|] == values;
  }

  /** The clear loop of removeShape: only coordinates inside the grid are cleared. */
  method ClearShape(a: array2<Cell>, at: Pos, cells: seq<Pos>)
    requires a.Length0 == a.Length1
    modifies a
    ensures Snapshot(a) == ClearCells(old(Snapshot(a)), at, cells)
  {
    ghost var g := Snapshot(a);
    var k := 0;
    while k < |cells|
      invariant 0 <= k <= |cells|
      invariant Snapshot(a) == ClearCells(g, at, cells[..k])
    {
      ClearOne(a, g, at, cells, k);
      k := k + 1;
    }
    assert cells[..|cells|] == cells;
  }

  /** The rotation loop of showSolution: a quarter turn for every i with i < rotation / 90. */
  method TurnBy(cells: seq<Pos>, rotation: int) returns (turned: seq<Pos>)
    ensures turned == RotateTimes(cells, Turns(rotation))
  {
    turned := cells;
    var t := 0;
    while 90 * t < rotation
      invariant t <= Turns(rotation)
      invariant turned == RotateTimes(cells, t)
      decreases Turns(rotation) - t
    {
      RotateTimesStep(cells, t);
      turned := Rotate(turned);
      t := t + 1;
    }
  }

  /** The write loop of showSolution; it stops at the first cell outside the grid. */
  method WriteSolved(a: array2<Cell>, at: Pos, cells: seq<Pos>, values: seq<int>) returns (ok: bool)
    requires a.Length0 == a.Length1 && |values| == |cells|
    modifies a
    ensures ok <==> FootprintInGrid(old(Snapshot(a)), at, cells)
    ensures ok ==> Snapshot(a) == WriteCells(old(Snapshot(a)), at, cells, values)
  {
    ghost var g := Snapshot(a);
    var k := 0;
    while k < |cells|
      invariant 0 <= k <= |cells|
      invariant FootprintInGrid(g, at, cells[..k])
      invariant Snapshot(a) == WriteCells(g, at, cells[..k], values[..k])
    {
      var r, c := at.row + cells[k].row, at.col + cells[k].col;
      if !(0 <= r < a.Length0 && 0 <= c < a.Length0) {
        assert !InGrid(g, Offset(at, cells[k]));
        ok := false;
        return;
      }
      WriteOne(a, g, at, cells, values, k);
      k := k + 1;
    }
    assert cells[..|cells|] == cells && values[..|values|] == values;
    ok := true;
  }

  /** One iteration of a write loop: the next offset's cell gets its value. */
  method WriteOne(a: array2<Cell>, ghost g: Grid, at: Pos, cells: seq<Pos>, values: seq<int>, k: nat)
    requires a.Length0 == a.Length1 == |g| && k < |cells| == |values|
    requires FootprintInGrid(g, at, cells[..k]) && InGrid(g, Offset(at, cells[k]))
    requires Snapshot(a) == WriteCells(g, at, cells[..k], values[..k])
    modifies a
    ensures FootprintInGrid(g, at, cells[..k + 1])
    ensures Snapshot(a) == WriteCells(g, at, cells[..k + 1], values[..k + 1])
  {
    var p := Offset(at, cells[k]);
    WriteStep(g, at, cells, values, k);
    ghost var before := Snapshot(a);
    a[p.row, p.col] := Filled(values[k]);
    SnapshotAfterWrite(a, before, p, Filled(values[k]));
  }

  /** One iteration of the clear loop: the next offset's cell is emptied if it is inside the grid. */
  method ClearOne(a: array2<Cell>, ghost g: Grid, at: Pos, cells: seq<Pos>, k: nat)
    requires a.Length0 == a.Length1 && k < |cells|
    requires Snapshot(a) == ClearCells(g, at, cells[..k])
    modifies a
    ensures Snapshot(a) == ClearCells(g, at, cells[..k + 1])
  {
    assert cells[..k + 1][..k] == cells[..k];
    var r, c := at.row + cells[k].row, at.col + cells[k].col;
    if 0 <= r < a.Length0 && 0 <= c < a.Length0 {
      ghost var before := Snapshot(a);
      a[r, c] := Empty;
      SnapshotAfterWrite(a, before, Pos(r, c), Empty);
    }
  }

  /** One more write of the loop: the footprint so far grows by one in-grid cell, and the
      grid gets that cell's value. */
  lemma WriteStep(g: Grid, at: Pos, cells: seq<Pos>, values: seq<int>, k: nat)
    requires k < |cells| == |values| && FootprintInGrid(g, at, cells[..k]) && InGrid(g, Offset(at, cells[k]))
    ensures FootprintInGrid(g, at, cells[..k + 1])
    ensures WriteCells(g, at, cells[..k + 1], values[..k + 1]) ==
      SetCell(WriteCells(g, at, cells[..k], values[..k]), Offset(at, cells[k]), Filled(values[k]))
  {
    assert cells[..k + 1] == cells[..k] + [cells[k]];
    assert cells[..k + 1][..k] == cells[..k];
    assert values[..k + 1][..k] == values[..k];
  }

  /** The loop of showSolution over the shapes, writing into a fresh n x n grid; ok is false
      when a solved shape leaves the grid. */
  method BuildSolution(n: nat, shapes: seq<Shape>, steps: seq<Step>) returns (a: array2<Cell>, solved: seq<Shape>, ok: bool)
    requires WellFormed(shapes)
    ensures fresh(a) && a.Length0 == n && a.Length1 == n
    ensures ok <==> SolutionGrid(n, shapes, steps).Some?
    ensures ok ==> SolutionGrid(n, shapes, steps) == Some(Snapshot(a)) && solved == SolvedShapes(shapes, steps)
  {
    ghost var all := SolvedShapes(shapes, steps);
    a := new Cell[n, n]((i, j) => Empty);
    SnapshotEmpty(a);
    solved := [];
    var k := 0;
    while k < |shapes|
      invariant 0 <= k <= |shapes|
      invariant solved == all[..k] && WellFormed(solved)
      invariant Paint(n, solved, steps) == Some(Snapshot(a))
      modifies a
    {
      var t, written := SolveOne(a, shapes[k], steps);
      SolvedPrefix(shapes, steps, k);
      PaintSnoc(n, solved, t, steps);
      if !written {
        PaintStaysNone(n, all, steps, k + 1);
        return a, solved, false;
      }
      solved := solved + [t];
      k := k + 1;
    }
    assert all[..|shapes|] == all;
    ok := true;
  }

  /** The body of showSolution's map for one shape: the shape turned and anchored by its
      step and written into the grid, or kept as it is when it has no step. */
  method SolveOne(a: array2<Cell>, s: Shape, steps: seq<Step>) returns (t: Shape, written: bool)
    requires a.Length0 == a.Length1 && |s.values| == |s.cells|
    modifies a
    ensures t == SolvedShape(s, steps) && |t.values| == |t.cells|
    ensures written <==> PaintOne(old(Snapshot(a)), t, steps).Some?
    ensures written ==> PaintOne(old(Snapshot(a)), t, steps) == Some(Snapshot(a))
  {
    var found := FindStep(steps, s.id);
    if found.None? {
      return s, true;
    }
    var step := found.value;
    var cells := TurnBy(s.cells, step.rotation);
    t := s.(cells := cells, anchor := Some(step.position), rotation := step.rotation);
    written := WriteSolved(a, step.position, cells, s.values);
  }

  /** A level being played. */
  class Puzzle {
    const size: nat
    const index: nat
    const zones: seq<Zone>
    const solution: Option<seq<Step>>
    var grid: array2<Cell>
    var shapes: seq<Shape>
    var selected: Option<int>

    ghost predicate Valid()
      reads this, grid
    {
      && grid.Length0 == size && grid.Length1 == size
      && ZonesInGrid(zones, Snapshot(grid))
      && WellFormed(shapes)
    }

    function State(): Session
      requires grid.Length0 == grid.Length1
      reads this, grid
    {
      Session(Snapshot(grid), shapes, selected)
    }

    /** loadLevel: an empty size x size grid, every shape unplaced at angle 0, the zones
        built by the factory, nothing selected. */
    constructor(level: Level, index: nat)
      requires forall i | 0 <= i < |level.shapes| :: |level.shapes[i].values| == |level.shapes[i].cells|
      requires forall i, k | 0 <= i < |level.zones| && 0 <= k < |level.zones[i].cells| ::
        0 <= level.zones[i].cells[k].row < level.size && 0 <= level.zones[i].cells[k].col < level.size
      ensures Valid() && fresh(grid)
      ensures size == level.size && this.index == index && solution == level.solution
      ensures zones == BuildZones(level.zones)
      ensures State() == Session(EmptyGrid(level.size), InitialShapes(level.shapes), None)
      ensures Consistent(Snapshot(grid), shapes)
    {
      size := level.size;
      this.index := index;
      zones := BuildZones(level.zones);
      solution := level.solution;
      grid := new Cell[level.size, level.size]((i, j) => Empty);
      shapes := InitialShapes(level.shapes);
      selected := None;
      new;
      SnapshotEmpty(grid);
      InitialConsistent(size, shapes);
    }

    /** rotateShape */
    method RotateShape(id: int)
      requires Valid()
      modifies this
      ensures Valid() && grid == old(grid)
      ensures State() == old(State()).(shapes := RotateShapes(old(shapes), id))
    {
      shapes := RotateShapes(shapes, id);
    }

    /** The selection button of the shape list: selecting the selected shape again deselects it. */
    method ToggleSelection(id: int)
      requires Valid()
      modifies this
      ensures Valid() && grid == old(grid)
      ensures State() == old(State()).(selected := if old(selected) == Some(id) then None else Some(id))
    {
      selected := if selected == Some(id) then None else Some(id);
    }

    /** placeShape: checks every cell, then writes every cell, or writes nothing. */
    method PlaceShape(id: int, row: int, col: int) returns (outcome: Outcome)
      requires Valid()
      modifies this, grid
      ensures Valid() && grid == old(grid)
      ensures var m := Place(old(Snapshot(grid)), old(shapes), id, Pos(row, col));
        && outcome == m.outcome
        && State() == Session(m.grid, m.shapes, if m.outcome == Done then None else old(selected))
    {
      var at := Pos(row, col);
      var found := FindShape(shapes, id);
      if found.None? {
        return Ignored;
      }
      var s := shapes[found.value];
      if s.anchor.Some? {
        return Ignored;
      }
      var canPlace := CanPlace(grid, at, s.cells);
      if !canPlace {
        return Blocked;
      }
      WriteShape(grid, at, s.cells, s.values);
      shapes := MarkPlaced(shapes, id, at);
      selected := None;
      outcome := Done;
    }

    /** removeShape: clears the footprint cells that lie inside the grid. */
    method RemoveShape(id: int) returns (outcome: Outcome)
      requires Valid()
      modifies this, grid
      ensures Valid() && grid == old(grid)
      ensures var m := Remove(old(Snapshot(grid)), old(shapes), id);
        outcome == m.outcome && State() == Session(m.grid, m.shapes, old(selected))
    {
      var found := FindShape(shapes, id);
      if found.None? {
        return Ignored;
      }
      var s := shapes[found.value];
      if s.anchor.None? {
        return Ignored;
      }
      ClearShape(grid, s.anchor.value, s.cells);
      shapes := MarkRemoved(shapes, id);
      outcome := Done;
    }

    /** handleCellClick */
    method HandleCellClick(row: int, col: int)
      requires Valid()
      modifies this, grid
      ensures Valid() && grid == old(grid)
      ensures State() == Click(old(State()), Pos(row, col))
    {
      var hit := ShapeAt(shapes, Pos(row, col));
      if hit.Some? {
        var _ := RemoveShape(hit.value.id);
      } else if selected.Some? && selected.value != 0 {
        var _ := PlaceShape(selected.value, row, col);
      }
    }

    /** checkCompletion: counts the filled cells; only a full grid is validated, and a
        valid one is recorded as completed with the elapsed time. */
    method CheckCompletion(manager: GameManager, elapsed: nat) returns (v: Verdict)
      requires Valid() && manager.Valid()
      modifies manager
      ensures manager.Valid()
      ensures v == Judge(Snapshot(grid), zones)
      ensures manager.State() ==
        if v == Solved then Complete(old(manager.State()), index, elapsed) else old(manager.State())
    {
      var n := CountFilled(grid);
      var g := Snapshot(grid);
      if n != size * size {
        v := Incomplete;
      } else {
        var validator := GridValidator(zones);
        if validator.ValidateAll(g) {
          v := Solved;
          manager.CompleteLevel(index, elapsed);
        } else {
          v := Violations(validator.GetInvalidZones(g));
        }
      }
    }

    /** showSolution: each shape with a step is turned by the step's angle from its current
        offsets and written into a fresh grid at the step's position. The board invariant
        Consistent is not part of Valid, because showing a solution can break it: authored
        steps may overlap, and a placed shape without a step keeps its anchor but is not
        painted onto the fresh grid. */
    method ShowSolution() returns (result: Shown)
      requires Valid()
      modifies this
      ensures Valid()
      ensures solution.None? ==> result == NoSolution && State() == old(State()) && grid == old(grid)
      ensures solution.Some? ==>
        match SolutionGrid(size, old(shapes), solution.value)
        case None => result == OffGrid && State() == old(State()) && grid == old(grid)
        case Some(g) =>
          result == Shown && fresh(grid) && State() == Session(g, SolvedShapes(old(shapes), solution.value), None)
    {
      if solution.None? {
        return NoSolution;
      }
      var a, solved, ok := BuildSolution(size, shapes, solution.value);
      if !ok {
        return OffGrid;
      }
      grid := a;
      shapes := solved;
      selected := None;
      result := Shown;
    }
  }
}
