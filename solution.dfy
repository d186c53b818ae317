/** The authored solution of a level and what showing it produces: every shape
    that has a step is turned, anchored and written into a fresh grid. */
module Solution {
  import opened Board
  import opened Shapes

  /** One entry of a level's solution: where a shape goes and at which angle. */
  datatype Step = Step(shapeId: int, position: Pos, rotation: int)

  /** The first solution step naming the shape's id, if any. */
  function FindStep(steps: seq<Step>, id: int): (r: Option<Step>)
    ensures r.None? <==> forall i | 0 <= i < |steps| :: steps[i].shapeId != id
    ensures r.Some? ==> exists i | 0 <= i < |steps| ::
      steps[i] == r.value && r.value.shapeId == id && forall j | 0 <= j < i :: steps[j].shapeId != id
  {
    if steps == [] then None
    else if steps[0].shapeId == id then Some(steps[0])
    else
      var r := FindStep(steps[1..], id);
      assert forall i | 1 <= i < |steps| :: steps[1..][i - 1] == steps[i];
      r
  }

  /** How many quarter turns the solution applies for an angle: one for every counter i
      from 0 with 90 * i below the angle (the angle divided by 90, rounded up when positive). */
  function Turns(rotation: int): (n: nat)
    ensures forall i: nat | i < n :: 90 * i < rotation
    ensures 90 * n >= rotation
  {
    if rotation <= 0 then 0 else (rotation + 89) / 90
  }

  /** n quarter turns in a row. */
  function RotateTimes(cells: seq<Pos>, n: nat): (r: seq<Pos>)
    ensures |r| == |cells|
    decreases n
  {
    if n == 0 then cells else RotateTimes(Rotate(cells), n - 1)
  }

  /** The last of n + 1 turns is one more quarter turn of the first n. */
  lemma {:induction false} RotateTimesStep(cells: seq<Pos>, n: nat)
    ensures RotateTimes(cells, n + 1) == Rotate(RotateTimes(cells, n))
    decreases n
  {
    var turned := Rotate(cells);
    if n == 0 {
      assert RotateTimes(turned, 0) == turned;
    } else {
      RotateTimesStep(turned, n - 1);
      assert RotateTimes(cells, n) == RotateTimes(turned, n - 1);
    }
  }

  /** For normalized offsets four more turns change nothing: only the number of turns
      modulo four matters. */
  lemma {:induction false} RotateTimesPeriodic(cells: seq<Pos>, n: nat)
    requires Normalized(cells)
    ensures RotateTimes(cells, n + 4) == RotateTimes(cells, n)
    decreases n
  {
    if n == 0 {
      FourTimes(cells);
    } else {
      var turned := Rotate(cells);
      if cells != [] {
        RotateNormalized(cells);
      }
      RotateTimesPeriodic(turned, n - 1);
      assert RotateTimes(cells, n + 4) == RotateTimes(turned, n - 1 + 4);
    }
  }

  /** Only the number of turns modulo four matters for normalized offsets. */
  lemma {:induction false} RotateTimesMod(cells: seq<Pos>, n: nat)
    requires Normalized(cells)
    ensures RotateTimes(cells, n) == RotateTimes(cells, n % 4)
    decreases n
  {
    if n >= 4 {
      var m: nat := n - 4;
      var r := n % 4;
      assert m % 4 == r;
      RotateTimesMod(cells, m);
      RotateTimesPeriodic(cells, m);
      calc {
        RotateTimes(cells, n);
        { assert n == m + 4; }
        RotateTimes(cells, m + 4);
        RotateTimes(cells, m);
        RotateTimes(cells, r);
      }
    }
  }

  lemma FourTimes(cells: seq<Pos>)
    requires Normalized(cells)
    ensures RotateTimes(cells, 4) == cells
  {
    var r1 := Rotate(cells);
    var r2 := Rotate(r1);
    var r3 := Rotate(r2);
    var r4 := Rotate(r3);
    assert RotateTimes(r4, 0) == r4;
    assert RotateTimes(r3, 1) == r4;
    assert RotateTimes(r2, 2) == r4;
    assert RotateTimes(r1, 3) == r4;
    assert RotateTimes(cells, 4) == r4;
    FourTurns(cells);
  }

  lemma {:induction false} NormalizedAfter(cells: seq<Pos>, n: nat)
    requires Normalized(cells)
    ensures Normalized(RotateTimes(cells, n))
    decreases n
  {
    if n == 0 {
      assert RotateTimes(cells, n) == cells;
    } else {
      var turned := Rotate(cells);
      TurnKeepsNormalized(cells);
      NormalizedAfter(turned, n - 1);
      assert RotateTimes(cells, n) == RotateTimes(turned, n - 1);
    }
  }

  /** A quarter turn keeps any offset list normalized, the empty one included. */
  lemma TurnKeepsNormalized(cells: seq<Pos>)
    requires Normalized(cells)
    ensures Normalized(Rotate(cells))
  {
    if cells != [] {
      RotateNormalized(cells);
    }
  }

  /** The shape as the solution shows it: turned from its current offsets, placed at the
      step's position, with the step's angle. */
  function Solved(s: Shape, step: Step): (t: Shape)
    ensures t.id == s.id && t.values == s.values && |t.cells| == |s.cells|
    ensures t.anchor == Some(step.position) && t.rotation == step.rotation
  {
    s.(cells := RotateTimes(s.cells, Turns(step.rotation)), anchor := Some(step.position), rotation := step.rotation)
  }

  /** A solved shape with normalized offsets stays normalized, and its offsets depend only
      on the number of quarter turns modulo four. */
  lemma SolvedCells(s: Shape, step: Step)
    requires Normalized(s.cells)
    ensures Normalized(Solved(s, step).cells)
    ensures Solved(s, step).cells == RotateTimes(s.cells, Turns(step.rotation) % 4)
  {
    NormalizedAfter(s.cells, Turns(step.rotation));
    RotateTimesMod(s.cells, Turns(step.rotation));
  }

  /** The shape list after showing the solution: shapes without a step are kept as they are. */
  function SolvedShapes(shapes: seq<Shape>, steps: seq<Step>): (r: seq<Shape>)
    ensures |r| == |shapes|
    ensures forall i | 0 <= i < |shapes| :: r[i] == SolvedShape(shapes[i], steps)
    ensures WellFormed(shapes) ==> WellFormed(r)
  {
    seq(|shapes|, i requires 0 <= i < |shapes| => SolvedShape(shapes[i], steps))
  }

  /** One shape after showing the solution: Solved by the first step naming its id, and
      kept as it was when no step names it; id, values and the number of offsets stay. */
  function SolvedShape(s: Shape, steps: seq<Step>): (t: Shape)
    ensures t.id == s.id && t.values == s.values && |t.cells| == |s.cells|
    ensures FindStep(steps, s.id).None? ==> t == s
    ensures FindStep(steps, s.id).Some? ==> t == Solved(s, FindStep(steps, s.id).value)
  {
    match FindStep(steps, s.id)
    case None => s
    case Some(step) => Solved(s, step)
  }

  /** Writes, in list order, every shape of an already solved list whose id has a step,
      at the step's position (a later shape overwrites an earlier one); None when some
      cell lands outside the grid. */
  function Paint(n: nat, solved: seq<Shape>, steps: seq<Step>): (r: Option<Grid>)
    requires WellFormed(solved)
    ensures r.Some? ==> |r.value| == n
    decreases |solved|
  {
    if solved == [] then Some(EmptyGrid(n))
    else
      var k := |solved| - 1;
      match Paint(n, solved[..k], steps)
      case None => None
      case Some(g) => PaintOne(g, solved[k], steps)
  }

  /** Paints one solved shape onto g: nothing without a step, None when it leaves the grid. */
  function PaintOne(g: Grid, t: Shape, steps: seq<Step>): (r: Option<Grid>)
    requires |t.values| == |t.cells|
    ensures r.Some? ==> |r.value| == |g|
  {
    match FindStep(steps, t.id)
    case None => Some(g)
    case Some(step) =>
      if FootprintInGrid(g, step.position, t.cells) then Some(WriteCells(g, step.position, t.cells, t.values))
      else None
  }

  /** The grid showing the solution: the solved shapes painted onto an empty n x n grid. */
  function SolutionGrid(n: nat, shapes: seq<Shape>, steps: seq<Step>): (r: Option<Grid>)
    requires WellFormed(shapes)
    ensures r.Some? ==> |r.value| == n
  {
    Paint(n, SolvedShapes(shapes, steps), steps)
  }

  /** Painting one more solved shape paints it onto the grid painted so far. */
  lemma PaintSnoc(n: nat, solved: seq<Shape>, t: Shape, steps: seq<Step>)
    requires WellFormed(solved) && |t.values| == |t.cells|
    ensures WellFormed(solved + [t])
    ensures Paint(n, solved + [t], steps) ==
      if Paint(n, solved, steps).None? then None else PaintOne(Paint(n, solved, steps).value, t, steps)
  {
    var all := solved + [t];
    assert all[..|solved|] == solved;
    assert all[|solved|] == t;
  }

  /** The solved list grows by one solved shape per step of showSolution's map. */
  lemma SolvedPrefix(shapes: seq<Shape>, steps: seq<Step>, k: nat)
    requires k < |shapes|
    ensures SolvedShapes(shapes, steps)[..k + 1] == SolvedShapes(shapes, steps)[..k] + [SolvedShape(shapes[k], steps)]
  {
    var all := SolvedShapes(shapes, steps);
    assert all[..k + 1] == all[..k] + [all[k]];
  }

  /** Once a prefix of a list cannot be painted, neither can the whole list. */
  lemma {:induction false} PaintStaysNone(n: nat, solved: seq<Shape>, steps: seq<Step>, k: nat)
    requires WellFormed(solved) && k <= |solved|
    requires Paint(n, solved[..k], steps).None?
    ensures Paint(n, solved, steps).None?
    decreases |solved| - k
  {
    if k < |solved| {
      assert solved[..k + 1][..k] == solved[..k];
      PaintStaysNone(n, solved, steps, k + 1);
    } else {
      assert solved[..k] == solved;
    }
  }

  /** The solved shape's cells all land inside a grid of size n (true for shapes without a step). */
  predicate SolutionFits(n: nat, s: Shape, steps: seq<Step>) {
    FindStep(steps, s.id).Some? ==>
      var step := FindStep(steps, s.id).value;
      FootprintInGrid(EmptyGrid(n), step.position, Solved(s, step).cells)
  }

  /** An already solved shape lands inside a grid of size n at its step's position. */
  predicate PaintFits(n: nat, t: Shape, steps: seq<Step>) {
    FindStep(steps, t.id).Some? ==> FootprintInGrid(EmptyGrid(n), FindStep(steps, t.id).value.position, t.cells)
  }

  lemma {:induction false} PaintDefined(n: nat, solved: seq<Shape>, steps: seq<Step>)
    requires WellFormed(solved)
    ensures Paint(n, solved, steps).Some? <==> forall i | 0 <= i < |solved| :: PaintFits(n, solved[i], steps)
    decreases |solved|
  {
    if solved != [] {
      var k := |solved| - 1;
      var pre := solved[..k];
      assert forall i | 0 <= i < k :: pre[i] == solved[i];
      PaintDefined(n, pre, steps);
      match Paint(n, pre, steps)
      case None =>
        var i :| 0 <= i < k && !PaintFits(n, pre[i], steps);
        assert !PaintFits(n, solved[i], steps);
      case Some(g) =>
        match FindStep(steps, solved[k].id)
        case None =>
        case Some(step) =>
          var cells := solved[k].cells;
          assert FootprintInGrid(g, step.position, cells) == FootprintInGrid(EmptyGrid(n), step.position, cells);
    }
  }

  /** Showing the solution succeeds exactly when every step keeps its shape inside the grid. */
  lemma SolutionDefined(n: nat, shapes: seq<Shape>, steps: seq<Step>)
    requires WellFormed(shapes)
    ensures SolutionGrid(n, shapes, steps).Some? <==> forall i | 0 <= i < |shapes| :: SolutionFits(n, shapes[i], steps)
  {
    var solved := SolvedShapes(shapes, steps);
    PaintDefined(n, solved, steps);
    forall i | 0 <= i < |shapes| ensures PaintFits(n, solved[i], steps) == SolutionFits(n, shapes[i], steps) {
      match FindStep(steps, shapes[i].id)
      case None =>
      case Some(step) => assert solved[i] == Solved(shapes[i], step);
    }
  }

  /** A solved shape with a step covers p at its step's position. */
  predicate Painted(t: Shape, steps: seq<Step>, p: Pos) {
    FindStep(steps, t.id).Some? && Covered(FindStep(steps, t.id).value.position, t.cells, p)
  }

  ghost predicate ShowsCoverage(g: Grid, solved: seq<Shape>, steps: seq<Step>) {
    forall p | InGrid(g, p) :: At(g, p).Filled? <==> exists i | 0 <= i < |solved| :: Painted(solved[i], steps, p)
  }

  /** A painted grid holds a value exactly where some shape with a step lands. */
  lemma {:induction false} PaintCoverage(n: nat, solved: seq<Shape>, steps: seq<Step>)
    requires WellFormed(solved) && Paint(n, solved, steps).Some?
    ensures ShowsCoverage(Paint(n, solved, steps).value, solved, steps)
    decreases |solved|
  {
    if solved != [] {
      var k := |solved| - 1;
      var pre := solved[..k];
      assert solved == pre + [solved[k]];
      assert forall i | 0 <= i < k :: pre[i] == solved[i];
      PaintCoverage(n, pre, steps);
      var g := Paint(n, pre, steps).value;
      match FindStep(steps, solved[k].id)
      case None =>
        CoverageKeep(g, pre, solved[k], steps);
      case Some(step) =>
        CoverageWrite(g, pre, solved[k], steps);
    }
  }

  /** Which value a painted cell holds: that of the last shape in list order landing on it,
      taken from that shape's last offset landing on it. */
  lemma {:induction false} PaintLastWins(n: nat, solved: seq<Shape>, steps: seq<Step>, i: nat, k: nat)
    requires WellFormed(solved) && Paint(n, solved, steps).Some?
    requires i < |solved| && FindStep(steps, solved[i].id).Some? && k < |solved[i].cells|
    requires forall j | k < j < |solved[i].cells| :: solved[i].cells[j] != solved[i].cells[k]
    requires var p := Offset(FindStep(steps, solved[i].id).value.position, solved[i].cells[k]);
      forall j | i < j < |solved| :: !Painted(solved[j], steps, p)
    ensures var p := Offset(FindStep(steps, solved[i].id).value.position, solved[i].cells[k]);
      0 <= p.row < n && 0 <= p.col < n && At(Paint(n, solved, steps).value, p) == Filled(solved[i].values[k])
    decreases |solved|
  {
    var p := Offset(FindStep(steps, solved[i].id).value.position, solved[i].cells[k]);
    var last := |solved| - 1;
    var pre := solved[..last];
    assert forall j | 0 <= j < last :: pre[j] == solved[j];
    var g := Paint(n, pre, steps).value;
    var t := solved[last];
    if i == last {
      var at := FindStep(steps, t.id).value.position;
      assert FootprintInGrid(g, at, t.cells);
      WriteCellsLastWins(g, at, t.cells, t.values, k);
    } else {
      PaintLastWins(n, pre, steps, i, k);
      assert !Painted(t, steps, p);
      match FindStep(steps, t.id)
      case None =>
      case Some(step) =>
        WriteCellsElsewhere(g, step.position, t.cells, t.values, p);
    }
  }

  /** Which value a cell of the solution grid holds: the paired value of the last offset,
      of the last shape in list order, that its step puts on the cell. */
  lemma SolutionValue(n: nat, shapes: seq<Shape>, steps: seq<Step>, i: nat, k: nat)
    requires WellFormed(shapes) && SolutionGrid(n, shapes, steps).Some?
    requires i < |shapes| && FindStep(steps, shapes[i].id).Some?
    requires var solved := SolvedShapes(shapes, steps);
      && k < |solved[i].cells|
      && (forall j | k < j < |solved[i].cells| :: solved[i].cells[j] != solved[i].cells[k])
      && var p := Offset(FindStep(steps, shapes[i].id).value.position, solved[i].cells[k]);
         forall j | i < j < |shapes| :: !(FindStep(steps, shapes[j].id).Some? && Covers(solved[j], p))
    ensures var solved := SolvedShapes(shapes, steps);
      var p := Offset(FindStep(steps, shapes[i].id).value.position, solved[i].cells[k]);
      0 <= p.row < n && 0 <= p.col < n && At(SolutionGrid(n, shapes, steps).value, p) == Filled(shapes[i].values[k])
  {
    var solved := SolvedShapes(shapes, steps);
    var p := Offset(FindStep(steps, shapes[i].id).value.position, solved[i].cells[k]);
    forall j | i < j < |shapes| ensures !Painted(solved[j], steps, p) {
    }
    PaintLastWins(n, solved, steps, i, k);
  }

  /** The solution grid: a cell holds a value exactly when some shape with a step covers it
      once turned and anchored as its step says. */
  lemma SolutionShowsShapes(n: nat, shapes: seq<Shape>, steps: seq<Step>)
    requires WellFormed(shapes) && SolutionGrid(n, shapes, steps).Some?
    ensures var g := SolutionGrid(n, shapes, steps).value;
      var solved := SolvedShapes(shapes, steps);
      forall p | InGrid(g, p) ::
        At(g, p).Filled? <==> exists i | 0 <= i < |shapes| :: FindStep(steps, shapes[i].id).Some? && Covers(solved[i], p)
  {
    var solved := SolvedShapes(shapes, steps);
    PaintCoverage(n, solved, steps);
    forall i, p | 0 <= i < |shapes|
      ensures Painted(solved[i], steps, p) <==> FindStep(steps, shapes[i].id).Some? && Covers(solved[i], p)
    {
    }
  }

  lemma CoverageKeep(g: Grid, pre: seq<Shape>, t: Shape, steps: seq<Step>)
    requires ShowsCoverage(g, pre, steps) && FindStep(steps, t.id).None?
    ensures ShowsCoverage(g, pre + [t], steps)
  {
    var all := pre + [t];
    forall p | InGrid(g, p) ensures At(g, p).Filled? <==> exists i | 0 <= i < |all| :: Painted(all[i], steps, p) {
      if At(g, p).Filled? {
        var i :| 0 <= i < |pre| && Painted(pre[i], steps, p);
        assert all[i] == pre[i];
      } else {
        forall i | 0 <= i < |all| ensures !Painted(all[i], steps, p) {
          if i < |pre| { assert all[i] == pre[i]; }
        }
      }
    }
  }

  lemma CoverageWrite(g: Grid, pre: seq<Shape>, t: Shape, steps: seq<Step>)
    requires ShowsCoverage(g, pre, steps) && FindStep(steps, t.id).Some? && |t.values| == |t.cells|
    requires FootprintInGrid(g, FindStep(steps, t.id).value.position, t.cells)
    ensures ShowsCoverage(WriteCells(g, FindStep(steps, t.id).value.position, t.cells, t.values), pre + [t], steps)
  {
    var at := FindStep(steps, t.id).value.position;
    var w := WriteCells(g, at, t.cells, t.values);
    var all := pre + [t];
    forall p | InGrid(w, p) ensures At(w, p).Filled? <==> exists i | 0 <= i < |all| :: Painted(all[i], steps, p) {
      if Covered(at, t.cells, p) {
        WriteCellsCovered(g, at, t.cells, t.values, p);
        assert Painted(all[|pre|], steps, p);
      } else {
        WriteCellsElsewhere(g, at, t.cells, t.values, p);
        if At(g, p).Filled? {
          var i :| 0 <= i < |pre| && Painted(pre[i], steps, p);
          assert all[i] == pre[i];
        } else {
          forall i | 0 <= i < |all| ensures !Painted(all[i], steps, p) {
            if i < |pre| { assert all[i] == pre[i]; }
          }
        }
      }
    }
  }
}
