/** The player's moves as functions from one board state to the next: placing
    the selected shape, removing a placed one, and the click that chooses
    between them; with the invariant that ties filled cells to placed shapes. */
module Moves {
  import opened Board
  import opened Shapes

  /** What a place or remove request did. */
  datatype Outcome =
    | Ignored   // unknown id, or the shape is already in the requested state
    | Blocked   // a cell lands off the grid or on a filled cell: nothing written
    | Done

  datatype Move = Move(grid: Grid, shapes: seq<Shape>, outcome: Outcome)

  /** Every shape with the id becomes placed with its anchor at `at`; the others stay as they are. */
  function MarkPlaced(shapes: seq<Shape>, id: int, at: Pos): (r: seq<Shape>)
    ensures |r| == |shapes|
    ensures forall i | 0 <= i < |shapes| ::
      && r[i].id == shapes[i].id && r[i].cells == shapes[i].cells && r[i].values == shapes[i].values
      && r[i].rotation == shapes[i].rotation
      && r[i].anchor == if shapes[i].id == id then Some(at) else shapes[i].anchor
  {
    seq(|shapes|, i requires 0 <= i < |shapes| =>
      if shapes[i].id == id then shapes[i].(anchor := Some(at)) else shapes[i])
  }

  /** Every shape with the id becomes unplaced, without an anchor; the others stay as they are. */
  function MarkRemoved(shapes: seq<Shape>, id: int): (r: seq<Shape>)
    ensures |r| == |shapes|
    ensures forall i | 0 <= i < |shapes| ::
      && r[i].id == shapes[i].id && r[i].cells == shapes[i].cells && r[i].values == shapes[i].values
      && r[i].rotation == shapes[i].rotation
      && r[i].anchor == if shapes[i].id == id then None else shapes[i].anchor
  {
    seq(|shapes|, i requires 0 <= i < |shapes| =>
      if shapes[i].id == id then shapes[i].(anchor := None) else shapes[i])
  }

  /** placeShape: every offset is checked for bounds and overlap before anything is written. */
  function Place(g: Grid, shapes: seq<Shape>, id: int, at: Pos): (m: Move)
    requires WellFormed(shapes)
    ensures m.outcome != Done ==> m.grid == g && m.shapes == shapes
    ensures m.outcome == Ignored <==>
      FindShape(shapes, id).None? || shapes[FindShape(shapes, id).value].anchor.Some?
    ensures m.outcome == Blocked <==>
      && FindShape(shapes, id).Some?
      && shapes[FindShape(shapes, id).value].anchor.None?
      && exists k | 0 <= k < |shapes[FindShape(shapes, id).value].cells| ::
           var q := Offset(at, shapes[FindShape(shapes, id).value].cells[k]);
           !InGrid(g, q) || At(g, q) != Empty
    ensures m.outcome == Done ==> |m.grid| == |g| && m.shapes == MarkPlaced(shapes, id, at)
  {
    match FindShape(shapes, id)
    case None => Move(g, shapes, Ignored)
    case Some(i) =>
      var s := shapes[i];
      if s.anchor.Some? then Move(g, shapes, Ignored)
      else if !Fits(g, at, s.cells) then Move(g, shapes, Blocked)
      else Move(WriteCells(g, at, s.cells, s.values), MarkPlaced(shapes, id, at), Done)
  }

  /** removeShape: clears the in-grid cells of the shape's footprint and marks it unplaced. */
  function Remove(g: Grid, shapes: seq<Shape>, id: int): (m: Move)
    ensures m.outcome != Blocked
    ensures m.outcome == Ignored ==> m.grid == g && m.shapes == shapes
    ensures m.outcome == Ignored <==>
      FindShape(shapes, id).None? || shapes[FindShape(shapes, id).value].anchor.None?
    ensures m.outcome == Done ==> |m.grid| == |g| && m.shapes == MarkRemoved(shapes, id)
  {
    match FindShape(shapes, id)
    case None => Move(g, shapes, Ignored)
    case Some(i) =>
      var s := shapes[i];
      if s.anchor.None? then Move(g, shapes, Ignored)
      else Move(ClearCells(g, s.anchor.value, s.cells), MarkRemoved(shapes, id), Done)
  }

  /** The board state a click reads and writes. `selected` is the source's `selectedShape`. */
  datatype Session = Session(grid: Grid, shapes: seq<Shape>, selected: Option<int>)

  /** A selection the source acts on: present and not the falsy id 0. */
  predicate Truthy(selected: Option<int>) {
    selected.Some? && selected.value != 0
  }

  /** handleCellClick: a click on a placed shape removes it; otherwise a truthy selection is
      placed with its anchor on the clicked cell, and a successful placement clears the selection. */
  function Click(st: Session, p: Pos): (r: Session)
    requires WellFormed(st.shapes)
    ensures ShapeAt(st.shapes, p).Some? ==>
      var m := Remove(st.grid, st.shapes, ShapeAt(st.shapes, p).value.id);
      r == Session(m.grid, m.shapes, st.selected)
    ensures ShapeAt(st.shapes, p).None? && Truthy(st.selected) ==>
      var m := Place(st.grid, st.shapes, st.selected.value, p);
      r.grid == m.grid && r.shapes == m.shapes && r.selected == (if m.outcome == Done then None else st.selected)
    ensures ShapeAt(st.shapes, p).None? && !Truthy(st.selected) ==> r == st
    ensures WellFormed(r.shapes)
  {
    match ShapeAt(st.shapes, p)
    case Some(s) =>
      var m := Remove(st.grid, st.shapes, s.id);
      Session(m.grid, m.shapes, st.selected)
    case None =>
      if Truthy(st.selected) then
        var m := Place(st.grid, st.shapes, st.selected.value, p);
        Session(m.grid, m.shapes, if m.outcome == Done then None else st.selected)
      else st
  }

  // ---------------------------------------------------------------------------
  // What a move does to the board

  /** A successful placement writes each offset's paired value (the last one wins when two
      offsets coincide), fills the whole footprint and leaves every other cell as it was. */
  lemma PlaceEffect(g: Grid, shapes: seq<Shape>, id: int, at: Pos)
    requires WellFormed(shapes) && Place(g, shapes, id, at).outcome == Done
    ensures var m := Place(g, shapes, id, at);
      var s := shapes[FindShape(shapes, id).value];
      && s.anchor.None? && Fits(g, at, s.cells)
      && (forall p | InGrid(g, p) && !Covered(at, s.cells, p) :: At(m.grid, p) == At(g, p))
      && (forall p | InGrid(g, p) && Covered(at, s.cells, p) :: At(m.grid, p).Filled?)
      && (forall k | 0 <= k < |s.cells| && (forall j | k < j < |s.cells| :: s.cells[j] != s.cells[k]) ::
            At(m.grid, Offset(at, s.cells[k])) == Filled(s.values[k]))
  {
    var s := shapes[FindShape(shapes, id).value];
    var m := Place(g, shapes, id, at);
    forall p | InGrid(g, p) && !Covered(at, s.cells, p) ensures At(m.grid, p) == At(g, p) {
      WriteCellsElsewhere(g, at, s.cells, s.values, p);
    }
    forall p | InGrid(g, p) && Covered(at, s.cells, p) ensures At(m.grid, p).Filled? {
      WriteCellsCovered(g, at, s.cells, s.values, p);
    }
    forall k | 0 <= k < |s.cells| && (forall j | k < j < |s.cells| :: s.cells[j] != s.cells[k])
      ensures At(m.grid, Offset(at, s.cells[k])) == Filled(s.values[k])
    {
      WriteCellsLastWins(g, at, s.cells, s.values, k);
    }
  }

  /** A successful removal empties every in-grid footprint cell and leaves every other cell. */
  lemma RemoveEffect(g: Grid, shapes: seq<Shape>, id: int)
    requires Remove(g, shapes, id).outcome == Done
    ensures var m := Remove(g, shapes, id);
      var s := shapes[FindShape(shapes, id).value];
      && s.anchor.Some?
      && (forall p | InGrid(g, p) && Covered(s.anchor.value, s.cells, p) :: At(m.grid, p) == Empty)
      && (forall p | InGrid(g, p) && !Covered(s.anchor.value, s.cells, p) :: At(m.grid, p) == At(g, p))
  {
    var s := shapes[FindShape(shapes, id).value];
    var m := Remove(g, shapes, id);
    forall p | InGrid(g, p) && Covered(s.anchor.value, s.cells, p) ensures At(m.grid, p) == Empty {
      ClearCellsCovered(g, s.anchor.value, s.cells, p);
    }
    forall p | InGrid(g, p) && !Covered(s.anchor.value, s.cells, p) ensures At(m.grid, p) == At(g, p) {
      ClearCellsElsewhere(g, s.anchor.value, s.cells, p);
    }
  }

  /** The shape lookup reads only ids, so relabelling anchors does not move it. */
  lemma {:induction false} FindShapeByIds(a: seq<Shape>, b: seq<Shape>, id: int)
    requires |a| == |b| && forall i | 0 <= i < |a| :: a[i].id == b[i].id
    ensures FindShape(a, id) == FindShape(b, id)
  {
    if a != [] {
      FindShapeByIds(a[1..], b[1..], id);
    }
  }

  /** With unique ids the lookup finds exactly the shape carrying the id. */
  lemma FindUnique(shapes: seq<Shape>, i: int)
    requires UniqueIds(shapes) && 0 <= i < |shapes|
    ensures FindShape(shapes, shapes[i].id) == Some(i)
  {
  }

  /** Placing a shape and then removing it gives back the grid; with unique ids it gives back
      the shape list too, since a placed shape cannot be rotated in between. */
  lemma PlaceThenRemove(g: Grid, shapes: seq<Shape>, id: int, at: Pos)
    requires WellFormed(shapes) && Place(g, shapes, id, at).outcome == Done
    ensures var m := Place(g, shapes, id, at);
      var back := Remove(m.grid, m.shapes, id);
      && back.outcome == Done && back.grid == g
      && (UniqueIds(shapes) ==> back.shapes == shapes)
  {
    var m := Place(g, shapes, id, at);
    var i := FindShape(shapes, id).value;
    var s := shapes[i];
    FindShapeByIds(shapes, m.shapes, id);
    assert m.shapes[i] == s.(anchor := Some(at));
    RemoveRestores(g, at, s.cells, s.values);
    var back := Remove(m.grid, m.shapes, id);
    if UniqueIds(shapes) {
      forall j | 0 <= j < |shapes| ensures back.shapes[j] == shapes[j] {
        if shapes[j].id == id {
          assert j == i;
        }
      }
    }
  }

  // ---------------------------------------------------------------------------
  // The board invariant

  /** Every placed footprint lies inside the grid; a cell holds a value exactly when some
      placed shape covers it; and no cell is covered by two placed shapes. */
  ghost predicate Consistent(g: Grid, shapes: seq<Shape>) {
    && (forall i | 0 <= i < |shapes| && shapes[i].anchor.Some? ::
          FootprintInGrid(g, shapes[i].anchor.value, shapes[i].cells))
    && (forall p | InGrid(g, p) :: At(g, p).Filled? <==> exists i | 0 <= i < |shapes| :: Covers(shapes[i], p))
    && (forall i, j, p | 0 <= i < j < |shapes| :: !(Covers(shapes[i], p) && Covers(shapes[j], p)))
  }

  /** A freshly loaded level: an empty grid and no shape placed. */
  lemma InitialConsistent(n: nat, shapes: seq<Shape>)
    requires forall i | 0 <= i < |shapes| :: shapes[i].anchor.None?
    ensures Consistent(EmptyGrid(n), shapes)
  {
  }

  lemma PlaceKeepsConsistent(g: Grid, shapes: seq<Shape>, id: int, at: Pos)
    requires WellFormed(shapes) && UniqueIds(shapes) && Consistent(g, shapes)
    ensures Consistent(Place(g, shapes, id, at).grid, Place(g, shapes, id, at).shapes)
  {
    var m := Place(g, shapes, id, at);
    if m.outcome == Done {
      var i := FindShape(shapes, id).value;
      var s := shapes[i];
      PlaceEffect(g, shapes, id, at);
      forall j | 0 <= j < |shapes| && j != i ensures m.shapes[j] == shapes[j] {
        assert shapes[j].id != id;
      }
      assert m.shapes[i] == s.(anchor := Some(at));
      forall p | InGrid(m.grid, p)
        ensures At(m.grid, p).Filled? <==> exists j | 0 <= j < |m.shapes| :: Covers(m.shapes[j], p)
      {
        if Covered(at, s.cells, p) {
          assert Covers(m.shapes[i], p);
        } else {
          assert !Covers(m.shapes[i], p) && !Covers(shapes[i], p);
          if At(g, p).Filled? {
            var j :| 0 <= j < |shapes| && Covers(shapes[j], p);
            assert Covers(m.shapes[j], p);
          }
        }
      }
      forall j, k, p | 0 <= j < k < |m.shapes| ensures !(Covers(m.shapes[j], p) && Covers(m.shapes[k], p)) {
        if j == i || k == i {
          var o := if j == i then k else j;
          if Covers(m.shapes[i], p) {
            var c :| 0 <= c < |s.cells| && Offset(at, s.cells[c]) == p;
            assert InGrid(g, p) && At(g, p) == Empty;
            assert !Covers(shapes[o], p);
          }
        } else {
          assert m.shapes[j] == shapes[j] && m.shapes[k] == shapes[k];
        }
      }
    }
  }

  lemma RemoveKeepsConsistent(g: Grid, shapes: seq<Shape>, id: int)
    requires UniqueIds(shapes) && Consistent(g, shapes)
    ensures Consistent(Remove(g, shapes, id).grid, Remove(g, shapes, id).shapes)
  {
    var m := Remove(g, shapes, id);
    if m.outcome == Done {
      var i := FindShape(shapes, id).value;
      var s := shapes[i];
      var a := s.anchor.value;
      RemoveEffect(g, shapes, id);
      forall j | 0 <= j < |shapes| && j != i ensures m.shapes[j] == shapes[j] {
        assert shapes[j].id != id;
      }
      assert m.shapes[i] == s.(anchor := None);
      forall p | InGrid(m.grid, p)
        ensures At(m.grid, p).Filled? <==> exists j | 0 <= j < |m.shapes| :: Covers(m.shapes[j], p)
      {
        if Covered(a, s.cells, p) {
          assert Covers(shapes[i], p);
          forall j | 0 <= j < |m.shapes| ensures !Covers(m.shapes[j], p) {
            if j != i {
              assert !(Covers(shapes[i], p) && Covers(shapes[j], p));
            }
          }
        } else {
          if At(g, p).Filled? {
            var j :| 0 <= j < |shapes| && Covers(shapes[j], p);
            assert j != i;
            assert Covers(m.shapes[j], p);
          }
        }
      }
      forall j, k, p | 0 <= j < k < |m.shapes| ensures !(Covers(m.shapes[j], p) && Covers(m.shapes[k], p)) {
        if j != i && k != i {
          assert m.shapes[j] == shapes[j] && m.shapes[k] == shapes[k];
        }
      }
    }
  }

  /** Rotation touches only unplaced shapes, so it cannot break the invariant. */
  lemma RotateKeepsConsistent(g: Grid, shapes: seq<Shape>, id: int)
    requires Consistent(g, shapes)
    ensures Consistent(g, RotateShapes(shapes, id))
  {
    var r := RotateShapes(shapes, id);
    forall i, p | 0 <= i < |shapes| ensures Covers(r[i], p) <==> Covers(shapes[i], p) {
      if r[i] != shapes[i] {
        assert shapes[i].anchor.None? && r[i].anchor.None?;
      }
    }
    forall i | 0 <= i < |shapes| && r[i].anchor.Some? ensures r[i] == shapes[i] {
    }
  }

  lemma ClickKeepsConsistent(st: Session, p: Pos)
    requires WellFormed(st.shapes) && UniqueIds(st.shapes) && Consistent(st.grid, st.shapes)
    ensures Consistent(Click(st, p).grid, Click(st, p).shapes)
  {
    match ShapeAt(st.shapes, p)
    case Some(s) =>
      RemoveKeepsConsistent(st.grid, st.shapes, s.id);
    case None =>
      if Truthy(st.selected) {
        PlaceKeepsConsistent(st.grid, st.shapes, st.selected.value, p);
      }
  }

  /** On a consistent board a click on a filled cell always finds the shape covering it,
      removes it, and leaves that cell empty. */
  lemma ClickOnFilledCell(st: Session, p: Pos)
    requires WellFormed(st.shapes) && UniqueIds(st.shapes) && Consistent(st.grid, st.shapes)
    requires InGrid(st.grid, p) && At(st.grid, p).Filled?
    ensures ShapeAt(st.shapes, p).Some?
    ensures Remove(st.grid, st.shapes, ShapeAt(st.shapes, p).value.id).outcome == Done
    ensures At(Click(st, p).grid, p) == Empty
  {
    var s := ShapeAt(st.shapes, p).value;
    var i :| 0 <= i < |st.shapes| && st.shapes[i] == s && forall j | 0 <= j < i :: !Covers(st.shapes[j], p);
    FindUnique(st.shapes, i);
    RemoveEffect(st.grid, st.shapes, s.id);
  }
}
