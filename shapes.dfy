/** Shapes: offsets paired index by index with values, a rotation angle and a
    placement anchor; the 90-degree rotation and the lookups over a shape list. */
module Shapes {
  import opened Board

  /** A shape of the session. `anchor` is the source's `position`, set exactly
      when `placed` is true. */
  datatype Shape = Shape(id: int, cells: seq<Pos>, values: seq<int>, rotation: int, anchor: Option<Pos>)

  predicate WellFormed(shapes: seq<Shape>) {
    forall i | 0 <= i < |shapes| :: |shapes[i].values| == |shapes[i].cells|
  }

  predicate UniqueIds(shapes: seq<Shape>) {
    forall i, j | 0 <= i < j < |shapes| :: shapes[i].id != shapes[j].id
  }

  // ---------------------------------------------------------------------------
  // Rotation

  /** The largest row of a non-empty offset list. */
  function MaxRow(cells: seq<Pos>): (m: int)
    requires |cells| > 0
    ensures forall k | 0 <= k < |cells| :: cells[k].row <= m
    ensures exists k | 0 <= k < |cells| :: cells[k].row == m
  {
    if |cells| == 1 then cells[0].row
    else
      var n := |cells| - 1;
      var m := MaxRow(cells[..n]);
      assert forall k | 0 <= k < n :: cells[..n][k] == cells[k];
      if cells[n].row > m then cells[n].row else m
  }

  /** The largest column of a non-empty offset list. */
  function MaxCol(cells: seq<Pos>): (m: int)
    requires |cells| > 0
    ensures forall k | 0 <= k < |cells| :: cells[k].col <= m
    ensures exists k | 0 <= k < |cells| :: cells[k].col == m
  {
    if |cells| == 1 then cells[0].col
    else
      var n := |cells| - 1;
      var m := MaxCol(cells[..n]);
      assert forall k | 0 <= k < n :: cells[..n][k] == cells[k];
      if cells[n].col > m then cells[n].col else m
  }

  /** One quarter turn: (r, c) becomes (c, maxRow - r); index k keeps values[k]. */
  function Rotate(cells: seq<Pos>): (r: seq<Pos>)
    ensures |r| == |cells|
  {
    if cells == [] then [] else Quarter(cells, MaxRow(cells))
  }

  /** Maps (r, c) to (c, maxRow - r) offset by offset. */
  function Quarter(cells: seq<Pos>, maxRow: int): (r: seq<Pos>)
    ensures |r| == |cells|
  {
    if cells == [] then [] else [Pos(cells[0].col, maxRow - cells[0].row)] + Quarter(cells[1..], maxRow)
  }

  lemma {:induction false} QuarterAt(cells: seq<Pos>, maxRow: int, k: int)
    requires 0 <= k < |cells|
    ensures Quarter(cells, maxRow)[k] == Pos(cells[k].col, maxRow - cells[k].row)
  {
    if k > 0 {
      QuarterAt(cells[1..], maxRow, k - 1);
    }
  }

  /** Offsets that are non-negative with smallest row 0 and smallest column 0. */
  predicate Normalized(cells: seq<Pos>) {
    && (forall k | 0 <= k < |cells| :: cells[k].row >= 0 && cells[k].col >= 0)
    && (cells != [] ==> exists k | 0 <= k < |cells| :: cells[k].row == 0)
    && (cells != [] ==> exists k | 0 <= k < |cells| :: cells[k].col == 0)
  }

  lemma RotateAt(cells: seq<Pos>, k: int)
    requires 0 <= k < |cells|
    ensures Rotate(cells)[k] == Pos(cells[k].col, MaxRow(cells) - cells[k].row)
  {
    QuarterAt(cells, MaxRow(cells), k);
  }

  /** A quarter turn keeps offsets normalized and swaps the extents of rows and columns. */
  lemma RotateNormalized(cells: seq<Pos>)
    requires Normalized(cells) && cells != []
    ensures Normalized(Rotate(cells))
    ensures MaxRow(Rotate(cells)) == MaxCol(cells) && MaxCol(Rotate(cells)) == MaxRow(cells)
  {
    var maxRow := MaxRow(cells);
    var r := Rotate(cells);
    forall k | 0 <= k < |cells| ensures r[k] == Pos(cells[k].col, maxRow - cells[k].row) {
      RotateAt(cells, k);
    }
    RotatedExtents(cells, r, maxRow);
  }

  lemma RotatedMaxRow(cells: seq<Pos>)
    requires Normalized(cells) && cells != []
    ensures MaxRow(Rotate(cells)) == MaxCol(cells)
  {
    RotateNormalized(cells);
  }

  lemma RotatedExtents(cells: seq<Pos>, r: seq<Pos>, maxRow: int)
    requires Normalized(cells) && cells != [] && |r| == |cells|
    requires maxRow == MaxRow(cells)
    requires forall k | 0 <= k < |cells| :: r[k] == Pos(cells[k].col, maxRow - cells[k].row)
    ensures Normalized(r) && MaxRow(r) == MaxCol(cells) && MaxCol(r) == maxRow
  {
    var c0 :| 0 <= c0 < |cells| && cells[c0].col == 0;
    assert r[c0].row == 0;
    var r0 :| 0 <= r0 < |cells| && cells[r0].row == 0;
    assert r[r0].col == maxRow;
    var kr :| 0 <= kr < |cells| && cells[kr].row == maxRow;
    assert r[kr].col == 0;
    var kc :| 0 <= kc < |cells| && cells[kc].col == MaxCol(cells);
    assert r[kc].row == MaxCol(cells);
  }

  /** Two quarter turns mirror an offset through the centre of the bounding box. */
  lemma HalfTurnAt(cells: seq<Pos>, k: int)
    requires Normalized(cells) && 0 <= k < |cells|
    ensures Rotate(Rotate(cells))[k] == Pos(MaxRow(cells) - cells[k].row, MaxCol(cells) - cells[k].col)
  {
    var once := Rotate(cells);
    RotatedMaxRow(cells);
    RotateAt(cells, k);
    SecondQuarterAt(once, k, MaxCol(cells));
  }

  /** A quarter turn of offsets whose largest row is known. */
  lemma SecondQuarterAt(once: seq<Pos>, k: int, maxRow: int)
    requires 0 <= k < |once| && MaxRow(once) == maxRow
    ensures Rotate(once)[k] == Pos(once[k].col, maxRow - once[k].row)
  {
    RotateAt(once, k);
  }

  /** Two quarter turns keep offsets normalized and keep both extents. */
  lemma HalfTurnExtents(cells: seq<Pos>)
    requires Normalized(cells) && cells != []
    ensures Normalized(Rotate(Rotate(cells)))
    ensures MaxRow(Rotate(Rotate(cells))) == MaxRow(cells) && MaxCol(Rotate(Rotate(cells))) == MaxCol(cells)
  {
    RotateNormalized(cells);
    RotateNormalized(Rotate(cells));
  }

  /** Four quarter turns bring each offset back to itself. */
  lemma FourTurnsAt(cells: seq<Pos>, k: int)
    requires Normalized(cells) && 0 <= k < |cells|
    ensures Rotate(Rotate(Rotate(Rotate(cells))))[k] == cells[k]
  {
    HalfTurnExtents(cells);
    HalfTurnAt(cells, k);
    HalfTurnAt(Rotate(Rotate(cells)), k);
  }

  /** Four quarter turns give back the original offsets, in their original order. */
  lemma FourTurns(cells: seq<Pos>)
    requires Normalized(cells)
    ensures Rotate(Rotate(Rotate(Rotate(cells)))) == cells
  {
    var r4 := Rotate(Rotate(Rotate(Rotate(cells))));
    forall k | 0 <= k < |cells| ensures r4[k] == cells[k] {
      FourTurnsAt(cells, k);
    }
    assert r4 == cells;
  }

  /** JavaScript's `%`: the remainder of a truncating division, with the sign of a. */
  function JsRem(a: int, n: int): (r: int)
    requires n > 0
    ensures -n < r < n
    ensures a >= 0 ==> r == a % n
    ensures a < 0 ==> r == -((-a) % n)
    decreases if a < 0 then -a else a
  {
    if -n < a < n then
      ModUnique(if a >= 0 then a else -a, n, 0, if a >= 0 then a else -a);
      a
    else if a >= n then
      ModShift(a, n);
      JsRem(a - n, n)
    else
      ModShift(-a, n);
      JsRem(a + n, n)
  }

  /** Dafny's remainder of x by n is r whenever x is q * n + r with r in [0, n). */
  lemma ModUnique(x: int, n: int, q: int, r: int)
    requires n > 0 && 0 <= r < n && x == n * q + r
    ensures x % n == r
  {
    var d := q - x / n;
    assert n * d == x % n - r;
  }

  /** Adding or subtracting n leaves the remainder by n unchanged. */
  lemma ModShift(a: int, n: int)
    requires n > 0
    ensures (a + n) % n == a % n
    ensures (a - n) % n == a % n
  {
    ModUnique(a + n, n, a / n + 1, a % n);
    ModUnique(a - n, n, a / n - 1, a % n);
  }

  /** rotateShape's new version of one shape: a quarter turn of the offsets, and the
      angle advanced by 90 degrees modulo 360; id, values and anchor are kept. */
  function Turn(s: Shape): (t: Shape)
    ensures t.id == s.id && t.values == s.values && t.anchor == s.anchor
    ensures t.cells == Rotate(s.cells)
    ensures s.rotation >= -90 ==> t.rotation == (s.rotation + 90) % 360
  {
    s.(cells := Rotate(s.cells), rotation := JsRem(s.rotation + 90, 360))
  }

  /** rotateShape: turns every unplaced shape with the id, leaves the others as they are. */
  function RotateShapes(shapes: seq<Shape>, id: int): (r: seq<Shape>)
    ensures |r| == |shapes|
    ensures forall i | 0 <= i < |shapes| ::
      && r[i].id == shapes[i].id && r[i].values == shapes[i].values && r[i].anchor == shapes[i].anchor
      && |r[i].cells| == |shapes[i].cells|
      && (r[i] != shapes[i] ==> shapes[i].id == id && shapes[i].anchor.None?)
    ensures forall i | 0 <= i < |shapes| && shapes[i].id == id && shapes[i].anchor.None? ::
      r[i] == Turn(shapes[i])
    ensures WellFormed(shapes) ==> WellFormed(r)
  {
    seq(|shapes|, i requires 0 <= i < |shapes| =>
      if shapes[i].id == id && shapes[i].anchor.None? then Turn(shapes[i]) else shapes[i])
  }

  /** A shape whose offsets are normalized and whose angle is one of 0, 90, 180, 270
      is back where it started after four rotations. */
  lemma FourTurnsShape(s: Shape)
    requires Normalized(s.cells) && 0 <= s.rotation < 360
    ensures Turn(Turn(Turn(Turn(s)))) == s
  {
    FourTurnsCells(s);
    FourTurnsAngle(s);
  }

  lemma FourTurnsCells(s: Shape)
    requires Normalized(s.cells)
    ensures Turn(Turn(Turn(Turn(s)))).cells == s.cells
  {
    FourTurns(s.cells);
  }

  lemma FourTurnsAngle(s: Shape)
    requires 0 <= s.rotation < 360
    ensures Turn(Turn(Turn(Turn(s)))).rotation == s.rotation
  {
    FullCircle(s.rotation);
  }

  /** Four additions of 90 degrees, each reduced modulo 360, come back to a start in [0, 360). */
  lemma FullCircle(a: int)
    requires 0 <= a < 360
    ensures JsRem(JsRem(JsRem(JsRem(a + 90, 360) + 90, 360) + 90, 360) + 90, 360) == a
  {
    var b := JsRem(a + 90, 360);
    assert b == if a < 270 then a + 90 else a - 270 by {
      if a >= 270 { assert JsRem(a + 90, 360) == JsRem(a - 270, 360); }
    }
    var c := JsRem(b + 90, 360);
    assert c == if a < 180 then a + 180 else a - 180 by {
      if 180 <= a < 270 { assert JsRem(b + 90, 360) == JsRem(b - 270, 360); }
    }
    var d := JsRem(c + 90, 360);
    assert d == if a < 90 then a + 270 else a - 90 by {
      if 90 <= a < 180 { assert JsRem(c + 90, 360) == JsRem(c - 270, 360); }
    }
    if a < 90 { assert JsRem(d + 90, 360) == JsRem(d - 270, 360); }
  }

  lemma FourRotations(shapes: seq<Shape>, id: int)
    requires forall i | 0 <= i < |shapes| && shapes[i].id == id && shapes[i].anchor.None? ::
      Normalized(shapes[i].cells) && 0 <= shapes[i].rotation < 360
    ensures RotateShapes(RotateShapes(RotateShapes(RotateShapes(shapes, id), id), id), id) == shapes
  {
    var r := RotateShapes(RotateShapes(RotateShapes(RotateShapes(shapes, id), id), id), id);
    forall i | 0 <= i < |shapes| ensures r[i] == shapes[i] {
      if shapes[i].id == id && shapes[i].anchor.None? {
        FourTurnsShape(shapes[i]);
      }
    }
  }

  // ---------------------------------------------------------------------------
  // Lookups

  /** The index of the first shape carrying the id, if any. */
  function FindShape(shapes: seq<Shape>, id: int): (r: Option<nat>)
    ensures r.None? <==> forall i | 0 <= i < |shapes| :: shapes[i].id != id
    ensures r.Some? ==> r.value < |shapes| && shapes[r.value].id == id &&
                        forall j | 0 <= j < r.value :: shapes[j].id != id
  {
    if shapes == [] then None
    else if shapes[0].id == id then Some(0)
    else
      match FindShape(shapes[1..], id)
      case None => None
      case Some(i) => Some(i + 1)
  }

  /** A placed shape covers a grid cell when its anchor plus one of its offsets lands there. */
  predicate Covers(s: Shape, p: Pos) {
    s.anchor.Some? && Covered(s.anchor.value, s.cells, p)
  }

  /** getShapeAtPosition: the first placed shape covering (row, col), if any. */
  function ShapeAt(shapes: seq<Shape>, p: Pos): (r: Option<Shape>)
    ensures r.None? <==> forall i | 0 <= i < |shapes| :: !Covers(shapes[i], p)
    ensures r.Some? ==> Covers(r.value, p)
    ensures r.Some? ==>
      exists i | 0 <= i < |shapes| :: shapes[i] == r.value && forall j | 0 <= j < i :: !Covers(shapes[j], p)
  {
    if shapes == [] then None
    else if Covers(shapes[0], p) then Some(shapes[0])
    else
      var r := ShapeAt(shapes[1..], p);
      assert forall i | 1 <= i < |shapes| :: shapes[1..][i - 1] == shapes[i];
      r
  }
}
