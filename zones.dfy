/** Zones: labelled groups of cells carrying one constraint each, and the
    factory that builds a zone from a level's type tag. */
module Zones {
  import opened Board

  datatype Kind =
    | NoConstraint              // the base zone, tag 'none' or any unknown tag
    | Equal                     // every filled cell holds the same value
    | Distinct                  // no filled value repeats
    | Summative(target: Option<int>)  // once full, the values add up to the target

  datatype Zone = Zone(kind: Kind, cells: seq<Pos>)

  /** A zone as a level lists it: a type tag, its cells and, for a summative zone, a target. */
  datatype ZoneDef = ZoneDef(tag: string, cells: seq<Pos>, target: Option<int>)

  /** Builds the zone variant named by a level's type tag; unknown tags fall back to the base zone. */
  function CreateZone(tag: string, cells: seq<Pos>, target: Option<int>): (z: Zone)
    ensures z.cells == cells
    ensures z.kind == Equal <==> tag == "equal"
    ensures z.kind == Distinct <==> tag == "distinct"
    ensures z.kind.Summative? <==> tag == "summative"
    ensures z.kind.Summative? ==> z.kind.target == target
    ensures z.kind == NoConstraint <==> tag !in {"equal", "distinct", "summative"}
  {
    if tag == "equal" then Zone(Equal, cells)
    else if tag == "distinct" then Zone(Distinct, cells)
    else if tag == "summative" then Zone(Summative(target), cells)
    else Zone(NoConstraint, cells)
  }

  predicate CellsInGrid(g: Grid, cells: seq<Pos>) {
    forall k | 0 <= k < |cells| :: InGrid(g, cells[k])
  }

  /** The values of the zone's filled cells, in the zone's cell order. */
  function ZoneValues(g: Grid, cells: seq<Pos>): (vs: seq<int>)
    requires CellsInGrid(g, cells)
    ensures |vs| <= |cells|
    ensures |vs| == |cells| <==> forall k | 0 <= k < |cells| :: At(g, cells[k]).Filled?
    ensures forall v :: v in vs <==> exists k | 0 <= k < |cells| :: At(g, cells[k]) == Filled(v)
  {
    if cells == [] then []
    else
      var rest := ZoneValues(g, cells[1..]);
      assert forall k | 1 <= k < |cells| :: cells[1..][k - 1] == cells[k];
      match At(g, cells[0])
      case Empty => rest
      case Filled(v) => [v] + rest
  }

  function Sum(vs: seq<int>): int {
    if vs == [] then 0 else Sum(vs[..|vs| - 1]) + vs[|vs| - 1]
  }

  function SetOf(vs: seq<int>): set<int> {
    set v | v in vs
  }

  /** The zone's rule applied to a grid. */
  predicate Validate(z: Zone, g: Grid)
    requires CellsInGrid(g, z.cells)
  {
    var vs := ZoneValues(g, z.cells);
    match z.kind
    case NoConstraint => true
    case Equal => |vs| == 0 || forall i | 0 <= i < |vs| :: vs[i] == vs[0]
    case Distinct => |SetOf(vs)| == |vs|
    case Summative(target) => |vs| != |z.cells| || target == Some(Sum(vs))
  }

  // ---------------------------------------------------------------------------
  // What each rule means

  /** An equal zone passes exactly when any two of its filled cells hold the same value. */
  lemma EqualRule(z: Zone, g: Grid)
    requires z.kind == Equal && CellsInGrid(g, z.cells)
    ensures Validate(z, g) <==>
      forall k, l | 0 <= k < |z.cells| && 0 <= l < |z.cells| ::
        At(g, z.cells[k]).Filled? && At(g, z.cells[l]).Filled? ==> At(g, z.cells[k]) == At(g, z.cells[l])
  {
    var vs := ZoneValues(g, z.cells);
    if Validate(z, g) {
      forall k, l | 0 <= k < |z.cells| && 0 <= l < |z.cells| && At(g, z.cells[k]).Filled? && At(g, z.cells[l]).Filled?
        ensures At(g, z.cells[k]) == At(g, z.cells[l])
      {
        assert At(g, z.cells[k]).value in vs;
        assert At(g, z.cells[l]).value in vs;
      }
    } else {
      var i :| 0 <= i < |vs| && vs[i] != vs[0];
      assert vs[i] in vs && vs[0] in vs;
      var k :| 0 <= k < |z.cells| && At(g, z.cells[k]) == Filled(vs[i]);
      var l :| 0 <= l < |z.cells| && At(g, z.cells[l]) == Filled(vs[0]);
    }
  }

  predicate NoRepeats(vs: seq<int>) {
    forall i, j | 0 <= i < j < |vs| :: vs[i] != vs[j]
  }

  lemma {:induction false} SetOfSize(vs: seq<int>)
    ensures |SetOf(vs)| <= |vs|
    ensures |SetOf(vs)| == |vs| <==> NoRepeats(vs)
  {
    if vs != [] {
      var n := |vs| - 1;
      var pre := vs[..n];
      SetOfSize(pre);
      assert vs == pre + [vs[n]];
      assert SetOf(vs) == SetOf(pre) + {vs[n]};
      if vs[n] in SetOf(pre) {
        assert SetOf(vs) == SetOf(pre);
        var i :| 0 <= i < n && pre[i] == vs[n];
        assert vs[i] == vs[n];
      } else {
        assert |SetOf(vs)| == |SetOf(pre)| + 1;
        if NoRepeats(pre) {
          forall i, j | 0 <= i < j < |vs| ensures vs[i] != vs[j] {
            if j < n {
              assert pre[i] == vs[i] && pre[j] == vs[j];
            } else {
              assert pre[i] == vs[i];
            }
          }
        } else {
          var i, j :| 0 <= i < j < n && pre[i] == pre[j];
          assert vs[i] == vs[j];
        }
      }
    }
  }

  /** No two filled cells of the list hold the same value. */
  predicate DistinctCells(g: Grid, cells: seq<Pos>)
    requires CellsInGrid(g, cells)
  {
    forall k, l | 0 <= k < l < |cells| ::
      At(g, cells[k]).Filled? && At(g, cells[l]).Filled? ==> At(g, cells[k]) != At(g, cells[l])
  }

  /** The collected values repeat exactly when two filled cells hold the same value. */
  lemma {:induction false} NoRepeatsIffDistinctCells(g: Grid, cells: seq<Pos>)
    requires CellsInGrid(g, cells)
    ensures NoRepeats(ZoneValues(g, cells)) <==> DistinctCells(g, cells)
  {
    if cells != [] {
      var tail := cells[1..];
      assert CellsInGrid(g, tail) by {
        assert forall k | 0 <= k < |tail| :: tail[k] == cells[k + 1];
      }
      NoRepeatsIffDistinctCells(g, tail);
      DistinctCellsCons(g, cells);
      var rest := ZoneValues(g, tail);
      match At(g, cells[0])
      case Empty =>
      case Filled(v) =>
        NoRepeatsCons(v, rest);
    }
  }

  /** The first cell, when filled, clashes with no later cell, and the rest is distinct. */
  lemma DistinctCellsCons(g: Grid, cells: seq<Pos>)
    requires CellsInGrid(g, cells) && cells != []
    ensures CellsInGrid(g, cells[1..])
    ensures DistinctCells(g, cells) <==>
      && DistinctCells(g, cells[1..])
      && (At(g, cells[0]).Filled? ==> forall l | 0 <= l < |cells| - 1 :: At(g, cells[1..][l]) != At(g, cells[0]))
  {
    var tail := cells[1..];
    assert forall k | 0 <= k < |tail| :: tail[k] == cells[k + 1];
    if DistinctCells(g, tail) && (At(g, cells[0]).Filled? ==> forall l | 0 <= l < |tail| :: At(g, tail[l]) != At(g, cells[0])) {
      forall k, l | 0 <= k < l < |cells| && At(g, cells[k]).Filled? && At(g, cells[l]).Filled?
        ensures At(g, cells[k]) != At(g, cells[l])
      {
        if k == 0 {
          assert At(g, tail[l - 1]) != At(g, cells[0]);
        } else {
          assert At(g, tail[k - 1]) != At(g, tail[l - 1]);
        }
      }
    }
    if DistinctCells(g, cells) {
      forall k, l | 0 <= k < l < |tail| && At(g, tail[k]).Filled? && At(g, tail[l]).Filled?
        ensures At(g, tail[k]) != At(g, tail[l])
      {
        assert At(g, cells[k + 1]) != At(g, cells[l + 1]);
      }
      forall l | 0 <= l < |tail| && At(g, cells[0]).Filled? ensures At(g, tail[l]) != At(g, cells[0]) {
        assert At(g, cells[0]) != At(g, cells[l + 1]);
      }
    }
  }

  lemma NoRepeatsCons(v: int, rest: seq<int>)
    ensures NoRepeats([v] + rest) <==> v !in rest && NoRepeats(rest)
  {
    var vs := [v] + rest;
    assert forall i | 0 <= i < |rest| :: vs[i + 1] == rest[i];
    if v in rest {
      var i :| 0 <= i < |rest| && rest[i] == v;
      assert vs[0] == vs[i + 1];
    }
    if NoRepeats(rest) && v !in rest {
      forall i, j | 0 <= i < j < |vs| ensures vs[i] != vs[j] {
        if i > 0 { assert vs[i] == rest[i - 1] && vs[j] == rest[j - 1]; }
      }
    }
  }

  /** A distinct zone passes exactly when its filled values hold no repeat, that is,
      exactly when no two of its filled cells hold the same value. */
  lemma DistinctRule(z: Zone, g: Grid)
    requires z.kind == Distinct && CellsInGrid(g, z.cells)
    ensures Validate(z, g) <==> NoRepeats(ZoneValues(g, z.cells))
    ensures Validate(z, g) <==>
      forall k, l | 0 <= k < l < |z.cells| ::
        At(g, z.cells[k]).Filled? && At(g, z.cells[l]).Filled? ==> At(g, z.cells[k]) != At(g, z.cells[l])
  {
    SetOfSize(ZoneValues(g, z.cells));
    NoRepeatsIffDistinctCells(g, z.cells);
  }

  /** The values of a full zone, cell by cell. */
  function CellValues(g: Grid, cells: seq<Pos>): (vs: seq<int>)
    requires CellsInGrid(g, cells)
    requires forall k | 0 <= k < |cells| :: At(g, cells[k]).Filled?
    ensures |vs| == |cells| && forall k | 0 <= k < |cells| :: At(g, cells[k]) == Filled(vs[k])
  {
    seq(|cells|, k requires 0 <= k < |cells| => At(g, cells[k]).value)
  }

  lemma {:induction false} FullZoneValues(g: Grid, cells: seq<Pos>)
    requires CellsInGrid(g, cells)
    requires forall k | 0 <= k < |cells| :: At(g, cells[k]).Filled?
    ensures ZoneValues(g, cells) == CellValues(g, cells)
  {
    if cells != [] {
      FullZoneValues(g, cells[1..]);
    }
  }

  /** A summative zone passes while any of its cells is empty; once full, exactly when
      the sum of its cells is the target. */
  lemma SummativeRule(z: Zone, g: Grid)
    requires z.kind.Summative? && CellsInGrid(g, z.cells)
    ensures (exists k | 0 <= k < |z.cells| :: At(g, z.cells[k]) == Empty) ==> Validate(z, g)
    ensures (forall k | 0 <= k < |z.cells| :: At(g, z.cells[k]).Filled?) ==>
      (Validate(z, g) <==>
        z.kind.target == Some(Sum(CellValues(g, z.cells))))
  {
    if forall k | 0 <= k < |z.cells| :: At(g, z.cells[k]).Filled? {
      FullZoneValues(g, z.cells);
    }
  }

  /** Zones whose cells are all still empty pass; for a summative zone this needs at least one cell. */
  lemma VacuousPass(z: Zone, g: Grid)
    requires CellsInGrid(g, z.cells)
    requires forall k | 0 <= k < |z.cells| :: At(g, z.cells[k]) == Empty
    requires z.kind.Summative? ==> |z.cells| > 0
    ensures Validate(z, g)
  {
    NothingFilledNoValues(g, z.cells);
  }

  lemma {:induction false} NothingFilledNoValues(g: Grid, cells: seq<Pos>)
    requires CellsInGrid(g, cells)
    requires forall k | 0 <= k < |cells| :: At(g, cells[k]) == Empty
    ensures ZoneValues(g, cells) == []
  {
    if cells != [] {
      assert At(g, cells[0]) == Empty;
      NothingFilledNoValues(g, cells[1..]);
    }
  }

  /** A summative zone over no cells compares the empty sum 0 with its target. */
  lemma EmptySummativeZone(target: Option<int>, g: Grid)
    ensures Validate(Zone(Summative(target), []), g) <==> target == Some(0)
  {
  }

  /** A zone built from an unrecognised tag (or 'none') passes on every grid. */
  lemma UnknownTagPasses(tag: string, cells: seq<Pos>, target: Option<int>, g: Grid)
    requires tag !in {"equal", "distinct", "summative"}
    requires CellsInGrid(g, cells)
    ensures Validate(CreateZone(tag, cells, target), g)
  {
  }
}
