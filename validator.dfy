/** The grid validator over a level's zones, and the completion verdict that
    runs it once every cell is filled. */
module Validation {
  import opened Board
  import opened Zones

  predicate ZonesInGrid(zones: seq<Zone>, g: Grid) {
    forall i | 0 <= i < |zones| :: CellsInGrid(g, zones[i].cells)
  }

  /** The zones that fail on g, in their original order. */
  function Failing(zones: seq<Zone>, g: Grid): (r: seq<Zone>)
    requires ZonesInGrid(zones, g)
    ensures |r| <= |zones|
    ensures forall z :: z in r <==> z in zones && !Validate(z, g)
  {
    if zones == [] then []
    else
      var n := |zones| - 1;
      assert forall i | 0 <= i < n :: zones[..n][i] == zones[i];
      assert zones == zones[..n] + [zones[n]];
      Failing(zones[..n], g) + (if Validate(zones[n], g) then [] else [zones[n]])
  }

  /** Filtering keeps order: the failing zones of a concatenation are the
      concatenation of the failing zones of its parts. */
  lemma {:induction false} FailingAppend(a: seq<Zone>, b: seq<Zone>, g: Grid)
    requires ZonesInGrid(a, g) && ZonesInGrid(b, g)
    ensures ZonesInGrid(a + b, g)
    ensures Failing(a + b, g) == Failing(a, g) + Failing(b, g)
    decreases |b|
  {
    ZonesInGridAppend(a, b, g);
    if b == [] {
      assert a + b == a;
    } else {
      var n := |b| - 1;
      var pre := b[..n];
      var z := b[n];
      assert b == pre + [z];
      assert a + b == (a + pre) + [z];
      FailingSnoc(pre, z, g);
      FailingAppend(a, pre, g);
      FailingSnoc(a + pre, z, g);
    }
  }

  /** The failing zones of a list with one more zone at the end. */
  lemma FailingSnoc(pre: seq<Zone>, z: Zone, g: Grid)
    requires ZonesInGrid(pre + [z], g)
    ensures ZonesInGrid(pre, g) && CellsInGrid(g, z.cells)
    ensures Failing(pre + [z], g) == Failing(pre, g) + (if Validate(z, g) then [] else [z])
  {
    var zs := pre + [z];
    assert forall i | 0 <= i < |pre| :: zs[i] == pre[i];
    assert zs[..|pre|] == pre;
    assert zs[|pre|] == z;
  }

  lemma ZonesInGridAppend(a: seq<Zone>, b: seq<Zone>, g: Grid)
    requires ZonesInGrid(a, g) && ZonesInGrid(b, g)
    ensures ZonesInGrid(a + b, g)
  {
    forall i | 0 <= i < |a + b| ensures CellsInGrid(g, (a + b)[i].cells) {
      if i < |a| { assert (a + b)[i] == a[i]; } else { assert (a + b)[i] == b[i - |a|]; }
    }
  }

  /** The source's GridValidator: built from the level's zones. */
  datatype GridValidator = GridValidator(zones: seq<Zone>) {

    predicate ValidateAll(g: Grid)
      requires ZonesInGrid(zones, g)
    {
      forall i | 0 <= i < |zones| :: Validate(zones[i], g)
    }

    function GetInvalidZones(g: Grid): (r: seq<Zone>)
      requires ZonesInGrid(zones, g)
      ensures |r| <= |zones|
      ensures ValidateAll(g) <==> r == []
      ensures forall z :: z in r <==> z in zones && !Validate(z, g)
    {
      var r := Failing(zones, g);
      assert r != [] ==> r[0] in r;
      r
    }
  }

  /** The level's zones, each built by the zone factory from its tag, cells and target. */
  function BuildZones(defs: seq<ZoneDef>): (zs: seq<Zone>)
    ensures |zs| == |defs|
    ensures forall i | 0 <= i < |zs| :: zs[i] == CreateZone(defs[i].tag, defs[i].cells, defs[i].target)
  {
    seq(|defs|, i requires 0 <= i < |defs| => CreateZone(defs[i].tag, defs[i].cells, defs[i].target))
  }

  /** What a completion check reports. */
  datatype Verdict =
    | Incomplete                    // some cell is still empty: nothing is judged
    | Solved                        // full and every zone passes
    | Violations(zones: seq<Zone>)  // full, and these zones fail

  /** The completion check: counts filled cells and validates only a full grid. */
  function Judge(g: Grid, zones: seq<Zone>): (v: Verdict)
    requires ZonesInGrid(zones, g)
    ensures v == Incomplete <==> !Full(g)
    ensures v == Solved <==> Full(g) && forall i | 0 <= i < |zones| :: Validate(zones[i], g)
    ensures v.Violations? ==> v.zones != [] && forall z :: z in v.zones <==> z in zones && !Validate(z, g)
  {
    FullIffCountIsArea(g);
    var validator := GridValidator(zones);
    if FilledCount(g) != |g| * |g| then Incomplete
    else if validator.ValidateAll(g) then Solved
    else Violations(validator.GetInvalidZones(g))
  }
}
