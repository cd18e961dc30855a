/**
 * The two neighbourhood predicates of the automaton and the update rule of a
 * single interior cell, all computed from one snapshot of the grid.
 */
module Rules {
  import opened Cells

  /** The injected outcome of the random pick from `[0, 1, 1]`. */
  type Choice = x: int | 0 <= x <= 1

  /**
   * `is_lowest`: every neighbour's surface is at least as high as the
   * target's (an `all` over the neighbours; ties count as lowest).
   */
  predicate IsLowest(target: LandCell, neighbours: seq<LandCell>)
    requires Fits(target) && AllFit(neighbours)
  {
    |neighbours| == 0 ||
    (TotalLevel(neighbours[0]) >= TotalLevel(target) && IsLowest(target, neighbours[1..]))
  }

  /** A neighbour that carries water (flowing or standing) and stands strictly above the target. */
  predicate PoursInto(neighbour: LandCell, target: LandCell)
    requires Fits(neighbour) && Fits(target)
  {
    (neighbour.hasWaterFlowing || neighbour.waterLevel > 0) &&
    TotalLevel(neighbour) > TotalLevel(target)
  }

  /** `is_about_to_be_wet`: an `any` over the neighbours of `PoursInto`. */
  predicate IsAboutToBeWet(target: LandCell, neighbours: seq<LandCell>)
    requires Fits(target) && AllFit(neighbours)
  {
    |neighbours| > 0 &&
    (PoursInto(neighbours[0], target) || IsAboutToBeWet(target, neighbours[1..]))
  }

  lemma {:induction false} IsLowestIff(target: LandCell, neighbours: seq<LandCell>)
    requires Fits(target) && AllFit(neighbours)
    ensures IsLowest(target, neighbours) <==>
      forall i :: 0 <= i < |neighbours| ==> TotalLevel(target) <= TotalLevel(neighbours[i])
  {
    if |neighbours| > 0 {
      var rest := neighbours[1..];
      IsLowestIff(target, rest);
      assert forall i :: 1 <= i < |neighbours| ==> neighbours[i] == rest[i - 1];
    }
  }

  lemma {:induction false} IsAboutToBeWetIff(target: LandCell, neighbours: seq<LandCell>)
    requires Fits(target) && AllFit(neighbours)
    ensures IsAboutToBeWet(target, neighbours) <==>
      exists i :: 0 <= i < |neighbours| && PoursInto(neighbours[i], target)
  {
    if |neighbours| > 0 {
      var rest := neighbours[1..];
      IsAboutToBeWetIff(target, rest);
      assert forall i :: 1 <= i < |neighbours| ==> neighbours[i] == rest[i - 1];
      if IsAboutToBeWet(target, rest) {
        var j :| 0 <= j < |rest| && PoursInto(rest[j], target);
        assert PoursInto(neighbours[j + 1], target);
      }
    }
  }

  /**
   * A cell with a neighbour pouring into it stands below that neighbour, so
   * its surface is strictly below the top `Level` and one more unit of water
   * still fits.
   */
  lemma RoomToPool(target: LandCell, neighbours: seq<LandCell>)
    requires Fits(target) && AllFit(neighbours)
    requires IsAboutToBeWet(target, neighbours)
    ensures TotalLevel(target) < MaxLevel
    ensures target.waterLevel + target.landLevel + 1 <= MaxLevel
  {
    IsAboutToBeWetIff(target, neighbours);
    var j :| 0 <= j < |neighbours| && PoursInto(neighbours[j], target);
    assert TotalLevel(neighbours[j]) <= MaxLevel;
  }

  /**
   * The next state of one interior cell (the body of the loop in `tick`):
   * it starts flowing when something pours into it, and when it is also the
   * lowest of its neighbours it pools instead, gaining `choice` units of
   * water and no longer flowing.
   */
  function NextCell(cell: LandCell, neighbours: seq<LandCell>, choice: Choice): LandCell
    requires Fits(cell) && AllFit(neighbours)
  {
    var aboutToBeWet := IsAboutToBeWet(cell, neighbours);
    var marked := if aboutToBeWet then cell.(hasWaterFlowing := true) else cell;
    if IsLowest(cell, neighbours) && aboutToBeWet then
      RoomToPool(cell, neighbours);
      marked.(waterLevel := cell.waterLevel + choice, hasWaterFlowing := false)
    else
      marked
  }

  /** What one tick can do to one interior cell. */
  lemma NextCellRule(cell: LandCell, neighbours: seq<LandCell>, choice: Choice)
    requires Fits(cell) && AllFit(neighbours)
    ensures var next := NextCell(cell, neighbours, choice);
      && next.landLevel == cell.landLevel
      && cell.waterLevel <= next.waterLevel <= cell.waterLevel + 1
      && Fits(next)
      && (next.waterLevel > cell.waterLevel ==>
            IsLowest(cell, neighbours) && IsAboutToBeWet(cell, neighbours) && !next.hasWaterFlowing)
      && (IsLowest(cell, neighbours) && IsAboutToBeWet(cell, neighbours) ==>
            next == cell.(waterLevel := cell.waterLevel + choice, hasWaterFlowing := false))
      && (IsAboutToBeWet(cell, neighbours) && !IsLowest(cell, neighbours) ==>
            next == cell.(hasWaterFlowing := true))
      && (!IsAboutToBeWet(cell, neighbours) ==> next == cell)
  {
    if IsAboutToBeWet(cell, neighbours) {
      RoomToPool(cell, neighbours);
    }
  }
}
