/**
 * Concrete cells and 3x3 landscapes stepped by the rules: the unit test of
 * `is_lowest`, and single ticks of a pit fed by a stream on its rim.
 */
module Scenarios {
  import opened Cells
  import opened Rules
  import opened Grid

  /** `test_is_lowest`: a cell of land 100 among three dry cells of land 200 is lowest. */
  lemma LowestAmongHigherLand()
    ensures IsLowest(LandCell(100, 0, false), [LandCell(200, 0, false), LandCell(200, 0, false), LandCell(200, 0, false)])
  {
    var ns := [LandCell(200, 0, false), LandCell(200, 0, false), LandCell(200, 0, false)];
    IsLowestIff(LandCell(100, 0, false), ns);
  }

  /**
   * On a 3x3 landscape every neighbour of the centre is one of the eight
   * cells around it, so a property of all of them holds of every neighbour.
   */
  lemma CentreNeighbours(cells: seq<LandCell>, k: nat)
    requires |cells| == 9 && k < 8
    ensures exists i :: 0 <= i < 9 && i != 4 && Neighbours(cells, 3, 3, 1, 1)[k] == cells[i]
  {
    NeighbourIndicesDistinct(3, 3, 1, 1);
    var p := NeighbourPositions(1, 1)[k];
    var i := Index(3, p.0, p.1);
    assert Neighbours(cells, 3, 3, 1, 1)[k] == At(cells, 3, 3, p.0, p.1) == cells[i];
  }

  /** A 3x3 landscape is all border but its centre. */
  lemma RimKept(next: seq<LandCell>, cells: seq<LandCell>)
    requires BorderKept(next, cells, 3, 3)
    ensures next[0] == cells[0] && next[1] == cells[1] && next[2] == cells[2] && next[3] == cells[3]
    ensures next[5] == cells[5] && next[6] == cells[6] && next[7] == cells[7] && next[8] == cells[8]
  {
    assert At(next, 3, 3, 0, 0) == At(cells, 3, 3, 0, 0);
    assert At(next, 3, 3, 0, 1) == At(cells, 3, 3, 0, 1);
    assert At(next, 3, 3, 0, 2) == At(cells, 3, 3, 0, 2);
    assert At(next, 3, 3, 1, 0) == At(cells, 3, 3, 1, 0);
    assert At(next, 3, 3, 1, 2) == At(cells, 3, 3, 1, 2);
    assert At(next, 3, 3, 2, 0) == At(cells, 3, 3, 2, 0);
    assert At(next, 3, 3, 2, 1) == At(cells, 3, 3, 2, 1);
    assert At(next, 3, 3, 2, 2) == At(cells, 3, 3, 2, 2);
  }

  /** A wall cell: land 255, dry and still. */
  const Wall := LandCell(MaxLevel, 0, false)

  /** A wall cell turned into a stream with `make_stream`. */
  const Spring := LandCell(MaxLevel, 0, true)

  /** A 3x3 landscape: walls of land 255 all around a single interior cell, the pit. */
  predicate Pit(cells: seq<LandCell>) {
    |cells| == 9 && AllFit(cells) &&
    forall i :: 0 <= i < 9 && i != 4 ==> cells[i].landLevel == MaxLevel
  }

  /**
   * A stream on the rim pours into a pit that is not yet full: the pit,
   * the lowest of its neighbours, gains its picked amount of water and stops
   * flowing; the rim is unchanged.
   */
  lemma RimStreamFillsPit(cells: seq<LandCell>, choices: seq<Choice>)
    requires Pit(cells) && |choices| == 9
    requires cells[1].hasWaterFlowing && TotalLevel(cells[4]) < MaxLevel
    ensures TickSpec(cells, 3, 3, choices) ==
      cells[4 := cells[4].(waterLevel := cells[4].waterLevel + choices[4], hasWaterFlowing := false)]
  {
    var ns := Neighbours(cells, 3, 3, 1, 1);
    NeighboursFit(cells, 3, 3, 1, 1);
    assert IsLowest(cells[4], ns) && IsAboutToBeWet(cells[4], ns) by {
      forall k | 0 <= k < 8
        ensures TotalLevel(ns[k]) == MaxLevel
      {
        CentreNeighbours(cells, k);
      }
      IsLowestIff(cells[4], ns);
      assert ns[1] == cells[1] by { NeighbourAt(cells, 3, 3, 1, 1, 0, 1); }
      assert PoursInto(ns[1], cells[4]);
      IsAboutToBeWetIff(cells[4], ns);
    }
    var next := TickSpec(cells, 3, 3, choices);
    TickKeepsBorder(cells, 3, 3, choices);
    TickInteriorRule(cells, 3, 3, choices, 1, 1);
    RimKept(next, cells);
    assert At(next, 3, 3, 1, 1) == next[4] && At(cells, 3, 3, 1, 1) == cells[4];
  }

  /**
   * Walls are never updated and a stream only feeds its neighbours: with a
   * dry, still rim, a tick leaves the pit as it is, even a pit turned into a
   * stream.
   */
  lemma StillRimKeepsPit(cells: seq<LandCell>, choices: seq<Choice>)
    requires Pit(cells) && |choices| == 9
    requires forall i :: 0 <= i < 9 && i != 4 ==> !cells[i].hasWaterFlowing
    ensures TickSpec(cells, 3, 3, choices) == cells
  {
    var ns := Neighbours(cells, 3, 3, 1, 1);
    NeighboursFit(cells, 3, 3, 1, 1);
    assert !IsAboutToBeWet(cells[4], ns) by {
      forall k | 0 <= k < 8
        ensures !PoursInto(ns[k], cells[4])
      {
        CentreNeighbours(cells, k);
      }
      IsAboutToBeWetIff(cells[4], ns);
    }
    var next := TickSpec(cells, 3, 3, choices);
    TickKeepsBorder(cells, 3, 3, choices);
    TickInteriorRule(cells, 3, 3, choices, 1, 1);
    RimKept(next, cells);
    assert At(next, 3, 3, 1, 1) == next[4] && At(cells, 3, 3, 1, 1) == cells[4];
  }

  /** The pit of land 100 below a stream on its rim fills by the pick. */
  lemma FedPitPools(choices: seq<Choice>)
    requires |choices| == 9
    ensures var pit := [Wall, Spring, Wall, Wall, LandCell(100, 0, false), Wall, Wall, Wall, Wall];
      AllFit(pit) && TickSpec(pit, 3, 3, choices) == pit[4 := LandCell(100, choices[4], false)]
  {
    var pit := [Wall, Spring, Wall, Wall, LandCell(100, 0, false), Wall, Wall, Wall, Wall];
    RimStreamFillsPit(pit, choices);
  }

  /**
   * A cell fed from above but with a lower neighbour is not lowest: it
   * starts flowing and keeps its water, whatever the pick.
   */
  lemma FedSlopeFlows(choice: Choice)
    ensures NextCell(LandCell(100, 0, false),
                     [Spring, LandCell(50, 0, false), Wall, Wall, Wall, Wall, Wall, Wall], choice)
            == LandCell(100, 0, true)
  {
    var cell := LandCell(100, 0, false);
    var ns := [Spring, LandCell(50, 0, false), Wall, Wall, Wall, Wall, Wall, Wall];
    assert PoursInto(ns[0], cell);
    IsAboutToBeWetIff(cell, ns);
    IsLowestIff(cell, ns);
    assert TotalLevel(ns[1]) < TotalLevel(cell);
  }
}
