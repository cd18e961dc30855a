/**
 * The landscape: a row-major grid of cells with cached counters, stepped
 * one tick at a time by an external driver.
 */
module Flowmap {
  import opened Wrappers
  import opened Cells
  import opened Rules
  import opened Grid

  /** Why `new_from_dem` refuses its input (the source panics). */
  datatype DemError = DemSizeMismatch

  class Landscape {
    var width: nat
    var height: nat
    var cells: seq<LandCell>
    var totalWater: nat
    var totalFlowing: nat

    /** One cell per grid position, and walls of 255 all around. */
    ghost predicate Valid()
      reads this
    {
      |cells| == width * height && Walled(cells, width, height)
    }

    /** The cached counters agree with a fresh scan of the cells. */
    predicate CountersFresh()
      reads this
    {
      totalWater == WetCount(cells) && totalFlowing == FlowingCount(cells)
    }

    /** `new_bowl`: a 64x64 gradient bowl, dry and still. */
    constructor Bowl()
      ensures Valid() && CountersFresh()
      ensures width == 64 && height == 64 && cells == BowlCells()
      ensures totalWater == 0 && totalFlowing == 0
    {
      var built: seq<LandCell> := [];
      for row := 0 to 64
        invariant |built| == row * 64
        invariant built == BowlCells()[..row * 64]
      {
        for column := 0 to 64
          invariant |built| == row * 64 + column
          invariant built == BowlCells()[..row * 64 + column]
        {
          var landLevel: Level;
          if row == 0 || row == 63 || column == 0 || column == 63 {
            landLevel := 255;
          } else {
            landLevel := 200 - (row + column);
          }
          RowColumn(64, row, column);
          built := built + [LandCell(landLevel, 0, false)];
        }
      }
      BowlShape();
      width, height, cells := 64, 64, built;
      totalWater, totalFlowing := 0, 0;
    }

    /** `new_from_dem` once the buffer length has been checked. */
    constructor FromDem(dem: seq<Level>, height: nat, width: nat)
      requires |dem| == height * width
      ensures Valid() && CountersFresh()
      ensures this.width == width && this.height == height && cells == DemCells(dem, height, width)
      ensures totalWater == 0 && totalFlowing == 0
    {
      ghost var target := DemCells(dem, height, width);
      assert |target| == width * height;
      var built: seq<LandCell> := [];
      for row := 0 to height
        invariant |built| == row * width <= |target|
        invariant built == target[..|built|]
      {
        RowEndInGrid(width, height, row);
        for column := 0 to width
          invariant |built| == row * width + column <= |target|
          invariant built == target[..|built|]
        {
          IndexInGrid(width, height, row, column);
          DemStep(dem, height, width, row, column, built);
          var idx := Index(width, row, column);
          var landLevel: Level;
          if row == 0 || row == height - 1 || column == 0 || column == width - 1 {
            landLevel := 255;
          } else {
            landLevel := dem[idx];
          }
          built := built + [LandCell(landLevel, 0, false)];
        }
        NextRowStart(width, row);
      }
      assert built == target;
      DemShape(dem, height, width);
      this.width, this.height, cells := width, height, built;
      totalWater, totalFlowing := 0, 0;
    }

    /**
     * `new_from_dem`: refuses a buffer whose length is not `height * width`,
     * otherwise builds the landscape from it.
     */
    static method NewFromDem(dem: seq<Level>, height: nat, width: nat) returns (r: Result<Landscape, DemError>)
      ensures r.Failure? <==> |dem| != height * width
      ensures r.Success? ==>
        && fresh(r.value) && r.value.Valid() && r.value.CountersFresh()
        && r.value.width == width && r.value.height == height
        && r.value.cells == DemCells(dem, height, width)
    {
      if |dem| != height * width {
        return Failure(DemSizeMismatch);
      }
      var landscape := new Landscape.FromDem(dem, height, width);
      return Success(landscape);
    }

    /**
     * `get_neigbours`: the eight neighbours of an interior cell, read from
     * the current cells in the order rows above, same, below; `None` for a
     * border cell (where the source panics).
     */
    method GetNeighbours(row: nat, column: nat) returns (r: Option<seq<LandCell>>)
      requires Valid() && row < height && column < width
      ensures r.None? <==> OnBorder(width, height, row, column)
      ensures r.Some? ==> r.value == Neighbours(cells, width, height, row, column)
    {
      if column == 0 || column == width - 1 || row == 0 || row == height - 1 {
        return None;
      }
      ghost var expected := Neighbours(cells, width, height, row, column);
      var out: seq<LandCell> := [];
      var rows := [row - 1, row, row + 1];
      var columns := [column - 1, column, column + 1];
      for i := 0 to 3
        invariant |out| == if i <= 1 then 3 * i else 3 * i - 1
        invariant out == expected[..|out|]
      {
        for j := 0 to 3
          invariant |out| == 3 * i + j - (if i > 1 || (i == 1 && j > 1) then 1 else 0)
          invariant out == expected[..|out|]
        {
          if rows[i] == row && columns[j] == column {
            continue;
          }
          IndexInGrid(width, height, rows[i], columns[j]);
          var idx := Index(width, rows[i], columns[j]);
          NeighbourAt(cells, width, height, row, column, i, j);
          PrefixGrows(out, expected, cells[idx]);
          out := out + [cells[idx]];
        }
      }
      return Some(out);
    }

    /** The `filter(water_level > 0).count()` scan behind `total_water`. */
    method CountWater() returns (n: nat)
      ensures n == WetCount(cells)
    {
      n := 0;
      for k := 0 to |cells|
        invariant n == |set i | 0 <= i < k && IsWet(cells[i])|
      {
        ghost var before := set i | 0 <= i < k && IsWet(cells[i]);
        ghost var after := set i | 0 <= i < k + 1 && IsWet(cells[i]);
        if IsWet(cells[k]) {
          assert after == before + {k};
          n := n + 1;
        } else {
          assert after == before;
        }
      }
    }

    /** The `filter(has_water_flowing).count()` scan behind `total_flowing`. */
    method CountFlowing() returns (n: nat)
      ensures n == FlowingCount(cells)
    {
      n := 0;
      for k := 0 to |cells|
        invariant n == |set i | 0 <= i < k && cells[i].hasWaterFlowing|
      {
        ghost var before := set i | 0 <= i < k && cells[i].hasWaterFlowing;
        ghost var after := set i | 0 <= i < k + 1 && cells[i].hasWaterFlowing;
        if cells[k].hasWaterFlowing {
          assert after == before + {k};
          n := n + 1;
        } else {
          assert after == before;
        }
      }
    }

    /**
     * `tick`: every interior cell's next state is computed from the pre-tick
     * cells into a copy, the copy replaces the cells, and both counters are
     * recounted. `choices` holds the random pick for each position.
     */
    method Tick(choices: seq<Choice>)
      requires Valid() && AllFit(cells) && |choices| == |cells|
      requires height >= 1 && (width >= 1 || height <= 2)
      modifies this
      ensures Valid() && CountersFresh() && AllFit(cells)
      ensures width == old(width) && height == old(height)
      ensures cells == TickSpec(old(cells), width, height, choices)
    {
      ghost var target := TickSpec(cells, width, height, choices);
      TickKeepsBorder(cells, width, height, choices);
      var next := cells;
      FirstRowKept(target, cells, width, height);
      FillUnchanged(next, target, cells, 0, width);
      var row: nat := 1;
      while row < height - 1
        modifies {}
        invariant 1 <= row && (height <= 2 || row <= height - 1)
        invariant FilledBelow(next, target, cells, row * width)
      {
        RowStartFilled(next, target, cells, width, height, row);
        var column: nat := 1;
        while column < width - 1
          invariant 1 <= column <= width && (width <= 2 || column <= width - 1)
          invariant FilledBelow(next, target, cells, row * width + column)
        {
          TickedAt(cells, width, height, choices, row, column);
          var idx := Index(width, row, column);
          var nextCell := NextState(row, column, choices[idx]);
          assert nextCell == target[idx];
          FillOne(next, target, cells, idx);
          next := next[idx := nextCell];
          column := column + 1;
        }
        RowEndFilled(next, target, cells, width, height, row, column);
        row := row + 1;
      }
      LastRowsKept(target, cells, width, height, row);
      FilledFrom(next, target, cells, row * width);
      TickCellBounds(cells, width, height, choices);
      WalledKeptByLand(cells, next, width, height);
      cells := next;
      totalWater := CountWater();
      totalFlowing := CountFlowing();
    }

    /**
     * The body of the loop in `tick` for the interior cell (row, column):
     * both predicates read the neighbours from the current cells, which the
     * tick leaves untouched until every next state is known.
     */
    method NextState(row: nat, column: nat, choice: Choice) returns (nextCell: LandCell)
      requires Valid() && AllFit(cells) && Interior(width, height, row, column)
      ensures Fits(At(cells, width, height, row, column))
      ensures AllFit(Neighbours(cells, width, height, row, column))
      ensures nextCell == NextCell(At(cells, width, height, row, column), Neighbours(cells, width, height, row, column), choice)
    {
      IndexInGrid(width, height, row, column);
      var idx := Index(width, row, column);
      var cell := cells[idx];
      nextCell := cell;
      var found := GetNeighbours(row, column);
      var neighbours := found.value;
      NeighboursFit(cells, width, height, row, column);
      if IsAboutToBeWet(cell, neighbours) {
        nextCell := nextCell.(hasWaterFlowing := true);
      }
      if IsLowest(cell, neighbours) && IsAboutToBeWet(cell, neighbours) {
        RoomToPool(cell, neighbours);
        nextCell := nextCell.(waterLevel := nextCell.waterLevel + choice, hasWaterFlowing := false);
      }
    }

    /**
     * `reset`: drains the standing water of every interior cell. Flowing
     * flags, land, the border and both counters are left as they were.
     */
    method Reset()
      requires Valid()
      requires height >= 1 && (width >= 1 || height <= 2)
      modifies this
      ensures Valid()
      ensures width == old(width) && height == old(height)
      ensures totalWater == old(totalWater) && totalFlowing == old(totalFlowing)
      ensures cells == ResetSpec(old(cells), width, height)
    {
      ghost var target := ResetSpec(cells, width, height);
      ResetRule(cells, width, height);
      var next := cells;
      FirstRowKept(target, cells, width, height);
      FillUnchanged(next, target, cells, 0, width);
      var row: nat := 1;
      while row < height - 1
        modifies {}
        invariant 1 <= row && (height <= 2 || row <= height - 1)
        invariant FilledBelow(next, target, cells, row * width)
      {
        RowStartFilled(next, target, cells, width, height, row);
        var column: nat := 1;
        while column < width - 1
          invariant 1 <= column <= width && (width <= 2 || column <= width - 1)
          invariant FilledBelow(next, target, cells, row * width + column)
        {
          ResetAt(cells, width, height, row, column);
          var idx := Index(width, row, column);
          var nextCell := next[idx];
          nextCell := nextCell.(waterLevel := 0);
          assert nextCell == target[idx];
          FillOne(next, target, cells, idx);
          next := next[idx := nextCell];
          column := column + 1;
        }
        RowEndFilled(next, target, cells, width, height, row, column);
        row := row + 1;
      }
      LastRowsKept(target, cells, width, height, row);
      FilledFrom(next, target, cells, row * width);
      cells := next;
    }

    /**
     * `set_water`: overwrites the standing water of the cell at the
     * row-major position of (row, column). There is no bounds check beyond
     * the vector's own, so only that position has to exist.
     */
    method SetWater(row: nat, column: nat, waterLevel: Level)
      requires Valid() && Index(width, row, column) < |cells|
      modifies this
      ensures Valid()
      ensures width == old(width) && height == old(height)
      ensures totalWater == old(totalWater) && totalFlowing == old(totalFlowing)
      ensures cells == old(cells)[Index(width, row, column) := old(cells)[Index(width, row, column)].(waterLevel := waterLevel)]
    {
      var idx := Index(width, row, column);
      var cell := cells[idx];
      cell := cell.(waterLevel := waterLevel);
      WalledKeptByLand(cells, cells[idx := cell], width, height);
      cells := cells[idx := cell];
    }

    /** `make_stream`: sets the flowing flag of the cell at the row-major position of (row, column). */
    method MakeStream(row: nat, column: nat)
      requires Valid() && Index(width, row, column) < |cells|
      modifies this
      ensures Valid()
      ensures width == old(width) && height == old(height)
      ensures totalWater == old(totalWater) && totalFlowing == old(totalFlowing)
      ensures cells == old(cells)[Index(width, row, column) := old(cells)[Index(width, row, column)].(hasWaterFlowing := true)]
    {
      var idx := Index(width, row, column);
      var cell := cells[idx];
      cell := cell.(hasWaterFlowing := true);
      WalledKeptByLand(cells, cells[idx := cell], width, height);
      cells := cells[idx := cell];
    }
  }
}
