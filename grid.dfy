/**
 * Row-major grid arithmetic and the specification functions of the
 * landscape's operations: what a tick, a reset and each constructor
 * produce from a snapshot of the cells.
 */
module Grid {
  import opened Cells
  import opened Rules

  /** `get_index`: row-major position, with no bounds check of its own. */
  function Index(width: nat, row: nat, column: nat): nat {
    row * width + column
  }

  /** Multiplication by a width is monotone (kept out of the solver's nonlinear search). */
  lemma {:induction false} MulMonotone(a: nat, b: nat, width: nat)
    requires a <= b
    ensures a * width <= b * width
    decreases b - a
  {
    if a < b {
      MulMonotone(a, b - 1, width);
      assert (b - 1) * width + width == b * width;
    }
  }

  /** The start of the next row is one width further on. */
  lemma NextRowStart(width: nat, row: nat)
    ensures (row + 1) * width == row * width + width
  {
  }

  lemma IndexInGrid(width: nat, height: nat, row: nat, column: nat)
    requires row < height && column < width
    ensures Index(width, row, column) < width * height
  {
    NextRowStart(width, row);
    MulMonotone(row + 1, height, width);
    assert height * width == width * height;
  }

  /** Distinct coordinates of one grid have distinct row-major positions. */
  lemma IndexInjective(width: nat, row1: nat, column1: nat, row2: nat, column2: nat)
    requires column1 < width && column2 < width
    requires Index(width, row1, column1) == Index(width, row2, column2)
    ensures row1 == row2 && column1 == column2
  {
    if row1 < row2 {
      NextRowStart(width, row1);
      MulMonotone(row1 + 1, row2, width);
    } else if row2 < row1 {
      NextRowStart(width, row2);
      MulMonotone(row2 + 1, row1, width);
    }
  }

  /** Every position of a `width * height` grid is `Index` of its row and column. */
  lemma IndexSplit(width: nat, height: nat, i: nat)
    requires i < width * height
    ensures width > 0 && i / width < height && i % width < width
    ensures Index(width, i / width, i % width) == i
  {
    var r, c := i / width, i % width;
    assert i == r * width + c;
    if r >= height {
      MulMonotone(height, r, width);
    }
  }

  /** Row and column are recovered from the row-major position. */
  lemma RowColumn(width: nat, row: nat, column: nat)
    requires column < width
    ensures Index(width, row, column) / width == row
    ensures Index(width, row, column) % width == column
  {
    var i := Index(width, row, column);
    IndexInGrid(width, row + 1, row, column);
    IndexSplit(width, row + 1, i);
    IndexInjective(width, i / width, i % width, row, column);
  }

  /** A position at or past the start of row `row` lies in row `row` or later. */
  lemma RowAtLeast(width: nat, height: nat, row: nat, i: nat)
    requires row * width <= i < width * height
    ensures i / width >= row
  {
    IndexSplit(width, height, i);
    var r := i / width;
    if r < row {
      NextRowStart(width, r);
      MulMonotone(r + 1, row, width);
    }
  }

  /** The start of the row after `row` is still inside a grid of `height` rows. */
  lemma RowEndInGrid(width: nat, height: nat, row: nat)
    requires row < height
    ensures row * width + width <= width * height
  {
    NextRowStart(width, row);
    MulMonotone(row + 1, height, width);
  }

  // ---------------------------------------------------------------- double buffering

  /**
   * The buffer `next` being filled in position order: positions before `p`
   * already hold the target, the rest still hold the snapshot.
   */
  ghost predicate FilledBelow<T>(next: seq<T>, target: seq<T>, snapshot: seq<T>, p: int) {
    && |next| == |snapshot| && |target| == |snapshot|
    && forall i :: 0 <= i < |snapshot| ==> next[i] == if i < p then target[i] else snapshot[i]
  }

  lemma FillOne<T>(next: seq<T>, target: seq<T>, snapshot: seq<T>, p: nat)
    requires FilledBelow(next, target, snapshot, p) && p < |snapshot|
    ensures FilledBelow(next[p := target[p]], target, snapshot, p + 1)
  {
  }

  /** Positions whose target is the snapshot are filled without writing. */
  lemma FillUnchanged<T>(next: seq<T>, target: seq<T>, snapshot: seq<T>, p: int, q: int)
    requires FilledBelow(next, target, snapshot, p) && p <= q
    requires forall i :: p <= i < q && 0 <= i < |snapshot| ==> target[i] == snapshot[i]
    ensures FilledBelow(next, target, snapshot, q)
  {
  }

  /** `target` agrees with `snapshot` on every wall. */
  ghost predicate BorderKept<T>(target: seq<T>, snapshot: seq<T>, width: nat, height: nat) {
    && |target| == width * height && |snapshot| == width * height
    && forall row: nat, column: nat ::
         row < height && column < width && OnBorder(width, height, row, column) ==>
           At(target, width, height, row, column) == At(snapshot, width, height, row, column)
  }

  /** The first row is wall. */
  lemma FirstRowKept<T>(target: seq<T>, snapshot: seq<T>, width: nat, height: nat)
    requires BorderKept(target, snapshot, width, height)
    ensures forall i :: 0 <= i < width && i < |snapshot| ==> target[i] == snapshot[i]
  {
    forall i | 0 <= i < width && i < |snapshot|
      ensures target[i] == snapshot[i]
    {
      IndexSplit(width, height, i);
      assert At(target, width, height, 0, i) == target[i];
      assert At(snapshot, width, height, 0, i) == snapshot[i];
    }
  }

  /** The first and the last position of a row are wall. */
  lemma RowEdgesKept<T>(target: seq<T>, snapshot: seq<T>, width: nat, height: nat, row: nat)
    requires BorderKept(target, snapshot, width, height) && row < height && width >= 1
    ensures row * width < |snapshot| && target[row * width] == snapshot[row * width]
    ensures forall i :: row * width + width - 1 <= i < row * width + width ==>
      i < |snapshot| && target[i] == snapshot[i]
  {
    IndexInGrid(width, height, row, 0);
    IndexInGrid(width, height, row, width - 1);
    assert At(target, width, height, row, 0) == target[row * width];
    assert At(snapshot, width, height, row, 0) == snapshot[row * width];
    var last := Index(width, row, width - 1);
    assert At(target, width, height, row, width - 1) == target[last];
    assert At(snapshot, width, height, row, width - 1) == snapshot[last];
  }

  /** Everything from the start of the last row on is wall. */
  lemma LastRowsKept<T>(target: seq<T>, snapshot: seq<T>, width: nat, height: nat, row: nat)
    requires BorderKept(target, snapshot, width, height) && height - 1 <= row
    ensures forall i :: row * width <= i < |snapshot| ==> target[i] == snapshot[i]
  {
    forall i | row * width <= i < |snapshot|
      ensures target[i] == snapshot[i]
    {
      RowAtLeast(width, height, row, i);
      IndexSplit(width, height, i);
      var r, c := i / width, i % width;
      assert At(target, width, height, r, c) == target[i];
      assert At(snapshot, width, height, r, c) == snapshot[i];
    }
  }

  /** Once everything from `p` on already agrees, the buffer is complete. */
  lemma FilledFrom<T>(next: seq<T>, target: seq<T>, snapshot: seq<T>, p: int)
    requires FilledBelow(next, target, snapshot, p)
    requires forall i :: p <= i < |snapshot| && 0 <= i ==> target[i] == snapshot[i]
    ensures next == target
  {
  }

  /** A prefix of `target` followed by the next element of `target` is a longer prefix. */
  lemma PrefixGrows<T>(built: seq<T>, target: seq<T>, next: T)
    requires |built| < |target| && built == target[..|built|] && next == target[|built|]
    ensures built + [next] == target[..|built| + 1]
  {
  }

  /** A row's first position is wall, so a filled prefix up to it extends past it. */
  lemma RowStartFilled<T>(next: seq<T>, target: seq<T>, snapshot: seq<T>, width: nat, height: nat, row: nat)
    requires BorderKept(target, snapshot, width, height) && row < height && width >= 1
    requires FilledBelow(next, target, snapshot, row * width)
    ensures FilledBelow(next, target, snapshot, row * width + 1)
  {
    RowEdgesKept(target, snapshot, width, height, row);
    var p := row * width;
    FillUnchanged(next, target, snapshot, p, p + 1);
  }

  /** A row's last position is wall, so a prefix filled up to it reaches the next row. */
  lemma RowEndFilled<T>(next: seq<T>, target: seq<T>, snapshot: seq<T>, width: nat, height: nat, row: nat, column: nat)
    requires BorderKept(target, snapshot, width, height) && row < height && width >= 1
    requires width - 1 <= column <= width
    requires FilledBelow(next, target, snapshot, row * width + column)
    ensures FilledBelow(next, target, snapshot, (row + 1) * width)
  {
    RowEdgesKept(target, snapshot, width, height, row);
    NextRowStart(width, row);
    var p := row * width;
    FillUnchanged(next, target, snapshot, p + column, p + width);
  }

  /** The walls: row 0, the last row, column 0 and the last column. */
  predicate OnBorder(width: nat, height: nat, row: nat, column: nat) {
    row == 0 || row == height - 1 || column == 0 || column == width - 1
  }

  /** The cells `tick` and `reset` visit: rows `1..height-1`, columns `1..width-1`. */
  predicate Interior(width: nat, height: nat, row: nat, column: nat) {
    1 <= row < height - 1 && 1 <= column < width - 1
  }

  /** The entry of a row-major `width * height` sequence at (row, column). */
  function At<T>(s: seq<T>, width: nat, height: nat, row: nat, column: nat): T
    requires |s| == width * height && row < height && column < width
  {
    IndexInGrid(width, height, row, column);
    s[Index(width, row, column)]
  }

  /** Every border cell is a wall of land level 255. */
  ghost predicate Walled(cells: seq<LandCell>, width: nat, height: nat) {
    && |cells| == width * height
    && forall row: nat, column: nat ::
         row < height && column < width && OnBorder(width, height, row, column) ==>
           At(cells, width, height, row, column).landLevel == MaxLevel
  }

  /** The walls survive any change that keeps every land level. */
  lemma WalledKeptByLand(cells: seq<LandCell>, next: seq<LandCell>, width: nat, height: nat)
    requires Walled(cells, width, height) && |next| == |cells|
    requires forall i :: 0 <= i < |cells| ==> next[i].landLevel == cells[i].landLevel
    ensures Walled(next, width, height)
  {
    forall row: nat, column: nat | row < height && column < width && OnBorder(width, height, row, column)
      ensures At(next, width, height, row, column).landLevel == MaxLevel
    {
      IndexInGrid(width, height, row, column);
      var i := Index(width, row, column);
      assert At(next, width, height, row, column) == next[i];
      assert At(cells, width, height, row, column) == cells[i];
    }
  }

  /**
   * The order in which `get_neigbours` visits the 3x3 block around
   * (row, column), skipping the centre: the Moore neighbourhood.
   */
  function NeighbourPositions(row: nat, column: nat): (ps: seq<(nat, nat)>)
    requires row >= 1 && column >= 1
    ensures |ps| == 8
    ensures forall k :: 0 <= k < 8 ==>
      && ps[k] != (row, column)
      && row - 1 <= ps[k].0 <= row + 1
      && column - 1 <= ps[k].1 <= column + 1
  {
    [(row - 1, column - 1), (row - 1, column), (row - 1, column + 1),
     (row, column - 1), (row, column + 1),
     (row + 1, column - 1), (row + 1, column), (row + 1, column + 1)]
  }

  /** The visiting order lists each of the eight adjacent positions exactly once. */
  lemma NeighbourPositionsExact(row: nat, column: nat)
    requires row >= 1 && column >= 1
    ensures forall r: nat, c: nat ::
      row - 1 <= r <= row + 1 && column - 1 <= c <= column + 1 && (r, c) != (row, column) ==>
        (r, c) in NeighbourPositions(row, column)
    ensures forall k, l :: 0 <= k < l < 8 ==> NeighbourPositions(row, column)[k] != NeighbourPositions(row, column)[l]
  {
    var ps := NeighbourPositions(row, column);
    forall r: nat, c: nat | row - 1 <= r <= row + 1 && column - 1 <= c <= column + 1 && (r, c) != (row, column)
      ensures (r, c) in ps
    {
      var k := 3 * (r - row + 1) + (c - column + 1);
      var k' := if k < 4 then k else k - 1;
      assert ps[k'] == (r, c);
    }
  }

  /** The eight neighbours of an interior cell, read from the snapshot `cells`. */
  function Neighbours(cells: seq<LandCell>, width: nat, height: nat, row: nat, column: nat): seq<LandCell>
    requires |cells| == width * height && Interior(width, height, row, column)
  {
    var ps := NeighbourPositions(row, column);
    seq(8, k requires 0 <= k < 8 => At(cells, width, height, ps[k].0, ps[k].1))
  }

  /**
   * The neighbour at offset (i, j) of the 3x3 block around the centre is
   * entry `3 * i + j` of `Neighbours`, one less past the skipped centre.
   */
  lemma NeighbourAt(cells: seq<LandCell>, width: nat, height: nat, row: nat, column: nat, i: nat, j: nat)
    requires |cells| == width * height && Interior(width, height, row, column)
    requires i < 3 && j < 3 && (i, j) != (1, 1)
    ensures var k := if 3 * i + j < 4 then 3 * i + j else 3 * i + j - 1;
      Neighbours(cells, width, height, row, column)[k] == At(cells, width, height, row - 1 + i, column - 1 + j)
  {
    var ps := NeighbourPositions(row, column);
    var ns := Neighbours(cells, width, height, row, column);
    var k := if 3 * i + j < 4 then 3 * i + j else 3 * i + j - 1;
    assert ps[k] == (row - 1 + i, column - 1 + j) by {
      if i == 0 {
        assert k == j;
      } else if i == 1 {
        assert k == if j == 0 then 3 else 4;
      } else {
        assert k == j + 5;
      }
    }
    assert ns[k] == At(cells, width, height, ps[k].0, ps[k].1);
  }

  /**
   * No wraparound: the eight neighbours sit at eight distinct positions of
   * the cell vector, none of them the centre's, each the `Index` of an
   * adjacent row and column inside the grid.
   */
  lemma NeighbourIndicesDistinct(width: nat, height: nat, row: nat, column: nat)
    requires Interior(width, height, row, column)
    ensures forall k :: 0 <= k < 8 ==>
      var p := NeighbourPositions(row, column)[k];
      p.0 < height && p.1 < width &&
      Index(width, p.0, p.1) != Index(width, row, column)
    ensures forall k, l :: 0 <= k < l < 8 ==>
      var p, q := NeighbourPositions(row, column)[k], NeighbourPositions(row, column)[l];
      Index(width, p.0, p.1) != Index(width, q.0, q.1)
  {
    var ps := NeighbourPositions(row, column);
    forall k | 0 <= k < 8
      ensures Index(width, ps[k].0, ps[k].1) != Index(width, row, column)
    {
      if Index(width, ps[k].0, ps[k].1) == Index(width, row, column) {
        IndexInjective(width, ps[k].0, ps[k].1, row, column);
      }
    }
    forall k, l | 0 <= k < l < 8
      ensures Index(width, ps[k].0, ps[k].1) != Index(width, ps[l].0, ps[l].1)
    {
      if Index(width, ps[k].0, ps[k].1) == Index(width, ps[l].0, ps[l].1) {
        IndexInjective(width, ps[k].0, ps[k].1, ps[l].0, ps[l].1);
      }
    }
  }

  lemma NeighboursFit(cells: seq<LandCell>, width: nat, height: nat, row: nat, column: nat)
    requires |cells| == width * height && Interior(width, height, row, column) && AllFit(cells)
    ensures AllFit(Neighbours(cells, width, height, row, column))
  {
    var ps := NeighbourPositions(row, column);
    var ns := Neighbours(cells, width, height, row, column);
    forall k | 0 <= k < 8
      ensures Fits(ns[k])
    {
      IndexInGrid(width, height, ps[k].0, ps[k].1);
    }
  }

  // ---------------------------------------------------------------- tick

  /** The next state of the cell at position `i`: the rule inside, unchanged on the border. */
  function TickedCell(cells: seq<LandCell>, width: nat, height: nat, choices: seq<Choice>, i: nat): LandCell
    requires |cells| == width * height && |choices| == |cells| && AllFit(cells) && i < |cells|
  {
    IndexSplit(width, height, i);
    var row, column := i / width, i % width;
    if Interior(width, height, row, column) then
      NeighboursFit(cells, width, height, row, column);
      NextCell(cells[i], Neighbours(cells, width, height, row, column), choices[i])
    else
      cells[i]
  }

  /**
   * The grid after one tick: every cell's next state is computed from the
   * same pre-tick snapshot `cells`.
   */
  function TickSpec(cells: seq<LandCell>, width: nat, height: nat, choices: seq<Choice>): seq<LandCell>
    requires |cells| == width * height && |choices| == |cells| && AllFit(cells)
  {
    seq(|cells|, i requires 0 <= i < |cells| => TickedCell(cells, width, height, choices, i))
  }

  lemma TickedAt(cells: seq<LandCell>, width: nat, height: nat, choices: seq<Choice>, row: nat, column: nat)
    requires |cells| == width * height && |choices| == |cells| && AllFit(cells)
    requires row < height && column < width
    ensures Index(width, row, column) < |cells|
    ensures Interior(width, height, row, column) ==> AllFit(Neighbours(cells, width, height, row, column))
    ensures TickSpec(cells, width, height, choices)[Index(width, row, column)] ==
      if Interior(width, height, row, column) then
        NextCell(cells[Index(width, row, column)], Neighbours(cells, width, height, row, column),
                 choices[Index(width, row, column)])
      else
        cells[Index(width, row, column)]
  {
    IndexInGrid(width, height, row, column);
    RowColumn(width, row, column);
    if Interior(width, height, row, column) {
      NeighboursFit(cells, width, height, row, column);
    }
  }

  /** Borders are fixed walls: a tick leaves every border cell exactly as it was. */
  lemma TickKeepsBorder(cells: seq<LandCell>, width: nat, height: nat, choices: seq<Choice>)
    requires |cells| == width * height && |choices| == |cells| && AllFit(cells)
    ensures BorderKept(TickSpec(cells, width, height, choices), cells, width, height)
  {
    forall row: nat, column: nat | row < height && column < width && OnBorder(width, height, row, column)
      ensures At(TickSpec(cells, width, height, choices), width, height, row, column) ==
              At(cells, width, height, row, column)
    {
      TickedAt(cells, width, height, choices, row, column);
    }
  }

  /**
   * Per cell, a tick never touches land, never removes water, adds at most
   * one unit, and keeps land plus water within a `Level`.
   */
  lemma TickCellBounds(cells: seq<LandCell>, width: nat, height: nat, choices: seq<Choice>)
    requires |cells| == width * height && |choices| == |cells| && AllFit(cells)
    ensures var next := TickSpec(cells, width, height, choices);
      && |next| == |cells|
      && AllFit(next)
      && forall i :: 0 <= i < |cells| ==>
           && next[i].landLevel == cells[i].landLevel
           && cells[i].waterLevel <= next[i].waterLevel <= cells[i].waterLevel + 1
  {
    var next := TickSpec(cells, width, height, choices);
    forall i | 0 <= i < |cells|
      ensures Fits(next[i]) && next[i].landLevel == cells[i].landLevel
      ensures cells[i].waterLevel <= next[i].waterLevel <= cells[i].waterLevel + 1
    {
      IndexSplit(width, height, i);
      var row, column := i / width, i % width;
      if Interior(width, height, row, column) {
        NeighboursFit(cells, width, height, row, column);
        NextCellRule(cells[i], Neighbours(cells, width, height, row, column), choices[i]);
      }
    }
  }

  /**
   * The rule at an interior cell, with both predicates evaluated on the
   * pre-tick neighbours: water grows only when the cell is lowest and about
   * to be wet, and then the cell stops flowing; about to be wet but not
   * lowest, it flows; not about to be wet, it is unchanged.
   */
  lemma TickInteriorRule(cells: seq<LandCell>, width: nat, height: nat, choices: seq<Choice>, row: nat, column: nat)
    requires |cells| == width * height && |choices| == |cells| && AllFit(cells)
    requires Interior(width, height, row, column)
    ensures AllFit(Neighbours(cells, width, height, row, column))
    ensures Index(width, row, column) < |cells|
    ensures var before := At(cells, width, height, row, column);
      var after := At(TickSpec(cells, width, height, choices), width, height, row, column);
      var ns := Neighbours(cells, width, height, row, column);
      && (after.waterLevel > before.waterLevel ==>
            IsLowest(before, ns) && IsAboutToBeWet(before, ns) && !after.hasWaterFlowing)
      && (IsLowest(before, ns) && IsAboutToBeWet(before, ns) ==>
            && after.landLevel == before.landLevel
            && after.waterLevel == before.waterLevel + At(choices, width, height, row, column)
            && !after.hasWaterFlowing)
      && (IsAboutToBeWet(before, ns) && !IsLowest(before, ns) ==>
            after == before.(hasWaterFlowing := true))
      && (!IsAboutToBeWet(before, ns) ==> after == before)
  {
    NeighboursFit(cells, width, height, row, column);
    TickedAt(cells, width, height, choices, row, column);
    var i := Index(width, row, column);
    var ns := Neighbours(cells, width, height, row, column);
    var next := TickSpec(cells, width, height, choices);
    assert At(cells, width, height, row, column) == cells[i];
    assert At(next, width, height, row, column) == next[i] == NextCell(cells[i], ns, choices[i]);
    NextCellRule(cells[i], ns, choices[i]);
  }

  /**
   * Simultaneous update: a cell's next state depends only on the pre-tick
   * 3x3 block around it and its own choice, never on cells already updated.
   */
  lemma TickIsLocal(cells1: seq<LandCell>, cells2: seq<LandCell>, width: nat, height: nat,
                    choices1: seq<Choice>, choices2: seq<Choice>, row: nat, column: nat)
    requires |cells1| == width * height && |choices1| == |cells1| && AllFit(cells1)
    requires |cells2| == width * height && |choices2| == |cells2| && AllFit(cells2)
    requires Interior(width, height, row, column)
    requires At(choices1, width, height, row, column) == At(choices2, width, height, row, column)
    requires forall r: nat, c: nat :: row - 1 <= r <= row + 1 && column - 1 <= c <= column + 1 ==>
      At(cells1, width, height, r, c) == At(cells2, width, height, r, c)
    ensures At(TickSpec(cells1, width, height, choices1), width, height, row, column) ==
            At(TickSpec(cells2, width, height, choices2), width, height, row, column)
  {
    TickedAt(cells1, width, height, choices1, row, column);
    TickedAt(cells2, width, height, choices2, row, column);
    var ps := NeighbourPositions(row, column);
    assert Neighbours(cells1, width, height, row, column) == Neighbours(cells2, width, height, row, column) by {
      forall k | 0 <= k < 8
        ensures At(cells1, width, height, ps[k].0, ps[k].1) == At(cells2, width, height, ps[k].0, ps[k].1)
      {
      }
    }
    assert At(cells1, width, height, row, column) == At(cells2, width, height, row, column);
  }

  // ---------------------------------------------------------------- counters

  /** Number of cells with standing water: the fresh scan behind `total_water`. */
  function WetCount(cells: seq<LandCell>): nat {
    |set i | 0 <= i < |cells| && IsWet(cells[i])|
  }

  /** Number of flowing cells: the fresh scan behind `total_flowing`. */
  function FlowingCount(cells: seq<LandCell>): nat {
    |set i | 0 <= i < |cells| && cells[i].hasWaterFlowing|
  }

  lemma DryGridCountsZero(cells: seq<LandCell>)
    requires forall i :: 0 <= i < |cells| ==> !IsWet(cells[i]) && !cells[i].hasWaterFlowing
    ensures WetCount(cells) == 0 && FlowingCount(cells) == 0
  {
    assert (set i | 0 <= i < |cells| && IsWet(cells[i])) == {};
    assert (set i | 0 <= i < |cells| && cells[i].hasWaterFlowing) == {};
  }

  /**
   * Water is never taken away by a tick, so every wet cell stays wet and
   * the `total_water` recount after a tick is at least the one before.
   */
  lemma TickKeepsWater(cells: seq<LandCell>, width: nat, height: nat, choices: seq<Choice>)
    requires |cells| == width * height && |choices| == |cells| && AllFit(cells)
    ensures var next := TickSpec(cells, width, height, choices);
      && (forall i :: 0 <= i < |cells| && IsWet(cells[i]) ==> IsWet(next[i]))
      && WetCount(cells) <= WetCount(next)
  {
    var next := TickSpec(cells, width, height, choices);
    TickCellBounds(cells, width, height, choices);
    var before := set i | 0 <= i < |cells| && IsWet(cells[i]);
    var after := set i | 0 <= i < |next| && IsWet(next[i]);
    assert before <= after;
    SubsetCard(before, after);
  }

  lemma {:induction false} SubsetCard(a: set<nat>, b: set<nat>)
    requires a <= b
    ensures |a| <= |b|
    decreases a
  {
    if a != {} {
      var x :| x in a;
      SubsetCard(a - {x}, b - {x});
    }
  }

  /**
   * Water only spreads from cells that hold or carry it: on a landscape with
   * no standing water and no stream anywhere, a tick changes nothing.
   */
  lemma TickFixesDryGrid(cells: seq<LandCell>, width: nat, height: nat, choices: seq<Choice>)
    requires |cells| == width * height && |choices| == |cells| && AllFit(cells)
    requires forall i :: 0 <= i < |cells| ==> !IsWet(cells[i]) && !cells[i].hasWaterFlowing
    ensures TickSpec(cells, width, height, choices) == cells
  {
    var next := TickSpec(cells, width, height, choices);
    forall i | 0 <= i < |cells|
      ensures next[i] == cells[i]
    {
      IndexSplit(width, height, i);
      var row, column := i / width, i % width;
      if Interior(width, height, row, column) {
        NeighboursFit(cells, width, height, row, column);
        var ns := Neighbours(cells, width, height, row, column);
        IsAboutToBeWetIff(cells[i], ns);
        var ps := NeighbourPositions(row, column);
        forall k | 0 <= k < |ns|
          ensures !PoursInto(ns[k], cells[i])
        {
          IndexInGrid(width, height, ps[k].0, ps[k].1);
        }
        NextCellRule(cells[i], ns, choices[i]);
      }
    }
  }

  // ---------------------------------------------------------------- reset

  function ResetCell(cells: seq<LandCell>, width: nat, height: nat, i: nat): LandCell
    requires |cells| == width * height && i < |cells|
  {
    IndexSplit(width, height, i);
    if Interior(width, height, i / width, i % width) then cells[i].(waterLevel := 0) else cells[i]
  }

  /** The grid after `reset`: interior standing water drained, nothing else touched. */
  function ResetSpec(cells: seq<LandCell>, width: nat, height: nat): seq<LandCell>
    requires |cells| == width * height
  {
    seq(|cells|, i requires 0 <= i < |cells| => ResetCell(cells, width, height, i))
  }

  lemma ResetAt(cells: seq<LandCell>, width: nat, height: nat, row: nat, column: nat)
    requires |cells| == width * height && row < height && column < width
    ensures Index(width, row, column) < |cells|
    ensures ResetSpec(cells, width, height)[Index(width, row, column)] ==
      if Interior(width, height, row, column) then cells[Index(width, row, column)].(waterLevel := 0)
      else cells[Index(width, row, column)]
  {
    IndexInGrid(width, height, row, column);
    RowColumn(width, row, column);
  }

  /**
   * Reset drains every interior cell, keeps every flowing flag and every
   * land level, leaves the border alone, and keeps the walls and the
   * no-overflow condition.
   */
  lemma ResetRule(cells: seq<LandCell>, width: nat, height: nat)
    requires |cells| == width * height
    ensures var next := ResetSpec(cells, width, height);
      && |next| == |cells|
      && (forall i :: 0 <= i < |cells| ==>
            next[i].landLevel == cells[i].landLevel &&
            next[i].hasWaterFlowing == cells[i].hasWaterFlowing &&
            next[i].waterLevel <= cells[i].waterLevel)
      && (forall row: nat, column: nat :: row < height && column < width ==>
            At(next, width, height, row, column) ==
              if Interior(width, height, row, column)
              then At(cells, width, height, row, column).(waterLevel := 0)
              else At(cells, width, height, row, column))
      && BorderKept(next, cells, width, height)
      && (AllFit(cells) ==> AllFit(next))
      && (Walled(cells, width, height) ==> Walled(next, width, height))
  {
    var next := ResetSpec(cells, width, height);
    forall row: nat, column: nat | row < height && column < width
      ensures At(next, width, height, row, column) ==
              if Interior(width, height, row, column)
              then At(cells, width, height, row, column).(waterLevel := 0)
              else At(cells, width, height, row, column)
    {
      ResetAt(cells, width, height, row, column);
    }
  }

  /**
   * On a walled grid where every cell fits, the border carries no water
   * (255 of land leaves no room), so after reset a fresh scan finds no wet
   * cell at all.
   */
  lemma ResetDriesGrid(cells: seq<LandCell>, width: nat, height: nat)
    requires Walled(cells, width, height) && AllFit(cells)
    ensures WetCount(ResetSpec(cells, width, height)) == 0
  {
    var next := ResetSpec(cells, width, height);
    forall i | 0 <= i < |next|
      ensures !IsWet(next[i])
    {
      IndexSplit(width, height, i);
      var row, column := i / width, i % width;
      assert next[i] == ResetCell(cells, width, height, i);
      if !Interior(width, height, row, column) {
        assert OnBorder(width, height, row, column);
        assert At(cells, width, height, row, column) == cells[i];
        assert cells[i].landLevel == MaxLevel && Fits(cells[i]);
      }
    }
    assert (set i | 0 <= i < |next| && IsWet(next[i])) == {};
  }

  // ---------------------------------------------------------------- construction

  /** The land of the 64x64 bowl: walls of 255, inside a gradient falling from (1, 1) towards (62, 62). */
  function BowlLand(row: nat, column: nat): Level
    requires row < 64 && column < 64
  {
    if OnBorder(64, 64, row, column) then MaxLevel else 200 - (row + column)
  }

  function BowlCells(): seq<LandCell> {
    seq(64 * 64, i requires 0 <= i < 64 * 64 => LandCell(BowlLand(i / 64, i % 64), 0, false))
  }

  /**
   * `new_bowl`: 64x64 cells, walls of 255 on the border, land
   * `200 - (row + column)` inside, dry and still everywhere.
   */
  lemma BowlShape()
    ensures |BowlCells()| == 64 * 64
    ensures forall row: nat, column: nat :: row < 64 && column < 64 ==>
      At(BowlCells(), 64, 64, row, column) ==
        LandCell(if OnBorder(64, 64, row, column) then 255 else 200 - (row + column), 0, false)
    ensures Walled(BowlCells(), 64, 64) && AllFit(BowlCells())
    ensures WetCount(BowlCells()) == 0 && FlowingCount(BowlCells()) == 0
  {
    var cells := BowlCells();
    forall row: nat, column: nat | row < 64 && column < 64
      ensures At(cells, 64, 64, row, column) ==
        LandCell(if OnBorder(64, 64, row, column) then 255 else 200 - (row + column), 0, false)
    {
      IndexInGrid(64, 64, row, column);
      RowColumn(64, row, column);
    }
    DryGridCountsZero(cells);
  }

  /** The land of a cell built from an elevation buffer: 255 on the border, `dem[i]` inside. */
  function DemCells(dem: seq<Level>, height: nat, width: nat): seq<LandCell>
    requires |dem| == height * width
  {
    seq(|dem|, i requires 0 <= i < |dem| =>
      IndexSplit(width, height, i);
      LandCell(if OnBorder(width, height, i / width, i % width) then MaxLevel else dem[i], 0, false))
  }

  lemma DemCellAt(dem: seq<Level>, height: nat, width: nat, row: nat, column: nat)
    requires |dem| == height * width && row < height && column < width
    ensures Index(width, row, column) < |dem|
    ensures DemCells(dem, height, width)[Index(width, row, column)] ==
      LandCell(if OnBorder(width, height, row, column) then 255 else dem[Index(width, row, column)], 0, false)
  {
    IndexInGrid(width, height, row, column);
    RowColumn(width, row, column);
  }

  /** One step of laying out the cells in position order: the next cell of `DemCells`. */
  lemma DemStep(dem: seq<Level>, height: nat, width: nat, row: nat, column: nat, built: seq<LandCell>)
    requires |dem| == height * width && row < height && column < width
    requires |built| == Index(width, row, column) < |dem|
    requires built == DemCells(dem, height, width)[..|built|]
    ensures built + [LandCell(if OnBorder(width, height, row, column) then 255 else dem[|built|], 0, false)] ==
      DemCells(dem, height, width)[..|built| + 1]
  {
    DemCellAt(dem, height, width, row, column);
    var target := DemCells(dem, height, width);
    PrefixGrows(built, target, target[|built|]);
  }

  /**
   * `new_from_dem` on a buffer of the right length: one cell per entry,
   * walls of 255 on the border, the buffer's level inside, dry and still.
   */
  lemma DemShape(dem: seq<Level>, height: nat, width: nat)
    requires |dem| == height * width
    ensures |DemCells(dem, height, width)| == width * height
    ensures forall row: nat, column: nat :: row < height && column < width ==>
      Index(width, row, column) < |dem| &&
      At(DemCells(dem, height, width), width, height, row, column) ==
        LandCell(if OnBorder(width, height, row, column) then 255 else dem[Index(width, row, column)], 0, false)
    ensures Walled(DemCells(dem, height, width), width, height) && AllFit(DemCells(dem, height, width))
    ensures WetCount(DemCells(dem, height, width)) == 0 && FlowingCount(DemCells(dem, height, width)) == 0
  {
    var cells := DemCells(dem, height, width);
    forall row: nat, column: nat | row < height && column < width
      ensures Index(width, row, column) < |dem| &&
        At(cells, width, height, row, column) ==
        LandCell(if OnBorder(width, height, row, column) then 255 else dem[Index(width, row, column)], 0, false)
    {
      IndexInGrid(width, height, row, column);
      RowColumn(width, row, column);
    }
    DryGridCountsZero(cells);
  }
}
