/** The one-dimensional cellular automaton: a row of cells, a Wolfram code per
    cell, a dictionary from codes to lookup tables, and a synchronous step. */
module Automaton {
  import opened Power
  import opened Lists
  import opened RuleTable
  import opened Encoding

  /** Number of cells the constructor allocates: the evolving cells, plus `radius`
      trailing cells that never evolve when the boundary is not periodic. */
  function GridLength(width: nat, radius: nat, periodic: bool): (len: nat)
    ensures width <= len <= width + radius
    ensures periodic ==> len == width
  {
    if periodic then width else width + radius
  }

  /** The list subscripts read for the neighbourhood of `index`, leftmost neighbour
      first: wrapped modulo the width when periodic, raw (possibly negative) otherwise. */
  function NeighborPositions(width: nat, radius: nat, size: nat, periodic: bool, index: int): (ps: seq<int>)
    requires periodic ==> width > 0
    ensures |ps| == size
    ensures periodic ==> forall i :: 0 <= i < size ==> 0 <= ps[i] < width
    ensures !periodic ==> forall i :: 0 <= i < size ==> ps[i] == index - radius + i
  {
    seq(size, i => if periodic then (width + index - radius + i) % width else index - radius + i)
  }

  /** With periodic wrapping the `i`-th neighbour of `index` is cell
      `(index - radius + i) mod width`, whatever the sign of the offset. */
  lemma PeriodicNeighbors(width: nat, radius: nat, size: nat, index: int)
    requires width > 0
    ensures forall i :: 0 <= i < size ==> NeighborPositions(width, radius, size, true, index)[i] == (index - radius + i) % width
  {
    forall i | 0 <= i < size
      ensures NeighborPositions(width, radius, size, true, index)[i] == (index - radius + i) % width
    {
      ModShift(index - radius + i, width);
    }
  }

  /** Adding the modulus does not change a remainder. */
  lemma ModShift(x: int, m: nat)
    requires m > 0
    ensures (m + x) % m == x % m
  {
    var q, d := x / m, x % m;
    assert m + x == d + m * (q + 1);
    DivModDigit(d, q + 1, m);
  }

  /** The cells at the given subscripts, read left to right; `IndexOutOfRange` as soon as
      one subscript falls outside the list. */
  function ReadCells(grid: seq<int>, ps: seq<int>): (r: Result<seq<int>>)
    ensures r.Ok? <==> forall k :: 0 <= k < |ps| ==> ListIndex(|grid|, ps[k]).Some?
    ensures r.Err? ==> r.error == IndexOutOfRange
    ensures r.Ok? ==> |r.value| == |ps| && forall k :: 0 <= k < |ps| ==> r.value[k] == grid[ListIndex(|grid|, ps[k]).value]
  {
    if ps == [] then Ok([])
    else
      var cell :- ListGet(grid, ps[0]);
      var rest :- ReadCells(grid, ps[1..]);
      Ok([cell] + rest)
  }

  /** Without periodic wrapping, every neighbour of an evolving cell is in the list:
      offsets past the left edge land, by negative subscripting, on the trailing
      extension cells, and all other offsets are read directly. */
  lemma NonPeriodicReadsInBounds(width: nat, radius: nat, index: int, i: nat)
    requires 0 <= index < width
    requires i <= 2 * radius
    ensures ListIndex(width + radius, index - radius + i).Some?
    ensures index - radius + i < 0 ==> width <= ListIndex(width + radius, index - radius + i).value < width + radius
    ensures index - radius + i >= 0 ==> ListIndex(width + radius, index - radius + i).value == index - radius + i
  {
  }

  /** With periodic wrapping and radius 1, the left neighbour of cell 0 is the last
      cell and the right neighbour of the last cell is cell 0. */
  lemma PeriodicWrapsAround(width: nat)
    requires width > 0
    ensures NeighborPositions(width, 1, 3, true, 0)[0] == width - 1
    ensures NeighborPositions(width, 1, 3, true, width - 1)[2] == 0
  {
    PeriodicNeighbors(width, 1, 3, 0);
    PeriodicNeighbors(width, 1, 3, width - 1);
    DivModDigit(width - 1, -1, width);
    DivModDigit(0, 1, width);
  }

  class CellularAutomaton1D {
    const numStates: nat
    const nbhdRadius: nat
    const nbhdSize: nat
    const numNbhdStates: nat
    const maximumWolframCode: nat
    const isPeriodic: bool
    const gridWidth: nat
    var grid: seq<int>
    var ruleDict: map<int, seq<int>>
    var ruleGrid: seq<int>

    /** The object invariant: the derived sizes, the list lengths, cells within
        `[0, numStates]` (the state check admits `numStates` itself), every code in use
        has a table, and every table is the one the builder makes for its code. */
    ghost predicate Valid()
      reads this
    {
      && nbhdSize == 2 * nbhdRadius + 1
      && numNbhdStates == Pow(numStates, nbhdSize)
      && maximumWolframCode == Pow(numStates, numNbhdStates)
      && |grid| == GridLength(gridWidth, nbhdRadius, isPeriodic)
      && |ruleGrid| == gridWidth
      && (forall i :: 0 <= i < |grid| ==> 0 <= grid[i] <= numStates)
      && (forall i :: 0 <= i < |ruleGrid| ==> ruleGrid[i] in ruleDict)
      && (forall c :: c in ruleDict ==> ruleDict[c] == LookupTableFromWolframCode(numNbhdStates, c))
    }

    /** Every cell holds a proper state, below `numStates`. */
    ghost predicate StatesInRange()
      reads this
    {
      forall i :: 0 <= i < |grid| ==> 0 <= grid[i] < numStates
    }

    /** The `periodic` argument is ignored: the boundary is never periodic, the grid is
        `width + radius` zeros, every cell follows `wolframCode`, and the dictionary
        holds that code's table only. The code check is inclusive of the maximum. */
    constructor (width: nat, wolframCode: int, neighborhoodRadius: nat := 1, numStates: nat := 2, periodic: bool := true)
      requires 0 <= wolframCode <= Pow(numStates, Pow(numStates, 2 * neighborhoodRadius + 1))
      ensures Valid()
      ensures this.numStates == numStates && nbhdRadius == neighborhoodRadius && gridWidth == width
      ensures nbhdSize == 2 * neighborhoodRadius + 1
      ensures numNbhdStates == Pow(numStates, nbhdSize)
      ensures maximumWolframCode == Pow(numStates, numNbhdStates)
      ensures !isPeriodic
      ensures |grid| == width + neighborhoodRadius && forall i :: 0 <= i < |grid| ==> grid[i] == 0
      ensures |ruleGrid| == width && forall i :: 0 <= i < width ==> ruleGrid[i] == wolframCode
      ensures ruleDict.Keys == {wolframCode}
    {
      this.numStates := numStates;
      nbhdRadius := neighborhoodRadius;
      nbhdSize := 2 * neighborhoodRadius + 1;
      numNbhdStates := Pow(numStates, 2 * neighborhoodRadius + 1);
      maximumWolframCode := Pow(numStates, Pow(numStates, 2 * neighborhoodRadius + 1));
      isPeriodic := false;
      gridWidth := width;
      grid := seq(width + neighborhoodRadius, _ => 0);
      ruleDict := map[wolframCode := LookupTableFromWolframCode(Pow(numStates, 2 * neighborhoodRadius + 1), wolframCode)];
      ruleGrid := seq(width, _ => wolframCode);
    }

    /** Every cell follows `wolframCode`; the dictionary is replaced by one holding that
        code's table only. No check is made on the code. */
    method UpdateRuleGlobal(wolframCode: int)
      requires Valid()
      modifies this
      ensures Valid()
      ensures grid == old(grid)
      ensures ruleDict == map[wolframCode := LookupTableFromWolframCode(numNbhdStates, wolframCode)]
      ensures |ruleGrid| == gridWidth && forall i :: 0 <= i < gridWidth ==> ruleGrid[i] == wolframCode
    {
      ruleDict := map[wolframCode := LookupTableFromWolframCode(numNbhdStates, wolframCode)];
      ruleGrid := seq(gridWidth, _ => wolframCode);
    }

    /** The table for `wolframCode` is put in the dictionary first; then the code is
        assigned to the one cell `index` selects (negative subscripts count from the
        end). A subscript outside the rule list fails after the dictionary update. */
    method UpdateRuleLocal(wolframCode: int, index: int) returns (r: Outcome)
      requires Valid()
      modifies this
      ensures Valid()
      ensures grid == old(grid)
      ensures ruleDict == old(ruleDict)[wolframCode := LookupTableFromWolframCode(numNbhdStates, wolframCode)]
      ensures ListIndex(gridWidth, index).None? ==> r == Fail(IndexOutOfRange) && ruleGrid == old(ruleGrid)
      ensures ListIndex(gridWidth, index).Some? ==>
        r == Pass && ruleGrid == old(ruleGrid)[ListIndex(gridWidth, index).value := wolframCode]
    {
      ruleDict := ruleDict[wolframCode := LookupTableFromWolframCode(numNbhdStates, wolframCode)];
      var k := ListIndex(|ruleGrid|, index);
      if k.None? {
        return Fail(IndexOutOfRange);
      }
      ruleGrid := ruleGrid[k.value := wolframCode];
      r := Pass;
    }

    /** Writes `state` into the one cell `index` selects, anywhere in the list,
        extension cells included. The state check is `0 <= state <= numStates`. */
    method SetStateLocal(index: int, state: int) returns (r: Outcome)
      requires Valid()
      modifies this
      ensures Valid()
      ensures ruleGrid == old(ruleGrid) && ruleDict == old(ruleDict)
      ensures !(0 <= state <= numStates) ==> r == Fail(InvalidState) && grid == old(grid)
      ensures 0 <= state <= numStates && ListIndex(|old(grid)|, index).None? ==>
        r == Fail(IndexOutOfRange) && grid == old(grid)
      ensures 0 <= state <= numStates && ListIndex(|old(grid)|, index).Some? ==>
        r == Pass && grid == old(grid)[ListIndex(|old(grid)|, index).value := state]
    {
      if !(0 <= state <= numStates) {
        return Fail(InvalidState);
      }
      var k := ListIndex(|grid|, index);
      if k.None? {
        return Fail(IndexOutOfRange);
      }
      grid := grid[k.value := state];
      r := Pass;
    }

    /** The window of `nbhdSize` cells around `index`, leftmost neighbour first. For
        an evolving cell every read is in the list: without wrapping, an offset left of
        cell 0 reads a trailing extension cell by negative subscripting; with wrapping,
        the offset is taken modulo the width. */
    function NeighborhoodSlice(index: int): (r: Result<seq<int>>)
      reads this
      ensures Valid() && 0 <= index < gridWidth ==> r.Ok? && |r.value| == nbhdSize
      ensures Valid() && 0 <= index < gridWidth && !isPeriodic ==>
        forall i :: 0 <= i < nbhdSize ==>
          r.value[i] == grid[if index - nbhdRadius + i < 0 then |grid| + (index - nbhdRadius + i) else index - nbhdRadius + i]
      ensures Valid() && 0 <= index < gridWidth && isPeriodic ==>
        forall i :: 0 <= i < nbhdSize ==> r.value[i] == grid[(index - nbhdRadius + i) % gridWidth]
    {
      if isPeriodic && gridWidth == 0 then Err(ZeroDivision)
      else
        var ps := NeighborPositions(gridWidth, nbhdRadius, nbhdSize, isPeriodic, index);
        if isPeriodic then
          PeriodicNeighbors(gridWidth, nbhdRadius, nbhdSize, index);
          ReadCells(grid, ps)
        else
          ReadCells(grid, ps)
    }

    /** The code of the neighbourhood of `index`: its window as a base-`numStates`
        number whose least-significant digit is the leftmost neighbour. */
    function GetNeighborhoodState(index: int): (r: Result<int>)
      reads this
      ensures Valid() && 0 <= index < gridWidth ==> r.Ok?
      ensures r.Ok? ==> NeighborhoodSlice(index).Ok? && r.value == Encode(NeighborhoodSlice(index).value, numStates)
    {
      var slice :- NeighborhoodSlice(index);
      Ok(Encode(slice, numStates))
    }

    /** The state cell `i` takes in the next generation: its code's table, looked up
        first (a missing code is a `KeyError` before any cell is read), at its
        neighbourhood code in the current grid. Under the invariant no code is missing
        and no read fails, so the only possible failure is a code past the table. */
    function NewCellState(i: nat): (r: Result<int>)
      reads this
      requires i < |ruleGrid|
      ensures ruleGrid[i] !in ruleDict ==> r == Err(MissingRuleTable)
      ensures ruleGrid[i] in ruleDict ==> (r.Ok? ==> GetNeighborhoodState(i).Ok?)
      ensures Valid() && r.Err? ==> r.error == IndexOutOfRange
    {
      var code := ruleGrid[i];
      if code !in ruleDict then Err(MissingRuleTable)
      else
        var x :- GetNeighborhoodState(i);
        ListGet(ruleDict[code], x)
    }

    /** The new states of cells `0 .. k-1`, computed in order; the first failure is the result. */
    function NewCells(k: nat): (r: Result<seq<int>>)
      reads this
      requires k <= |ruleGrid|
      ensures r.Ok? <==> forall j :: 0 <= j < k ==> NewCellState(j).Ok?
      ensures r.Ok? ==> |r.value| == k && forall j :: 0 <= j < k ==> NewCellState(j) == Ok(r.value[j])
    {
      if k == 0 then Ok([])
      else
        var prev :- NewCells(k - 1);
        var v :- NewCellState(k - 1);
        Ok(prev + [v])
    }

    /** The grid after one synchronous step: every evolving cell takes its new state,
        computed from the current grid, and every other cell becomes 0. */
    function NextGrid(): (r: Result<seq<int>>)
      reads this
      requires |ruleGrid| == gridWidth <= |grid|
      ensures r.Ok? ==> |r.value| == |grid|
      ensures r.Ok? ==> forall i :: 0 <= i < gridWidth ==> NewCellState(i) == Ok(r.value[i])
      ensures r.Ok? ==> forall i :: gridWidth <= i < |grid| ==> r.value[i] == 0
      ensures r.Ok? <==> forall i :: 0 <= i < gridWidth ==> NewCellState(i).Ok?
    {
      var cells :- NewCells(gridWidth);
      Ok(cells + seq(|grid| - gridWidth, _ => 0))
    }

    /** The loop of the step: a fresh list of zeros as long as the grid is filled,
        cell by cell, with the new states computed from the current grid. The
        first cell that fails ends the loop with its error. */
    method ComputeNextGrid() returns (r: Result<seq<int>>)
      requires |ruleGrid| == gridWidth <= |grid|
      ensures r == NextGrid()
    {
      var newGrid := seq(|grid|, _ => 0);
      for i := 0 to gridWidth
        invariant |newGrid| == |grid|
        invariant forall j :: 0 <= j < i ==> NewCellState(j) == Ok(newGrid[j])
        invariant forall j :: i <= j < |newGrid| ==> newGrid[j] == 0
      {
        var v := NewCellState(i);
        if v.Err? {
          NewCellsFailAt(i, gridWidth, v.error);
          return Err(v.error);
        }
        newGrid := newGrid[i := v.value];
      }
      NextGridIs(newGrid);
      r := Ok(newGrid);
    }

    /** One synchronous step: the grid is replaced by the next generation only once
        every cell is done; on a failure nothing changes. */
    method Step() returns (r: Outcome)
      requires Valid()
      modifies this
      ensures Valid()
      ensures ruleGrid == old(ruleGrid) && ruleDict == old(ruleDict)
      ensures old(NextGrid()).Ok? ==> r == Pass && grid == old(NextGrid()).value
      ensures old(NextGrid()).Err? ==> r == Fail(old(NextGrid()).error) && grid == old(grid)
    {
      var next := ComputeNextGrid();
      if next.Err? {
        return Fail(next.error);
      }
      StepResultIsQuiescent();
      grid := next.value;
      r := Pass;
    }

    /** A list that holds every evolving cell's new state, and 0 everywhere else, is the next grid. */
    lemma NextGridIs(cells: seq<int>)
      requires |ruleGrid| == gridWidth <= |grid| == |cells|
      requires forall j :: 0 <= j < gridWidth ==> NewCellState(j) == Ok(cells[j])
      requires forall j :: gridWidth <= j < |cells| ==> cells[j] == 0
      ensures NextGrid() == Ok(cells)
    {
      var next := NextGrid();
      assert next.Ok?;
      assert next.value == cells;
    }

    /** Once cell `i` fails after cells `0 .. i-1` succeed, every longer run fails
        with that same error. */
    lemma {:induction false} NewCellsFailAt(i: nat, k: nat, e: Error)
      requires i < k <= |ruleGrid|
      requires forall j :: 0 <= j < i ==> NewCellState(j).Ok?
      requires NewCellState(i) == Err(e)
      ensures NewCells(k) == Err(e)
      decreases k
    {
      if k > i + 1 {
        NewCellsFailAt(i, k - 1, e);
      }
    }

    /** Every table holds only the quiescent state, so a step that succeeds leaves
        every cell, evolving or not, at 0. */
    lemma StepResultIsQuiescent()
      requires Valid()
      requires NextGrid().Ok?
      ensures forall i :: 0 <= i < |grid| ==> NextGrid().value[i] == 0
    {
      var next := NextGrid().value;
      forall i | 0 <= i < gridWidth
        ensures next[i] == 0
      {
        assert NewCellState(i) == Ok(next[i]);
        var table := ruleDict[ruleGrid[i]];
        var x := GetNeighborhoodState(i).value;
        assert ListGet(table, x) == Ok(next[i]);
      }
    }

    /** Whenever every cell holds a proper state, every neighbourhood code is a valid
        subscript of the tables: `0 <= code < numNbhdStates`. */
    lemma NeighborhoodStateInTable(index: int)
      requires Valid() && 0 <= index < gridWidth
      requires numStates >= 1 && StatesInRange()
      ensures GetNeighborhoodState(index).Ok?
      ensures 0 <= GetNeighborhoodState(index).value < numNbhdStates
    {
      var slice := NeighborhoodSlice(index).value;
      assert AllDigits(slice, numStates) by {
        if isPeriodic {
          assert forall i :: 0 <= i < |slice| ==> slice[i] == grid[(index - nbhdRadius + i) % gridWidth];
        } else {
          assert forall i :: 0 <= i < |slice| ==>
            slice[i] == grid[if index - nbhdRadius + i < 0 then |grid| + (index - nbhdRadius + i) else index - nbhdRadius + i];
        }
      }
      EncodeRange(slice, numStates);
    }

    /** The base-`numStates` digits of a neighbourhood code, least significant first,
        are the cells of its window from left to right. */
    lemma NeighborhoodStateDigits(index: int)
      requires Valid() && 0 <= index < gridWidth
      requires numStates >= 1 && StatesInRange()
      ensures Decode(GetNeighborhoodState(index).value, numStates, nbhdSize) == NeighborhoodSlice(index).value
    {
      var slice := NeighborhoodSlice(index).value;
      NeighborhoodStateInTable(index);
      assert AllDigits(slice, numStates) by {
        if isPeriodic {
          assert forall i :: 0 <= i < |slice| ==> slice[i] == grid[(index - nbhdRadius + i) % gridWidth];
        } else {
          assert forall i :: 0 <= i < |slice| ==>
            slice[i] == grid[if index - nbhdRadius + i < 0 then |grid| + (index - nbhdRadius + i) else index - nbhdRadius + i];
        }
      }
      DecodeEncode(slice, numStates);
    }

    /** While every cell holds a proper state, the step cannot fail: every code in use
        has a table and every neighbourhood code indexes it. */
    lemma StepSucceedsOnStates()
      requires Valid()
      requires numStates >= 1 && StatesInRange()
      ensures NextGrid().Ok?
    {
      forall i | 0 <= i < gridWidth
        ensures NewCellState(i).Ok?
      {
        NeighborhoodStateInTable(i);
      }
    }

    /** The all-zero grid is a fixed point of the step. */
    lemma ZeroGridIsFixedPoint()
      requires Valid()
      requires numStates >= 1
      requires forall i :: 0 <= i < |grid| ==> grid[i] == 0
      ensures NextGrid() == Ok(grid)
    {
      StepSucceedsOnStates();
      StepResultIsQuiescent();
      assert NextGrid().value == grid;
    }

    /** The state check admits `numStates` itself. Such a state in the rightmost cell
        of an evolving cell's window (without wrapping) gives a neighbourhood code past
        the end of every table, and the next step fails with `IndexError`. */
    lemma InclusiveStateBoundBreaksStep(j: nat)
      requires Valid() && !isPeriodic
      requires nbhdRadius <= j < |grid| && grid[j] == numStates
      ensures NextGrid() == Err(IndexOutOfRange)
    {
      var index := j - nbhdRadius;
      var slice := NeighborhoodSlice(index).value;
      assert slice[nbhdSize - 1] == grid[j];
      assert forall i :: 0 <= i < |slice| ==>
        slice[i] == grid[if index - nbhdRadius + i < 0 then |grid| + (index - nbhdRadius + i) else index - nbhdRadius + i];
      EncodeOverflowsFromRightmost(slice, numStates);
      assert NewCellState(index).Err?;
      OnlyIndexErrors(gridWidth);
    }

    /** Under the invariant, a run of cells can fail only with `IndexError`. */
    lemma {:induction false} OnlyIndexErrors(k: nat)
      requires Valid() && k <= gridWidth
      ensures NewCells(k).Err? ==> NewCells(k).error == IndexOutOfRange
      decreases k
    {
      if k > 0 {
        OnlyIndexErrors(k - 1);
      }
    }
  }
}
