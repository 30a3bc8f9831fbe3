/**
 * A node of the packing search: a trunk of fixed size, its occupancy grid and the
 * suitcases not yet placed. Successors are built by copying the trunk and stamping
 * the next pending suitcase into the copy.
 */
module Trunks {
  import opened Collections
  import opened Suitcases
  import opened Grids

  class Trunk
  {
    /** Number of columns (the horizontal extent). */
    const length: nat
    /** Number of rows (the vertical extent). */
    const width: nat
    /** The suitcases still to be placed. */
    var toAdd: seq<Suitcase>
    /** `trunkState[row, col]` is EMPTY or the name of the suitcase covering the cell. */
    const trunkState: array2<char>

    /** The object invariant: the grid has `width` rows of `length` columns, and no suitcase is pending twice. */
    ghost predicate Valid()
      reads this
    {
      trunkState.Length0 == width && trunkState.Length1 == length && NoDuplicates(toAdd)
    }

    /** The grid as a value. */
    ghost function State(): (g: Grid)
      reads trunkState
      ensures Rectangular(g, trunkState.Length0, trunkState.Length1)
      ensures forall i, j :: 0 <= i < trunkState.Length0 && 0 <= j < trunkState.Length1 ==>
        g[i][j] == trunkState[i, j]
    {
      seq(trunkState.Length0, i requires 0 <= i < trunkState.Length0 reads trunkState =>
        seq(trunkState.Length1, j requires 0 <= j < trunkState.Length1 reads trunkState =>
          trunkState[i, j]))
    }

    /** A new trunk of the given size, empty, with the input's suitcases pending once each in some order. */
    constructor (length: nat, width: nat, toAdd: seq<Suitcase>)
      ensures Valid() && fresh(trunkState)
      ensures this.length == length && this.width == width
      ensures State() == EmptyGrid(width, length)
      ensures NotYetAdded() == ElementsOf(toAdd)
    {
      this.length := length;
      this.width := width;
      // new ArrayList<>(new HashSet<>(toAdd))
      var pending := ListOfSet(ElementsOf(toAdd));
      this.toAdd := pending;
      var grid := new char[width, length]((i, j) => EMPTY);
      this.trunkState := grid;
      new;
      SameGrid(State(), EmptyGrid(width, length));
    }

    /**
     * A copy of `toCopy`: same size, same grid in a fresh array, the same pending set
     * (re-listed through a hash set, so possibly in another order).
     */
    constructor Copy(toCopy: Trunk)
      requires toCopy.Valid()
      ensures Valid() && fresh(trunkState)
      ensures length == toCopy.length && width == toCopy.width
      ensures State() == toCopy.State()
      ensures NotYetAdded() == toCopy.NotYetAdded()
    {
      length := toCopy.length;
      width := toCopy.width;
      // this(..., new ArrayList<>(toCopy.getNotYetAdded())) lists the set, then de-duplicates again
      var copied := ListOfSet(toCopy.NotYetAdded());
      var pending := ListOfSet(ElementsOf(copied));
      toAdd := pending;
      var grid := new char[toCopy.width, toCopy.length]((i, j) => EMPTY);
      // System.arraycopy of each row
      for i := 0 to toCopy.width
        invariant forall r, c :: 0 <= r < i && 0 <= c < toCopy.length ==> grid[r, c] == toCopy.trunkState[r, c]
      {
        for j := 0 to toCopy.length
          invariant forall r, c :: 0 <= r < i && 0 <= c < toCopy.length ==> grid[r, c] == toCopy.trunkState[r, c]
          invariant forall c :: 0 <= c < j ==> grid[i, c] == toCopy.trunkState[i, c]
        {
          grid[i, j] := toCopy.trunkState[i, j];
        }
      }
      trunkState := grid;
      new;
      SameGrid(State(), toCopy.State());
    }

    /** The pending suitcases, as a set. */
    function NotYetAdded(): (pending: set<Suitcase>)
      reads this
      ensures NoDuplicates(toAdd) ==> |pending| == |toAdd|
    {
      assert NoDuplicates(toAdd) ==> |ElementsOf(toAdd)| == |toAdd| by {
        if NoDuplicates(toAdd) {
          DistinctCard(toAdd);
        }
      }
      ElementsOf(toAdd)
    }

    /** The pending list holds as many suitcases as the pending set. */
    lemma NotYetAddedSize()
      requires Valid()
      ensures |NotYetAdded()| == |toAdd|
    {
      DistinctCard(toAdd);
    }

    /** Every generated trunk is valid by construction, so the check always succeeds. */
    predicate IsValid()
      ensures IsValid()
    {
      true
    }

    /** A trunk is a goal when nothing is left to place. */
    predicate IsGoal()
      reads this
      ensures IsGoal() <==> NotYetAdded() == {}
    {
      assert toAdd != [] ==> toAdd[0] in NotYetAdded();
      |toAdd| == 0
    }

    /**
     * Whether `suitcase` anchored at (startRow, startCol) fits: every cell under it
     * must lie in the grid and be EMPTY; a cell outside the grid answers false.
     */
    method Open(startRow: nat, startCol: nat, suitcase: Suitcase) returns (ok: bool)
      requires Valid()
      ensures ok == Fits(State(), startRow, startCol, suitcase)
    {
      var row := startRow;
      while row < startRow + suitcase.width
        invariant startRow <= row
        invariant suitcase.width > 0 ==> row <= startRow + suitcase.width
        invariant forall i, j :: startRow <= i < row && InFootprint(i, j, startRow, startCol, suitcase) ==>
          Free(State(), i, j)
      {
        var col := startCol;
        while col < startCol + suitcase.length
          invariant startCol <= col
          invariant suitcase.length > 0 ==> col <= startCol + suitcase.length
          invariant forall i, j :: startRow <= i < row && InFootprint(i, j, startRow, startCol, suitcase) ==>
            Free(State(), i, j)
          invariant forall j :: startCol <= j < col ==> Free(State(), row, j)
        {
          if row >= trunkState.Length0 || col >= trunkState.Length1 || trunkState[row, col] != EMPTY {
            assert InFootprint(row, col, startRow, startCol, suitcase) && !Free(State(), row, col);
            return false;
          }
          col := col + 1;
        }
        row := row + 1;
      }
      return true;
    }

    /** Writes the suitcase's name on every cell under it; nothing else changes. */
    method FillSpaces(startRow: nat, startCol: nat, which: Suitcase)
      requires Valid() && Inside(startRow, startCol, which, width, length)
      modifies trunkState
      ensures State() == Stamp(old(State()), startRow, startCol, which)
    {
      ghost var before := State();
      var row := startRow;
      while row < startRow + which.width
        invariant startRow <= row
        invariant which.width > 0 ==> row <= startRow + which.width
        invariant forall i, j :: 0 <= i < width && 0 <= j < length ==>
          trunkState[i, j] == if startRow <= i < row && InFootprint(i, j, startRow, startCol, which)
                              then which.name else before[i][j]
      {
        var col := startCol;
        while col < startCol + which.length
          invariant startCol <= col
          invariant col == startCol || col <= startCol + which.length
          invariant forall i, j :: 0 <= i < width && 0 <= j < length ==>
            trunkState[i, j] == if (startRow <= i < row && InFootprint(i, j, startRow, startCol, which)) ||
                                   (i == row && startCol <= j < col)
                                then which.name else before[i][j]
        {
          trunkState[row, col] := which.name;
          col := col + 1;
        }
        row := row + 1;
      }
      SameGrid(State(), Stamp(before, startRow, startCol, which));
    }

    /** A fresh copy of this trunk with `suitcase` stamped in at (row, col); this trunk is untouched. */
    method GenerateCopyTrunk(row: nat, col: nat, suitcase: Suitcase) returns (copyTrunk: Trunk)
      requires Valid() && Inside(row, col, suitcase, width, length)
      ensures fresh(copyTrunk) && fresh(copyTrunk.trunkState) && copyTrunk.Valid()
      ensures copyTrunk.length == length && copyTrunk.width == width
      ensures copyTrunk.State() == Stamp(State(), row, col, suitcase)
      ensures copyTrunk.NotYetAdded() == NotYetAdded()
    {
      copyTrunk := new Trunk.Copy(this);
      copyTrunk.FillSpaces(row, col, suitcase);
    }

    /** `child` is the successor of this trunk made by placement `p` of suitcase `s`. */
    ghost predicate IsChild(child: Trunk, s: Suitcase, p: Placement)
      reads this, trunkState, child, child.trunkState
    {
      child.Valid() && child.length == length && child.width == width &&
      child.State() == ChildGrid(State(), s, p) &&
      child.NotYetAdded() == NotYetAdded()
    }

    /** `successors` are the children of this trunk for the placements `done` of `s`, each with its own grid array. */
    ghost predicate Children(successors: seq<Trunk>, s: Suitcase, done: seq<Placement>)
      reads this, trunkState, set t | t in successors, set t | t in successors :: t.trunkState
    {
      |successors| == |done| &&
      (forall k :: 0 <= k < |successors| ==> IsChild(successors[k], s, done[k])) &&
      forall k, k' :: 0 <= k < k' < |successors| ==> successors[k].trunkState != successors[k'].trunkState
    }

    lemma AddChild(successors: seq<Trunk>, s: Suitcase, done: seq<Placement>, child: Trunk, p: Placement)
      requires Children(successors, s, done) && IsChild(child, s, p)
      requires forall t :: t in successors ==> t.trunkState != child.trunkState
      ensures Children(successors + [child], s, done + [p])
    {
      var after := successors + [child];
      forall k | 0 <= k < |after| ensures after[k] in successors || after[k] == child {
        if k < |successors| {
          assert after[k] == successors[k];
        }
      }
    }

    /**
     * One step of the scan: `if (open(row, col, shape)) successors.add(generateCopyTrunk(row, col, shape))`,
     * where `shape` is suitcase `s`, turned or not.
     */
    method AddIfOpen(row: nat, col: nat, shape: Suitcase, successors: seq<Trunk>,
                     ghost s: Suitcase, ghost turned: bool, ghost done: seq<Placement>)
      returns (result: seq<Trunk>, ghost doneAfter: seq<Placement>)
      requires Valid() && shape == Orient(s, turned) && Children(successors, s, done)
      ensures doneAfter == done + if Fits(State(), row, col, shape) then [Placement(row, col, turned)] else []
      ensures Children(result, s, doneAfter)
      ensures |successors| <= |result| && result[..|successors|] == successors
      ensures forall k :: |successors| <= k < |result| ==> fresh(result[k]) && fresh(result[k].trunkState)
    {
      result, doneAfter := successors, done;
      var fits := Open(row, col, shape);
      if fits {
        FitsInside(State(), row, col, shape, width, length);
        var child := GenerateCopyTrunk(row, col, shape);
        AddChild(successors, s, done, child, Placement(row, col, turned));
        result := successors + [child];
        doneAfter := done + [Placement(row, col, turned)];
      }
    }

    /**
     * The body of the inner loop at one anchor: the suitcase unrotated, then, when
     * `turned` holds its turned version, turned.
     */
    method ScanAnchor(row: nat, col: nat, nextCase: Suitcase, turned: Option<Suitcase>, successors: seq<Trunk>,
                      ghost done: seq<Placement>)
      returns (result: seq<Trunk>, ghost doneAfter: seq<Placement>)
      requires Valid() && Children(successors, nextCase, done)
      requires turned == if !nextCase.IsSquare() then Some(nextCase.Turned()) else None
      ensures doneAfter == done + AnchorMoves(State(), nextCase, row, col)
      ensures Children(result, nextCase, doneAfter)
      ensures |successors| <= |result| && result[..|successors|] == successors
      ensures forall k :: |successors| <= k < |result| ==> fresh(result[k]) && fresh(result[k].trunkState)
    {
      result, doneAfter := AddIfOpen(row, col, nextCase, successors, nextCase, false, done);
      if turned.Some? {
        result, doneAfter := AddIfOpen(row, col, turned.value, result, nextCase, true, doneAfter);
      }
    }

    /**
     * The inner loop of the scan over one row: every column of row `row`, trying the
     * suitcase unrotated and then, when `turned` holds its turned version, turned.
     */
    method ScanRow(row: nat, nextCase: Suitcase, turned: Option<Suitcase>, successors: seq<Trunk>,
                   ghost done: seq<Placement>)
      returns (result: seq<Trunk>, ghost doneAfter: seq<Placement>)
      requires Valid() && row < width && Children(successors, nextCase, done)
      requires turned == if !nextCase.IsSquare() then Some(nextCase.Turned()) else None
      ensures doneAfter == done + RowMoves(State(), nextCase, row, 0)
      ensures Children(result, nextCase, doneAfter)
      ensures |successors| <= |result| && result[..|successors|] == successors
      ensures forall k :: |successors| <= k < |result| ==> fresh(result[k]) && fresh(result[k].trunkState)
    {
      ghost var g := State();
      result, doneAfter := successors, done;
      for col := 0 to trunkState.Length1
        invariant doneAfter + RowMoves(g, nextCase, row, col) == done + RowMoves(g, nextCase, row, 0)
        invariant Children(result, nextCase, doneAfter)
        invariant |successors| <= |result| && result[..|successors|] == successors
        invariant forall k :: |successors| <= k < |result| ==> fresh(result[k]) && fresh(result[k].trunkState)
      {
        ghost var anchorStart := doneAfter;
        result, doneAfter := ScanAnchor(row, col, nextCase, turned, result, doneAfter);
        ghost var anchor := AnchorMoves(g, nextCase, row, col);
        ghost var rest := RowMoves(g, nextCase, row, col + 1);
        assert RowMoves(g, nextCase, row, col) == anchor + rest;
        ConcatAssoc(anchorStart, anchor, rest);
      }
    }

    /**
     * Removes the first pending suitcase and returns one fresh child per placement of it
     * that fits, in row-major anchor order, unrotated before turned at one anchor. Each
     * child holds the parent's grid with the suitcase stamped in and the parent's
     * remaining suitcases as its pending set.
     */
    method GetSuccessors() returns (successors: seq<Trunk>)
      requires Valid() && !IsGoal()
      modifies this
      ensures Valid()
      ensures toAdd == old(toAdd)[1..]
      ensures State() == old(State())
      ensures |successors| == |Moves(State(), old(toAdd)[0])|
      ensures forall k :: 0 <= k < |successors| ==>
        fresh(successors[k]) && fresh(successors[k].trunkState) &&
        IsChild(successors[k], old(toAdd)[0], Moves(State(), old(toAdd)[0])[k])
      ensures forall k, k' :: 0 <= k < k' < |successors| ==>
        successors[k].trunkState != successors[k'].trunkState
    {
      var nextCase := toAdd[0];
      toAdd := toAdd[1..];
      var nextCaseTurned := if !nextCase.IsSquare() then Some(nextCase.Turned()) else None;
      successors := [];
      ghost var g := State();
      ghost var done: seq<Placement> := [];
      for row := 0 to trunkState.Length0
        modifies {}
        invariant Valid() && toAdd == old(toAdd)[1..] && State() == g
        invariant done + MovesFrom(g, nextCase, row) == Moves(g, nextCase)
        invariant forall k :: 0 <= k < |successors| ==> fresh(successors[k]) && fresh(successors[k].trunkState)
        invariant Children(successors, nextCase, done)
      {
        ghost var rowStart := done;
        successors, done := ScanRow(row, nextCase, nextCaseTurned, successors, done);
        ghost var here := RowMoves(g, nextCase, row, 0);
        ghost var rest := MovesFrom(g, nextCase, row + 1);
        assert MovesFrom(g, nextCase, row) == here + rest;
        ConcatAssoc(rowStart, here, rest);
      }
    }
  }

  lemma ConcatAssoc<T>(a: seq<T>, b: seq<T>, c: seq<T>)
    ensures a + (b + c) == (a + b) + c
  {
  }

  /** Two grids of the same shape that agree on every cell are equal. */
  lemma SameGrid(a: Grid, b: Grid)
    requires |a| == |b|
    requires forall i :: 0 <= i < |a| ==> |a[i]| == |b[i]|
    requires forall i, j :: 0 <= i < |a| && 0 <= j < |a[i]| ==> a[i][j] == b[i][j]
    ensures a == b
  {
    forall i | 0 <= i < |a| ensures a[i] == b[i] {
    }
  }
}
