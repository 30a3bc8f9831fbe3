/**
 * The occupancy grid of a trunk as a value: rows of cells, each either EMPTY or the
 * name of the suitcase covering it. Everything a trunk computes is specified here:
 * whether a suitcase fits at an anchor, the grid after stamping it in, and the
 * placements its successors are built from, in the order they are built.
 */
module Grids {
  import opened Suitcases

  /** The value of a fresh Java `char` cell, `'\u0000'`: nobody is there. */
  const EMPTY: char := '\0'

  /** Row `i`, column `j` is `g[i][j]`. */
  type Grid = seq<seq<char>>

  ghost predicate Rectangular(g: Grid, rows: nat, cols: nat)
  {
    |g| == rows && forall i :: 0 <= i < |g| ==> |g[i]| == cols
  }

  /** A grid of `rows` rows and `cols` columns, every cell EMPTY. */
  ghost function EmptyGrid(rows: nat, cols: nat): (g: Grid)
    ensures Rectangular(g, rows, cols)
  {
    seq(rows, _ => seq(cols, _ => EMPTY))
  }

  /** Cell (i, j) lies under suitcase `s` anchored (top-left) at (r, c). */
  predicate InFootprint(i: int, j: int, r: int, c: int, s: Suitcase)
  {
    r <= i < r + s.width && c <= j < c + s.length
  }

  /** Cell (i, j) exists in the grid and is unoccupied. */
  predicate Free(g: Grid, i: int, j: int)
  {
    0 <= i < |g| && 0 <= j < |g[i]| && g[i][j] == EMPTY
  }

  /** Every cell under `s` anchored at (r, c) exists and is unoccupied. */
  ghost predicate Fits(g: Grid, r: int, c: int, s: Suitcase)
  {
    forall i, j :: InFootprint(i, j, r, c, s) ==> Free(g, i, j)
  }

  /** No cell under `s` anchored at (r, c) falls outside a `rows` by `cols` grid. */
  predicate Inside(r: nat, c: nat, s: Suitcase, rows: nat, cols: nat)
  {
    s.width <= 0 || s.length <= 0 || (r + s.width <= rows && c + s.length <= cols)
  }

  /** The grid with every cell under `s` anchored at (r, c) set to the suitcase's name. */
  ghost function Stamp(g: Grid, r: int, c: int, s: Suitcase): Grid
  {
    seq(|g|, i requires 0 <= i < |g| =>
      seq(|g[i]|, j requires 0 <= j < |g[i]| =>
        if InFootprint(i, j, r, c, s) then s.name else g[i][j]))
  }

  /** `h` has the shape of `g` and differs from it only in cells that are EMPTY in `g`. */
  ghost predicate OnlyFillsEmpty(g: Grid, h: Grid)
  {
    |h| == |g| &&
    (forall i :: 0 <= i < |g| ==> |h[i]| == |g[i]|) &&
    forall i, j :: 0 <= i < |g| && 0 <= j < |g[i]| && h[i][j] != g[i][j] ==> g[i][j] == EMPTY
  }

  /** A suitcase that fits lies wholly inside the grid. */
  lemma FitsInside(g: Grid, r: nat, c: nat, s: Suitcase, rows: nat, cols: nat)
    requires Rectangular(g, rows, cols) && Fits(g, r, c, s)
    ensures Inside(r, c, s, rows, cols)
  {
    if s.width > 0 && s.length > 0 {
      assert InFootprint(r + s.width - 1, c + s.length - 1, r, c, s);
    }
  }

  /** In an empty grid a suitcase fits exactly where it lies wholly inside the grid. */
  lemma FitsEmptyIffInside(rows: nat, cols: nat, r: nat, c: nat, s: Suitcase)
    ensures Fits(EmptyGrid(rows, cols), r, c, s) <==> Inside(r, c, s, rows, cols)
  {
    if Fits(EmptyGrid(rows, cols), r, c, s) {
      FitsInside(EmptyGrid(rows, cols), r, c, s, rows, cols);
    }
  }

  /**
   * Stamping a suitcase that fits keeps the grid's shape, writes the name on every
   * cell of the footprint, leaves every other cell alone and never overwrites an
   * occupied cell.
   */
  lemma StampFitting(g: Grid, r: nat, c: nat, s: Suitcase)
    requires Fits(g, r, c, s)
    ensures OnlyFillsEmpty(g, Stamp(g, r, c, s))
    ensures forall i, j :: InFootprint(i, j, r, c, s) ==>
      0 <= i < |g| && 0 <= j < |g[i]| && Stamp(g, r, c, s)[i][j] == s.name
    ensures forall i, j :: 0 <= i < |g| && 0 <= j < |g[i]| && !InFootprint(i, j, r, c, s) ==>
      Stamp(g, r, c, s)[i][j] == g[i][j]
  {
    var h := Stamp(g, r, c, s);
    forall i, j | 0 <= i < |g| && 0 <= j < |g[i]| && h[i][j] != g[i][j]
      ensures g[i][j] == EMPTY
    {
      assert InFootprint(i, j, r, c, s);
    }
  }

  // ---------------------------------------------------------------------------
  // Occupied area

  /** The number of occupied cells in a row. */
  ghost function RowOccupied(row: seq<char>): nat
  {
    if row == [] then 0 else (if row[0] != EMPTY then 1 else 0) + RowOccupied(row[1..])
  }

  /** The number of occupied cells in a grid. */
  ghost function Occupied(g: Grid): nat
  {
    if g == [] then 0 else RowOccupied(g[0]) + Occupied(g[1..])
  }

  lemma {:induction false} RowOccupiedBound(row: seq<char>)
    ensures RowOccupied(row) <= |row|
  {
    if row != [] {
      RowOccupiedBound(row[1..]);
    }
  }

  /** A grid never has more occupied cells than it has cells. */
  lemma {:induction false} OccupiedBound(g: Grid, rows: nat, cols: nat)
    requires Rectangular(g, rows, cols)
    ensures Occupied(g) <= rows * cols
  {
    if g != [] {
      RowOccupiedBound(g[0]);
      OccupiedBound(g[1..], rows - 1, cols);
      assert rows * cols == cols + (rows - 1) * cols;
    }
  }

  /** A grid with no occupied cell. */
  lemma {:induction false} EmptyGridUnoccupied(rows: nat, cols: nat)
    ensures Occupied(EmptyGrid(rows, cols)) == 0
  {
    if rows > 0 {
      var g := EmptyGrid(rows, cols);
      assert g[1..] == EmptyGrid(rows - 1, cols);
      EmptyRowUnoccupied(g[0]);
      EmptyGridUnoccupied(rows - 1, cols);
    }
  }

  lemma {:induction false} EmptyRowUnoccupied(row: seq<char>)
    requires forall j :: 0 <= j < |row| ==> row[j] == EMPTY
    ensures RowOccupied(row) == 0
  {
    if row != [] {
      EmptyRowUnoccupied(row[1..]);
    }
  }

  /** `b` is `a` with the `len` EMPTY cells from column `c` on set to the non-EMPTY `name`. */
  ghost predicate FilledRow(a: seq<char>, b: seq<char>, c: nat, len: nat, name: char)
  {
    |a| == |b| && c + len <= |a| && name != EMPTY &&
    forall j :: 0 <= j < |a| ==>
      if c <= j < c + len then a[j] == EMPTY && b[j] == name else b[j] == a[j]
  }

  lemma {:induction false} FilledRowCount(a: seq<char>, b: seq<char>, c: nat, len: nat, name: char)
    requires FilledRow(a, b, c, len, name)
    ensures RowOccupied(b) == RowOccupied(a) + len
  {
    if a != [] {
      if c > 0 {
        FilledRowCount(a[1..], b[1..], c - 1, len, name);
      } else if len > 0 {
        FilledRowCount(a[1..], b[1..], 0, len - 1, name);
      } else {
        FilledRowCount(a[1..], b[1..], 0, 0, name);
      }
    }
  }

  /** `h` is `g` with the rows from `r` on, `height` of them, each filled as in FilledRow. */
  ghost predicate FilledBlock(g: Grid, h: Grid, r: nat, height: nat, c: nat, len: nat, name: char)
  {
    |g| == |h| && r + height <= |g| &&
    forall i :: 0 <= i < |g| ==>
      if r <= i < r + height then FilledRow(g[i], h[i], c, len, name) else h[i] == g[i]
  }

  lemma {:induction false} FilledBlockCount(g: Grid, h: Grid, r: nat, height: nat, c: nat, len: nat, name: char)
    requires FilledBlock(g, h, r, height, c, len, name)
    ensures Occupied(h) == Occupied(g) + height * len
  {
    if g != [] {
      if r > 0 {
        FilledBlockCount(g[1..], h[1..], r - 1, height, c, len, name);
      } else if height > 0 {
        FilledRowCount(g[0], h[0], c, len, name);
        FilledBlockCount(g[1..], h[1..], 0, height - 1, c, len, name);
        assert height * len == len + (height - 1) * len;
      } else {
        FilledBlockCount(g[1..], h[1..], 0, 0, c, len, name);
      }
    }
  }

  /**
   * Stamping a fitting suitcase of positive extents and non-EMPTY name into a
   * rectangular grid adds exactly the suitcase's area to the occupied area.
   */
  lemma StampAddsArea(g: Grid, r: nat, c: nat, s: Suitcase, rows: nat, cols: nat)
    requires Rectangular(g, rows, cols) && Fits(g, r, c, s)
    requires s.length > 0 && s.width > 0 && s.name != EMPTY
    ensures Occupied(Stamp(g, r, c, s)) == Occupied(g) + s.Area()
  {
    FitsInside(g, r, c, s, rows, cols);
    var h := Stamp(g, r, c, s);
    forall i | 0 <= i < |g| && r <= i < r + s.width
      ensures FilledRow(g[i], h[i], c, s.length as nat, s.name)
    {
      forall j | 0 <= j < |g[i]| && c <= j < c + s.length
        ensures g[i][j] == EMPTY
      {
        assert InFootprint(i, j, r, c, s);
      }
    }
    assert FilledBlock(g, h, r, s.width as nat, c, s.length as nat, s.name);
    FilledBlockCount(g, h, r, s.width as nat, c, s.length as nat, s.name);
  }

  // ---------------------------------------------------------------------------
  // Successor placements

  /** Where a successor puts the pending suitcase: its anchor, and whether it is turned. */
  datatype Placement = Placement(row: nat, col: nat, turned: bool)

  /** The shape that is placed: the suitcase itself or its turned version. */
  function Orient(s: Suitcase, turned: bool): Suitcase
  {
    if turned then s.Turned() else s
  }

  /** The grid of the successor made from placement `p` of suitcase `s`. */
  ghost function ChildGrid(g: Grid, s: Suitcase, p: Placement): Grid
  {
    Stamp(g, p.row, p.col, Orient(s, p.turned))
  }

  /**
   * Reference description of a successor: the anchor is a cell of the grid, a turned
   * placement is only tried for a non-square suitcase, and the placed shape fits.
   */
  ghost predicate Allowed(g: Grid, s: Suitcase, p: Placement)
  {
    p.row < |g| && p.col < |g[p.row]| && (p.turned ==> !s.IsSquare()) &&
    Fits(g, p.row, p.col, Orient(s, p.turned))
  }

  /** The placements tried at one anchor: unrotated first, then turned when non-square. */
  ghost function AnchorMoves(g: Grid, s: Suitcase, r: nat, c: nat): seq<Placement>
  {
    (if Fits(g, r, c, s) then [Placement(r, c, false)] else []) +
    (if !s.IsSquare() && Fits(g, r, c, s.Turned()) then [Placement(r, c, true)] else [])
  }

  /** The placements of row `r`, columns `c` onwards, column by column. */
  ghost function RowMoves(g: Grid, s: Suitcase, r: nat, c: nat): seq<Placement>
    requires r < |g|
    decreases |g[r]| - c
  {
    if c >= |g[r]| then [] else AnchorMoves(g, s, r, c) + RowMoves(g, s, r, c + 1)
  }

  /** The placements of rows `r` onwards, row by row. */
  ghost function MovesFrom(g: Grid, s: Suitcase, r: nat): seq<Placement>
    decreases |g| - r
  {
    if r >= |g| then [] else RowMoves(g, s, r, 0) + MovesFrom(g, s, r + 1)
  }

  /** The placements the successors of a trunk are built from, in the order they are built. */
  ghost function Moves(g: Grid, s: Suitcase): seq<Placement>
  {
    MovesFrom(g, s, 0)
  }

  /** Row-major order of anchors; at a shared anchor the unrotated placement comes first. */
  predicate Precedes(p: Placement, q: Placement)
  {
    p.row < q.row ||
    (p.row == q.row && (p.col < q.col || (p.col == q.col && !p.turned && q.turned)))
  }

  predicate Ordered(ps: seq<Placement>)
  {
    forall i, j :: 0 <= i < j < |ps| ==> Precedes(ps[i], ps[j])
  }

  lemma OrderedConcat(a: seq<Placement>, b: seq<Placement>)
    requires Ordered(a) && Ordered(b)
    requires forall p, q :: p in a && q in b ==> Precedes(p, q)
    ensures Ordered(a + b)
  {
    var ab := a + b;
    forall i, j | 0 <= i < j < |ab| ensures Precedes(ab[i], ab[j]) {
      if j < |a| {
        assert ab[i] == a[i] && ab[j] == a[j];
      } else if i >= |a| {
        assert ab[i] == b[i - |a|] && ab[j] == b[j - |a|];
      } else {
        assert ab[i] == a[i] && ab[j] == b[j - |a|];
      }
    }
  }

  lemma {:induction false} RowMovesExact(g: Grid, s: Suitcase, r: nat, c: nat, p: Placement)
    requires r < |g|
    ensures p in RowMoves(g, s, r, c) <==> p.row == r && c <= p.col && Allowed(g, s, p)
    decreases |g[r]| - c
  {
    if c < |g[r]| {
      RowMovesExact(g, s, r, c + 1, p);
    }
  }

  lemma {:induction false} MovesFromExact(g: Grid, s: Suitcase, r: nat, p: Placement)
    ensures p in MovesFrom(g, s, r) <==> r <= p.row && Allowed(g, s, p)
    decreases |g| - r
  {
    if r < |g| {
      RowMovesExact(g, s, r, 0, p);
      MovesFromExact(g, s, r + 1, p);
    }
  }

  /**
   * A placement is among the successors exactly when it is Allowed: every fitting
   * anchor and orientation is tried, and nothing that does not fit is produced.
   */
  lemma MovesExact(g: Grid, s: Suitcase, p: Placement)
    ensures p in Moves(g, s) <==> Allowed(g, s, p)
  {
    MovesFromExact(g, s, 0, p);
  }

  /** A square suitcase never yields a turned successor. */
  lemma SquareNeverTurned(g: Grid, s: Suitcase)
    requires s.IsSquare()
    ensures forall p :: p in Moves(g, s) ==> !p.turned
  {
    forall p | p in Moves(g, s) ensures !p.turned {
      MovesExact(g, s, p);
    }
  }

  lemma {:induction false} RowMovesOrdered(g: Grid, s: Suitcase, r: nat, c: nat)
    requires r < |g|
    ensures Ordered(RowMoves(g, s, r, c))
    ensures forall p :: p in RowMoves(g, s, r, c) ==> p.row == r && c <= p.col
    decreases |g[r]| - c
  {
    if c < |g[r]| {
      RowMovesOrdered(g, s, r, c + 1);
      OrderedConcat(AnchorMoves(g, s, r, c), RowMoves(g, s, r, c + 1));
    }
  }

  lemma {:induction false} MovesFromOrdered(g: Grid, s: Suitcase, r: nat)
    ensures Ordered(MovesFrom(g, s, r))
    ensures forall p :: p in MovesFrom(g, s, r) ==> r <= p.row
    decreases |g| - r
  {
    if r < |g| {
      RowMovesOrdered(g, s, r, 0);
      MovesFromOrdered(g, s, r + 1);
      OrderedConcat(RowMoves(g, s, r, 0), MovesFrom(g, s, r + 1));
    }
  }

  /**
   * Successors come in row-major anchor order, the unrotated one before the turned one
   * at a shared anchor; hence no placement repeats and an anchor yields at most two.
   */
  lemma MovesOrdered(g: Grid, s: Suitcase)
    ensures Ordered(Moves(g, s))
  {
    MovesFromOrdered(g, s, 0);
  }

  lemma {:induction false} RowMovesCount(g: Grid, s: Suitcase, r: nat, c: nat)
    requires r < |g| && c <= |g[r]|
    ensures |RowMoves(g, s, r, c)| <= 2 * (|g[r]| - c)
    decreases |g[r]| - c
  {
    if c < |g[r]| {
      RowMovesCount(g, s, r, c + 1);
    }
  }

  lemma {:induction false} MovesFromCount(g: Grid, s: Suitcase, r: nat, rows: nat, cols: nat)
    requires Rectangular(g, rows, cols) && r <= rows
    ensures |MovesFrom(g, s, r)| <= 2 * cols * (rows - r)
    decreases rows - r
  {
    if r < rows {
      RowMovesCount(g, s, r, 0);
      MovesFromCount(g, s, r + 1, rows, cols);
      assert 2 * cols * (rows - r) == 2 * cols + 2 * cols * (rows - (r + 1));
    }
  }

  /** At most two successors per anchor: `2 * rows * cols` in all. */
  lemma MovesCount(g: Grid, s: Suitcase, rows: nat, cols: nat)
    requires Rectangular(g, rows, cols)
    ensures |Moves(g, s)| <= 2 * cols * rows
  {
    MovesFromCount(g, s, 0, rows, cols);
  }

  /**
   * Every successor grid differs from its parent only in cells that were EMPTY there,
   * and holds the suitcase's name on the whole footprint of its placement.
   */
  lemma ChildrenOnlyFillEmpty(g: Grid, s: Suitcase)
    ensures forall p :: p in Moves(g, s) ==> OnlyFillsEmpty(g, ChildGrid(g, s, p))
    ensures forall p, i, j :: p in Moves(g, s) && InFootprint(i, j, p.row, p.col, Orient(s, p.turned)) ==>
      0 <= i < |g| && 0 <= j < |g[i]| && ChildGrid(g, s, p)[i][j] == s.name
  {
    forall p | p in Moves(g, s)
      ensures OnlyFillsEmpty(g, ChildGrid(g, s, p))
      ensures forall i, j :: InFootprint(i, j, p.row, p.col, Orient(s, p.turned)) ==>
        0 <= i < |g| && 0 <= j < |g[i]| && ChildGrid(g, s, p)[i][j] == s.name
    {
      MovesExact(g, s, p);
      StampFitting(g, p.row, p.col, Orient(s, p.turned));
    }
  }

  /** Every successor grid has the parent's occupied area plus the suitcase's area. */
  lemma ChildrenAddArea(g: Grid, s: Suitcase, rows: nat, cols: nat)
    requires Rectangular(g, rows, cols)
    requires s.length > 0 && s.width > 0 && s.name != EMPTY
    ensures forall p :: p in Moves(g, s) ==> Occupied(ChildGrid(g, s, p)) == Occupied(g) + s.Area()
  {
    forall p | p in Moves(g, s) ensures Occupied(ChildGrid(g, s, p)) == Occupied(g) + s.Area() {
      MovesExact(g, s, p);
      TurnedKeepsNameAndArea(s);
      StampAddsArea(g, p.row, p.col, Orient(s, p.turned), rows, cols);
    }
  }

  /** No suitcase of `pending` has its name anywhere on the grid. */
  ghost predicate OffGrid(g: Grid, pending: set<Suitcase>)
  {
    forall t, i, j :: t in pending && 0 <= i < |g| && 0 <= j < |g[i]| ==> g[i][j] != t.name
  }

  /** Distinct suitcases have distinct names. */
  ghost predicate UniqueNames(pending: set<Suitcase>)
  {
    forall t, u :: t in pending && u in pending && t.name == u.name ==> t == u
  }

  /**
   * With uniquely named suitcases, a suitcase that is still pending is nowhere on the
   * grid, and it stays so in every successor: only the placed suitcase's name is written.
   */
  lemma ChildrenKeepPendingOffGrid(g: Grid, s: Suitcase, rest: set<Suitcase>)
    requires OffGrid(g, rest + {s}) && UniqueNames(rest + {s}) && s !in rest
    ensures forall p :: p in Moves(g, s) ==> OffGrid(ChildGrid(g, s, p), rest)
  {
    forall p | p in Moves(g, s) ensures OffGrid(ChildGrid(g, s, p), rest) {
      var h := ChildGrid(g, s, p);
      forall t, i, j | t in rest && 0 <= i < |h| && 0 <= j < |h[i]| ensures h[i][j] != t.name {
        assert t != s;
      }
    }
  }
}
