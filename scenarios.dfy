/** The three fixed instances of the test driver, as root trunks, and the first level of the second. */
module Scenarios {
  import opened Collections
  import opened Suitcases
  import opened Grids
  import opened Trunks

  /** Five suitcases that exactly cover a 3 by 3 trunk without turning. */
  const TEST1: seq<Suitcase> := [Suitcase('A', 1, 3), Suitcase('B', 2, 1), Suitcase('C', 1, 2),
                                 Suitcase('D', 1, 1), Suitcase('E', 1, 1)]

  /** Two suitcases that cover a 4 by 2 trunk only when turned. */
  const TEST2: seq<Suitcase> := [Suitcase('A', 1, 4), Suitcase('B', 1, 4)]

  /** Six suitcases whose areas add up to more than an 8 by 4 trunk holds. */
  const TEST3: seq<Suitcase> := [Suitcase('A', 1, 1), Suitcase('B', 2, 2), Suitcase('C', 1, 4),
                                 Suitcase('D', 2, 1), Suitcase('E', 8, 4), Suitcase('F', 1, 1)]

  /** The root of a test: an empty trunk with every suitcase pending. */
  method Root(length: nat, width: nat, cases: seq<Suitcase>) returns (t: Trunk)
    requires NoDuplicates(cases)
    ensures fresh(t) && t.Valid() && t.length == length && t.width == width
    ensures t.State() == EmptyGrid(width, length) && Occupied(t.State()) == 0
    ensures t.NotYetAdded() == ElementsOf(cases) && |t.toAdd| == |cases|
    ensures !t.IsGoal() <==> cases != []
  {
    t := new Trunk(length, width, cases);
    t.NotYetAddedSize();
    DistinctCard(cases);
    EmptyGridUnoccupied(width, length);
  }

  method Test1() returns (t: Trunk)
    ensures fresh(t) && t.Valid() && t.length == 3 && t.width == 3
    ensures t.State() == EmptyGrid(3, 3) && |t.toAdd| == 5 && t.NotYetAdded() == ElementsOf(TEST1)
  {
    t := Root(3, 3, TEST1);
  }

  method Test2() returns (t: Trunk)
    ensures fresh(t) && t.Valid() && t.length == 4 && t.width == 2
    ensures t.State() == EmptyGrid(2, 4) && |t.toAdd| == 2 && t.NotYetAdded() == ElementsOf(TEST2)
  {
    t := Root(4, 2, TEST2);
  }

  method Test3() returns (t: Trunk)
    ensures fresh(t) && t.Valid() && t.length == 8 && t.width == 4
    ensures t.State() == EmptyGrid(4, 8) && |t.toAdd| == 6 && t.NotYetAdded() == ElementsOf(TEST3)
  {
    t := Root(8, 4, TEST3);
  }

  /**
   * In the second test, whichever suitcase is pending first, the root has exactly two
   * successors, both turned: lying along row 0 and along row 1.
   */
  lemma Test2FirstLevel(s: Suitcase)
    requires s in TEST2
    ensures Moves(EmptyGrid(2, 4), s) == [Placement(0, 0, true), Placement(1, 0, true)]
  {
    var g := EmptyGrid(2, 4);
    forall r: nat, c: nat | r < 2 && c < 4
      ensures AnchorMoves(g, s, r, c) == if c == 0 then [Placement(r, 0, true)] else []
    {
      FitsEmptyIffInside(2, 4, r, c, s);
      FitsEmptyIffInside(2, 4, r, c, s.Turned());
    }
    forall r: nat | r < 2 ensures RowMoves(g, s, r, 0) == [Placement(r, 0, true)] {
      assert RowMoves(g, s, r, 4) == [];
      assert RowMoves(g, s, r, 3) == [];
      assert RowMoves(g, s, r, 2) == [];
      assert RowMoves(g, s, r, 1) == [];
    }
    assert MovesFrom(g, s, 2) == [];
    assert MovesFrom(g, s, 1) == [Placement(1, 0, true)];
  }
}
