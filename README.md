# Trunk packing: a Dafny model of the placement state

This project models the packing state of a small backtracking puzzle: named
rectangular suitcases must be fitted, possibly turned by 90 degrees, into a
trunk of fixed size. A `Trunk` is one node of the search. It holds an occupancy
grid of `width` rows by `length` columns, in which each cell is `'\u0000'`
(EMPTY) or the name of the suitcase covering it, and the list of suitcases not
yet placed. `getSuccessors` removes the first pending suitcase from the trunk
it is called on. It then scans every anchor cell row by row, column by column,
and builds one child trunk for each orientation that fits there: a copy of
the grid with the suitcase's name stamped over its footprint. The two value
types beside it are also modelled: `Suitcase` (name, length, width, turning,
equality, hash code) and `Coordinate` (x, y, equality, hash code, rendering).

Modules:

- `JavaInt` (javaint.dfy): Java's 32-bit `int` as the subset type `i32`, and `Wrap`, the two's-complement wrap-around that the hash codes rely on.
- `JavaLang` (javalang.dfy): what a Java `equals(Object)` may be handed (`null`, an instance of the class, an object of another class) and how a call may end (a value or a `NullPointerException`).
- `Collections` (collections.dfy): lists as sequences. `ListOfSet` models `new ArrayList<>(hashSet)`. It is a loop that takes the set's elements one by one in an unspecified order, because Java takes that order from the hash table.
- `Suitcases` (suitcase.dfy): the `Suitcase` datatype. Java's getters are the destructors `name`, `length` and `width`, so they return exactly the constructor's arguments.
- `Coordinates` (coordinate.dfy): the `Coordinate` datatype, `ORIGIN`, and `toString` built on a decimal rendering of `int`. `ParseCoordinate` reads a rendering back and is the partner of `toString`.
- `Grids` (grid.dfy): the grid as a value (`seq<seq<char>>`) and the specification of what a trunk computes. `Fits` is the fit test. `Stamp` is the grid after a placement. `Moves` lists the placements the successors are built from, in the order they are built. `Occupied` counts the occupied cells.
- `Trunks` (trunk.dfy): the class `Trunk`. The grid is an `array2<char>`. `length`, `width` and the array are constants, because the source never reassigns them after construction. `toAdd` is a mutable `seq<Suitcase>`. The methods update the array and the list in place, with loops, and their contracts tie the results to the functions of `Grids`. One `if (open(..)) successors.add(..)` statement of `getSuccessors` is the method `AddIfOpen`. The body of its column loop, which holds both such statements, is `ScanAnchor`. The column loop itself is `ScanRow`. The code is the same as the source's; the split only keeps each proof small.
- `Scenarios` (scenarios.dfy): the three fixed test instances as root trunks, and the first level of successors of the second one.

The pending list is not sorted: the constructor and the copy constructor both
copy it through a `HashSet`, so the model fixes only its set of suitcases and
that none is pending twice. `getSuccessors` changes the receiver: it removes
the first pending suitcase.

## Model

| member | source | states |
|---|---|---|
| `Collections.ListOfSet` | Trunk.java:30 | copying a hash set into a list gives each element of the set exactly once (same set, no duplicates, same size), in an unspecified order |
| `Trunks.Trunk.constructor` | Trunk.java:21-34 | the new trunk has the given length and width, a fresh grid of `width` rows by `length` columns that are all EMPTY, and a duplicate-free pending list with the same set of suitcases as the input |
| `Trunks.Trunk.Copy` | Trunk.java:36-44 | the copy has the same size and the same pending set, and a fresh grid array equal cell for cell to the original's; the original is not modified |
| `Trunks.Trunk.NotYetAdded` | Trunk.java:135-138 | the pending set has as many suitcases as the pending list whenever the list has no duplicates |
| `Trunks.Trunk.NotYetAddedSize` | Trunk.java:135-138 | the pending set has exactly as many suitcases as the pending list, because the list has no duplicates |
| `Trunks.Trunk.IsValid` | Trunk.java:165-168 | the validity check always succeeds |
| `Trunks.Trunk.IsGoal` | Trunk.java:175-178 | a trunk is a goal exactly when its pending set is empty |
| `Trunks.Trunk.Open` | Trunk.java:87-106 | the answer is true exactly when every cell of the footprint (rows `[r, r+width)`, columns `[c, c+length)`) lies inside the grid and is EMPTY; a cell outside the grid makes it false instead of failing |
| `Trunks.Trunk.FillSpaces` | Trunk.java:118-128 | afterwards the grid is the old grid with the suitcase's name on its footprint, and nothing else has changed |
| `Trunks.Trunk.GenerateCopyTrunk` | Trunk.java:108-116 | returns a fresh trunk with a fresh grid, equal to the receiver's grid stamped with the suitcase, and with the receiver's pending set; the receiver is not modified |
| `Trunks.Trunk.AddIfOpen` | Trunk.java:66-71 | one `if (open) successors.add(generateCopyTrunk(..))` step: a child is appended exactly when the shape fits, it is the stamped copy for that placement, and the earlier children are kept |
| `Trunks.Trunk.ScanAnchor` | Trunk.java:63-72 | at one anchor, appends exactly the children for the placements `AnchorMoves` lists there: the unrotated one if it fits, then the turned one if the suitcase is not square and it fits |
| `Trunks.Trunk.ScanRow` | Trunk.java:63-72 | scanning one row appends, in column order, exactly the children for the placements `RowMoves` lists for that row |
| `Trunks.Trunk.GetSuccessors` | Trunk.java:47-76 | needs a non-empty pending list; removes exactly the first pending suitcase and leaves the grid unchanged; returns one fresh child per entry of `Moves(grid, first)`, in that order, each with its own grid array; child k's grid is the parent's stamped with placement k, and its pending set is the receiver's remaining set |
| `Grids.FitsEmptyIffInside` | Trunk.java:87-106 | in an empty grid a suitcase fits at an anchor exactly when its footprint lies inside the trunk |
| `Grids.StampFitting` | Trunk.java:118-128 | stamping a fitting suitcase writes its name on every footprint cell, which is always inside the grid; it leaves every other cell unchanged and changes only cells that were EMPTY |
| `Grids.StampAddsArea` | Trunk.java:118-128 | stamping a fitting suitcase with positive extents and a non-EMPTY name adds exactly its area `length * width` to the number of occupied cells |
| `Grids.OccupiedBound` | Trunk.java:33 | a grid of `rows` by `cols` never has more than `rows * cols` occupied cells |
| `Grids.EmptyGridUnoccupied` | Trunk.java:33 | a freshly allocated grid has no occupied cell |
| `Grids.MovesExact` | Trunk.java:53-73 | a placement is produced exactly when its anchor is a grid cell, the shape placed at that anchor fits, and it is turned only if the suitcase is not square: nothing that fits is missed, and nothing that does not fit is produced |
| `Grids.SquareNeverTurned` | Trunk.java:53 | a square suitcase never yields a turned placement |
| `Grids.MovesOrdered` | Trunk.java:60-73 | the placements are strictly increasing in row-major anchor order, the unrotated before the turned one at a shared anchor; hence none repeats and each anchor contributes at most two |
| `Grids.MovesCount` | Trunk.java:60-73 | there are at most `2 * cols * rows` successors |
| `Grids.ChildrenOnlyFillEmpty` | Trunk.java:66-71 | every child's grid differs from the parent's only in cells that were EMPTY in the parent, so placements never overlap; the whole footprint of the child's placement holds the suitcase's name |
| `Grids.ChildrenAddArea` | Trunk.java:66-71 | when the suitcase has positive length and width and a name other than EMPTY, every child has exactly the suitcase's area more occupied cells than its parent, whether turned or not (a suitcase with a negative extent fits everywhere yet covers no cell) |
| `Grids.ChildrenKeepPendingOffGrid` | Trunk.java:50-71 | when names are unique and no pending suitcase's name is on the grid, the suitcases still pending in a child are not on the child's grid either |
| `Suitcases.Suitcase.IsSquare` | Suitcase.java:30-32 | a suitcase is square exactly when turning it gives the same suitcase |
| `Suitcases.Suitcase.Turned` | Suitcase.java:38-40 | the turned suitcase keeps the name and the area |
| `Suitcases.Suitcase.Equals` | Suitcase.java:81-93 | `equals` between two suitcases holds exactly when they are the same value |
| `Suitcases.Suitcase.HashCode` | Suitcase.java:70-73 | the hash code is the name's code plus length plus width, modulo 2^32 |
| `Suitcases.EqualsAsWritten` | Suitcase.java:81-93 | as written, `equals(Object)` throws exactly when handed `null`, and answers true exactly for a suitcase with the same data |
| `Suitcases.TurnedTwice` | Suitcase.java:38-40 | turning twice gives back the original suitcase |
| `Suitcases.SquareIffTurnedSame` | Suitcase.java:30-40 | a suitcase is square exactly when turning it gives an equal suitcase |
| `Suitcases.TurnedKeepsNameAndArea` | Suitcase.java:38-40 | turning keeps the name and the area |
| `Suitcases.EqualsIsEquality` | Suitcase.java:81-93 | `equals` between suitcases holds exactly when name, length and width all match, so it is reflexive and symmetric |
| `Suitcases.HashCodeIsSum` | Suitcase.java:70-73 | the hash code, computed with two wrapping additions, is the name's code plus length plus width, modulo 2^32 |
| `Suitcases.HashCodeConsistent` | Suitcase.java:70-93 | equal suitcases have equal hash codes, and turning keeps the hash code |
| `Suitcases.EqualsNullThrows` | Suitcase.java:81-93 | as written, `equals(null)` throws a NullPointerException |
| `Suitcases.EqualsObjectContract` | Suitcase.java:75-93 | documented `equals`: true exactly for a suitcase with the same data, false for `null`; agrees with the written code on every non-null argument |
| `Coordinates.Coordinate.HashCode` | Coordinate.java:58-61 | the hash code is `x + 0x10000 * y` modulo 2^32 |
| `Coordinates.Coordinate.Equals` | Coordinate.java:69-79 | `equals` between two coordinates holds exactly when they are the same value |
| `Coordinates.EqualsAsWritten` | Coordinate.java:69-79 | as written, `equals(Object)` throws exactly when handed `null`, and answers true exactly for a coordinate with the same x and y |
| `Coordinates.Coordinate.ToString` | Coordinate.java:49-52 | the rendering `"(" + x + ", " + y + ")"` reads back, through `ParseCoordinate`, to the same coordinate |
| `Coordinates.IntToString` | Coordinate.java:51 | the decimal rendering of an `int` is a non-empty numeral, optionally negated, with no comma, and it reads back to the same integer |
| `Coordinates.EqualsIsEquality` | Coordinate.java:69-79 | `equals` between coordinates holds exactly when x and y both match, so it is reflexive and symmetric |
| `Coordinates.EqualsNullThrows` | Coordinate.java:69-79 | as written, `equals(null)` throws a NullPointerException |
| `Coordinates.EqualsObjectContract` | Coordinate.java:63-79 | documented `equals`: true exactly for a coordinate with the same x and y, false for `null`; agrees with the written code on every non-null argument |
| `Coordinates.HashCodeIsShiftedSum` | Coordinate.java:58-61 | the hash code, computed as `x + 0x10000 * y` with each operation wrapping, is `x + 0x10000 * y` modulo 2^32; equal coordinates hash alike |
| `Coordinates.HashCodeInjectiveOnSmall` | Coordinate.java:58-61 | for `0 <= x < 0x10000` and `0 <= y < 0x8000`, distinct coordinates have distinct hash codes |
| `Coordinates.OriginIsCorner` | Coordinate.java:42 | ORIGIN is (0, 0); it renders as "(0, 0)" and hashes to 0 |
| `Coordinates.ToStringInjective` | Coordinate.java:49-52 | `"(" + x + ", " + y + ")"` determines the coordinate: distinct coordinates render differently |
| `Scenarios.Root` | Trunk.java:21-34 | a root trunk built from a duplicate-free list is empty, has no occupied cell, has all the list's suitcases pending, and is a goal exactly when the list is empty |
| `Scenarios.Test1` | Tests.java:160-170 | the first fixed instance: an empty 3 by 3 trunk with 5 suitcases pending |
| `Scenarios.Test2` | Tests.java:177-184 | the second fixed instance: an empty trunk of length 4 and width 2 with 2 suitcases pending |
| `Scenarios.Test3` | Tests.java:191-202 | the third fixed instance: an empty trunk of length 8 and width 4 with 6 suitcases pending |
| `Scenarios.Test2FirstLevel` | Tests.java:177-184 | whichever of the second instance's suitcases is pending first, the root has exactly two successors, both turned, anchored at (0, 0) and (1, 0) |

## Left out

- Display: both `display` methods (Trunk.java:183-199, Suitcase.java:109-117) only print to the console.
- Test driver: argument parsing, file loading, timing, console output and random instance generation in Tests.java are I/O. Only the three fixed instances are used, as roots.
- Search engine: the backtracking solver and the `Configuration` interface are not part of this model. `Trunk` only declares that it implements the interface. No claim is made about whether any instance can be solved.
- Hash set order: the order in which `HashSet` lists its elements is left unspecified.
- Empty pending list: `toAdd.remove(0)` on an empty list throws. `GetSuccessors` requires a trunk that is not a goal instead of modelling the exception.
- Integer overflow in the loops: the bounds `startRow + width` and `startCol + length` are computed without wrap-around. They only overflow for suitcase extents near 2^31.
- Array shape: Java's `char[][]` is an array of row arrays. It is modelled as one `array2<char>`, because every row is created with the same length and no row array is ever replaced or shared.
- Characters: a suitcase name is a Dafny `char` (a Unicode scalar value) rather than a UTF-16 code unit. `Character.hashCode` is taken as the character's code.
- Negative trunk sizes: they make `new char[width][length]` throw, so the trunk's length and width are `nat`.

## Findings

| source | as written | input that shows it | evidently intended | confidence | as-written member | corrected member |
|---|---|---|---|---|---|---|
| Suitcase.java:81-93 | `(Suitcase) null` succeeds, then `otherSC.name` dereferences null | `s.equals(null)` | return false: the method's documentation promises true only for a suitcase with the same data, and `Object.equals` requires false for null | high, not executed | `Suitcases.EqualsNullThrows` | `Suitcases.EqualsObjectContract` |
| Coordinate.java:69-79 | `(Coordinate) null` succeeds, then `otherC.x` dereferences null | `c.equals(null)` | return false: the method's documentation promises true only for another coordinate with the same x and y, and `Object.equals` requires false for null | high, not executed | `Coordinates.EqualsNullThrows` | `Coordinates.EqualsObjectContract` |

The rest of the model compares suitcases and coordinates only with each
other, by value equality, and that is exactly what the corrected `equals`
computes on them.
