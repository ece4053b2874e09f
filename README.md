# Counting axis-aligned squares among stored points

This project models the square-counting operation of the Kvadratai points
service, `PointsService.CountSquares`. The service keeps a list of points
with integer coordinates. The operation reports how many axis-aligned
squares have all four corners among those points.

The operation works in four steps:

1. It builds an index: the set of `(X, Y)` coordinate pairs of the list.
2. It visits every ordered pair `(p1, p2)` of list entries with two nested loops.
3. It skips a pair whose points share an X or a Y, or whose X and Y
   distances differ.
4. It counts the pair when both remaining corners `(p1.X, p2.Y)` and
   `(p2.X, p1.Y)` are in the index. It returns the count divided by four.

Files and modules:

- `point.dfy` (module `Model`): the `Point` value, reduced to its two coordinates.
- `square_spec.dfy` (module `SquareSpec`): the index, the pair test
  `Matches`, the count of one inner-loop run (`Row`), the count of the
  nested loops (`Pairs`) and the final counter value `RawMatches`. It also
  holds the lemmas that follow from these definitions alone.
- `squares.dfy` (module `Squares`): an independent geometric definition of
  the squares of an index. It proves that a matching pair is exactly an
  ordered diagonal of such a square. It proves that, without repeated
  coordinates, every square is counted four times.
- `points_service.dfy` (module `PointsService`): the method `CountSquares`
  with its nested loops, proved against `RawMatches` and against the square count.
- `invariance.dfy` (module `Invariance`): the count is unchanged by
  reordering the list, by translation, by reflection and by exchanging the
  axes. Storing every point twice multiplies the raw count by four.
  Reflection covers negating every X and negating every Y.
- `examples.dfy` (module `Scenarios`): the unit-test input (±1, ±1),
  (±2, ±2) gives 2. The unit square with one corner stored twice gives six
  matching pairs and a result of 1. A list without repeated coordinates,
  stored twice, is reported with four times as many squares as it holds.

Each square has two diagonals and each diagonal is met in both orders, so
one expects the raw count to be a multiple of four. That is guaranteed only
when no coordinates repeat. With one corner of the unit square stored twice, the raw
count is 6 (`Scenarios.RepeatedCornerSixMatches`). With the whole unit square
stored twice, the service reports 4 squares where the index holds one
(`Scenarios.DoubledUnitSquareReportsFour`). The model follows the code:
repeated coordinates are counted once per list entry, as the loops do. The
add operations of the service store points without removing duplicates, so
such lists can reach the count.

## Model

| member | source | states |
|---|---|---|
| `PointsService.CountSquares` | Kvadratai/Kvadratai/Services/PointsService.cs:113-137 | the result is the number of matching ordered pairs of list entries divided by four, is never negative, is 0 for an empty list, and equals the number of distinct squares when no coordinates repeat |
| `SquareSpec.IndexMembers` | Kvadratai/Kvadratai/Services/PointsService.cs:115 | a coordinate pair is in the index exactly when some list entry has those coordinates |
| `SquareSpec.MatchesSymmetric` | Kvadratai/Kvadratai/Services/PointsService.cs:122-129 | (p1, p2) passes the pair test exactly when (p2, p1) does |
| `SquareSpec.SharedCoordinateNeverMatches` | Kvadratai/Kvadratai/Services/PointsService.cs:122 | a pair sharing an X or a Y never increments the counter |
| `SquareSpec.NoSelfMatch` | Kvadratai/Kvadratai/Services/PointsService.cs:122 | a point paired with itself never increments the counter, whatever the index holds |
| `SquareSpec.PairsWithSelfEven` | Kvadratai/Kvadratai/Services/PointsService.cs:118-133 | pairing any list with itself counts an even number of matches, against any index |
| `SquareSpec.RawMatchesEven` | Kvadratai/Kvadratai/Services/PointsService.cs:118-133 | the counter's final value is always even |
| `SquareSpec.RowZeroIff` | Kvadratai/Kvadratai/Services/PointsService.cs:120-133 | one inner-loop run adds nothing exactly when no entry matches the outer point |
| `SquareSpec.PairsZeroIff` | Kvadratai/Kvadratai/Services/PointsService.cs:118-133 | the counter stays 0 exactly when no ordered pair of entries matches |
| `SquareSpec.MatchNeedsFourCoordinates` | Kvadratai/Kvadratai/Services/PointsService.cs:115-132 | a matching pair of list entries needs four different coordinate pairs in the index |
| `SquareSpec.FewCoordinatesNoMatch` | Kvadratai/Kvadratai/Services/PointsService.cs:115-136 | with fewer than four different coordinate pairs the raw count is 0 |
| `SquareSpec.IndexSize` | Kvadratai/Kvadratai/Services/PointsService.cs:115 | the index has at most as many elements as the list |
| `SquareSpec.FewPointsNoMatch` | Kvadratai/Kvadratai/Services/PointsService.cs:116-136 | with fewer than four list entries the raw count is 0 |
| `Squares.SquaresInIff` | Kvadratai/Kvadratai/Services/PointsService.cs:108-112 | the enumerated squares are exactly the squares of positive side whose four corners are indexed |
| `Squares.MatchesIffDiagonal` | Kvadratai/Kvadratai/Services/PointsService.cs:122-132 | for two indexed points, the pair test holds exactly when they are opposite corners of a square whose four corners are indexed |
| `Squares.MatchedPairsFourPerSquare` | Kvadratai/Kvadratai/Services/PointsService.cs:118-136 | the matching ordered pairs of indexed points number exactly four per square of the index |
| `Squares.RowCountsPairs` | Kvadratai/Kvadratai/Services/PointsService.cs:120-133 | without repeated coordinates an inner-loop run counts the different matching pairs it meets |
| `Squares.PairsCountsPairs` | Kvadratai/Kvadratai/Services/PointsService.cs:118-133 | without repeated coordinates the nested loops count the different matching ordered pairs |
| `Squares.CountsEverySquareFourTimes` | Kvadratai/Kvadratai/Services/PointsService.cs:108-136 | without repeated coordinates the raw count is four times the number of distinct squares with positive side whose corners are all in the list |
| `Invariance.RowReorder` | Kvadratai/Kvadratai/Services/PointsService.cs:120-133 | an inner-loop run gives the same count for any reordering of the list |
| `Invariance.PairsReorder` | Kvadratai/Kvadratai/Services/PointsService.cs:118-133 | the nested loops give the same count for any reordering of either list |
| `Invariance.ReorderKeepsCount` | Kvadratai/Kvadratai/Services/PointsService.cs:113-136 | reordering the input list keeps the raw count, hence the result |
| `Invariance.DuplicatingQuadruples` | Kvadratai/Kvadratai/Services/PointsService.cs:115-136 | storing every point twice multiplies the raw count by four, so the result becomes the old raw count |
| `Invariance.TranslationKeepsCount` | Kvadratai/Kvadratai/Services/PointsService.cs:115-136 | moving every point by the same offset keeps the raw count |
| `Invariance.ReflectionKeepsCount` | Kvadratai/Kvadratai/Services/PointsService.cs:115-136 | negating every X keeps the raw count |
| `Invariance.ReflectionYKeepsCount` | Kvadratai/Kvadratai/Services/PointsService.cs:115-136 | negating every Y keeps the raw count |
| `Invariance.TranspositionKeepsCount` | Kvadratai/Kvadratai/Services/PointsService.cs:115-136 | exchanging X and Y in every point keeps the raw count |
| `Scenarios.NestedSquaresSquares` | Kvadratai_UT/UnitTest1.cs:162-169 | the only squares among (±1, ±1), (±2, ±2) are the two concentric ones |
| `Scenarios.NestedSquaresCountTwo` | Kvadratai_UT/UnitTest1.cs:162-177 | the unit-test input gives 8 matching pairs and a result of 2 |
| `Scenarios.RepeatedCornerSixMatches` | Kvadratai/Kvadratai/Services/PointsService.cs:115-136 | the unit square with one corner stored twice gives 6 matching pairs and a result of 1 |
| `Scenarios.DoubledListOvercounts` | Kvadratai/Kvadratai/Services/PointsService.cs:108-136 | a list without repeated coordinates, stored twice, is reported with four times as many squares as its index holds |
| `Scenarios.DoubledUnitSquareReportsFour` | Kvadratai/Kvadratai/Services/PointsService.cs:108-136 | the unit square stored twice holds one square and is reported as 4 |

## Left out

- `PointsService.CountSquares`: coordinates are unbounded integers. The source computes `p1.X - p2.X` in 32-bit arithmetic, which can wrap, and `Math.Abs` throws for `int.MinValue`. The 32-bit `count` is taken not to overflow. None of this is modelled.
- `GetPointsAsync`, `AddPointAsync`, `AddPointsAsync` and `RemovePointAsync`: database I/O with logging and rethrown exceptions, behind a driver that is not part of this model.
- The HTTP controller, the request-timeout middleware, dependency-injection wiring and database configuration are not part of this model.
- The point's `Id` and `ToString`: identifier generation and text formatting do not take part in the count.
- The `HashSet` index is a mathematical set; its hashing is not modelled. The input list is a sequence, since the operation only reads it.
- The database-mock tests are not modelled; they exercise mocks, not logic.
- A null list, which throws at `points.Select` (PointsService.cs line 115), and a null entry, which throws at `p1.X` (line 122), cannot be expressed by a sequence of point values. The only caller, `GetSquareCount` in PointsController.cs, passes the list read from the database and never null.
