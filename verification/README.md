# Snake grid utilities in Dafny

A model of the grid-geometry helpers a Battlesnake-style agent consults on
every turn (`util.go`): Manhattan distance and adjacency between squares,
the board's bounds, whether moving onto a square is fatal (a wall or any
segment of any snake, the agent's own body included), the four one-step
moves from a snake's head and their names (`"right"`, `"down"`, `"up"`,
`"left"`), two order-preserving list filters, and the search for the
nearest food.

Layout:

- `types.dfy` (module `Types`): `Point`, `Snake` with `Head()`, the
  `SnakeList` and `PointList` aliases and `Option`. `util.go` uses
  these but does not declare them; their declarations are not part of this
  model. Only the shapes
  the utilities read are kept here.
- `sequences.dfy` (module `Sequences`, generic in the element type): what
  an order-preserving filter is (`IsSubsequence`, `IsFilterOf`) and
  `Filter`, the element-by-element loop that removes points, drops off-board
  points and discards fatal moves. It also proves that the filter
  characterisation has exactly one solution.
- `util.dfy` (module `Util`): one member per function of `util.go`. The
  nested loop of `isDeadlyCollision` is split into two scans, `OnBody` and
  `OnAnySnake`. The loop of `findClosestFood` is `ScanClosest`.
- `util_lemmas.dfy` (module `UtilLemmas`): properties that relate the
  operations to each other, plus the concrete board and food situations
  the utilities are expected to handle.

Two details of `util.go` that the model keeps:

- `getSurroundingSquares` generates the four neighbours in the order right,
  down, up, left, and every list built from them keeps that order.
- `isDeadlyCollision` tests the walls first and scans the snakes only for a
  square on the board.

## Model

| member | source | states |
|---|---|---|
| Util.AbsInt | util.go:32-35 | the result is non-negative and is either the argument or its negation |
| Util.ManhattanDistance | util.go:12-15 | the distance is never negative, it is zero exactly when the two points are the same square, and it is at least the gap along either axis |
| Util.Adjacent | util.go:7-10 | distance 1 holds exactly when the points share one coordinate and the other differs by one |
| Util.IsSame | util.go:57-64 | coordinate-wise equality is exactly equality of points |
| Util.IsInBounds | util.go:17-30 | a point is on the board exactly when 0 <= X < width and 0 <= Y < height; a board with no columns or no rows has no squares |
| Util.OnBody | util.go:47-51 | the scan of one body reports a match exactly when the point is one of the body's segments |
| Util.OnAnySnake | util.go:45-52 | the scan over all snakes reports a match exactly when some segment of some snake is on the point |
| Util.IsDeadlyCollision | util.go:37-55 | a square is fatal exactly when it is off the board or some snake has a segment on it |
| Util.GetSurroundingSquares | util.go:107-115 | four pairwise distinct squares, each adjacent to the point, and every square adjacent to the point is among them |
| Util.GetAvailableMoves | util.go:66-79 | the moves keep the generation order of the neighbours. A neighbour is included exactly when it is not fatal. Every move is on the board, is free of every snake, is adjacent to the head, and there are at most four |
| Util.GetMoveName | util.go:117-136 | "right" exactly when the target's X is larger, "left" exactly when it is smaller; with equal X, "down" exactly when Y is larger and "up" otherwise, including when the target is the head |
| Util.RemovePoint | util.go:81-93 | the result is a subsequence of the input and never contains the removed point. Every other point keeps its number of occurrences |
| Util.RemoveOutOfBounds | util.go:95-105 | the result is a subsequence of the input. It keeps every on-board occurrence and no off-board point |
| Util.ScanClosest | util.go:145-156 | while no food is nearer than the 99999999999 starting distance, the loop keeps its zero starting state. Otherwise it holds the first nearest food and that food's distance |
| Util.ScanStep | util.go:148-156 | one loop iteration, where a food replaces the choice only when strictly nearer, turns a correct state for a prefix into a correct state for one more food |
| Util.FindClosestFood | util.go:138-159 | nothing exactly when there is no food. Otherwise it returns an element of the list that is no farther than any other food, and every food at least as near is listed no earlier than the returned one's first occurrence |
| Sequences.Filter | util.go:70-75 | appending the elements that pass the test yields an order-preserving subsequence. That subsequence holds every passing element as often as the input does and no failing element |
| Sequences.FilterOfIsFilter | util.go:96-105 | any list that is an order-preserving filter of the input under a test equals the list the appending loop builds, so the filter contracts pin the result down |
| UtilLemmas.DistanceSymmetric | util.go:13-15 | distance from a to b equals distance from b to a |
| UtilLemmas.DistanceTriangle | util.go:13-15 | distance satisfies the triangle inequality |
| UtilLemmas.BoundsCorners | util.go:18-30 | on a positive board (0,0) and (width-1,height-1) are on it; (width,0), (0,height), (-1,0) and (0,-1) are not |
| UtilLemmas.SegmentsAreDeadly | util.go:45-52 | every segment of every snake, the acting snake's head included, is fatal to move onto |
| UtilLemmas.SurroundingMoveNames | util.go:108-136 | the four generated neighbours are named "right", "down", "up", "left", in that order |
| UtilLemmas.MoveNameIdentifiesNeighbour | util.go:117-136 | for a square adjacent to the head, each name is given exactly to the neighbour one step in that direction |
| UtilLemmas.NeckNeverAvailable | util.go:67-79 | when the acting snake is on the board, the segment behind its head is never an available move |
| UtilLemmas.AvailableMovesDetermined | util.go:67-79 | any in-order selection of the neighbours holding exactly the non-fatal ones is the list of available moves |
| UtilLemmas.AllNeighboursFree | util.go:67-79 | when no neighbour of the head is fatal, the available moves are all four neighbours in generation order |
| UtilLemmas.OnlyRightAndDownFree | util.go:67-79 | when right and down are safe and up and left are fatal, the available moves are right then down |
| UtilLemmas.TopLeftCornerMoves | util.go:67-79 | a head at (0,0) on a board at least 2 by 2, with no snake on (1,0) or (0,1), can move only to (1,0) and then (0,1) |
| UtilLemmas.OpenBoardScenario | util.go:67-79 | a one-segment snake at (5,5) on an 11 by 11 board can move to (6,5), (5,6), (5,4) and (4,5), in that order |
| UtilLemmas.CornerScenario | util.go:67-79 | a one-segment snake at (0,0) on an 11 by 11 board can move only to (1,0) and (0,1) |
| UtilLemmas.RemoveAbsentPoint | util.go:82-93 | removing a point that is not in the list returns the list unchanged |
| UtilLemmas.RemovePointIdempotent | util.go:82-93 | removing the same point twice gives the same list as removing it once |
| UtilLemmas.RemoveOutOfBoundsKeepsOnBoard | util.go:96-105 | a list whose points are all on the board passes the bounds filter unchanged, so the filter is idempotent |
| UtilLemmas.FirstClosestUnique | util.go:148-156 | at most one position holds the first nearest food |
| UtilLemmas.FindClosestFoodIsFirstClosest | util.go:139-159 | the search returns the food at the first nearest position, whichever position that is |
| UtilLemmas.NearerFoodScenario | util.go:139-159 | from (0,0), among (5,5) and (1,1) the search picks (1,1), though it is listed second |
| UtilLemmas.TieScenario | util.go:148-156 | from (0,0), between the equally near (2,0) and (0,2) the search picks (2,0), the one listed first |
| UtilLemmas.NoFoodScenario | util.go:140-143 | with no food the search finds nothing |

## Left out

- AbsInt: `util.go` converts to a 64-bit float, takes the absolute value and converts back. The model uses the integer absolute value, which gives the same result for board-sized coordinates.
- Integer width: Go's `int` is 64 bits wide. The model's coordinates, differences and distances are unbounded, so overflow for coordinates near the 64-bit limits is not modelled.
- FindClosestFood: requires at least one food to be nearer than the scan's 99999999999 starting distance whenever there is food. Otherwise the code returns a pointer to the zero-valued point (0,0), which need not be one of the foods. `ScanClosest` still models that starting state.
- Pointers and aliasing: the collision check receives the snake list by pointer, and the food search returns a pointer to a copy. Both are modelled as plain values.
- Empty results: Go returns a nil slice when nothing is kept. The model returns the empty sequence, which callers cannot tell apart.
- `Snake.Head()` and the `Point`, `Snake`, `SnakeList` and `PointList` declarations are not part of this model. The model uses the minimal shapes the utilities read. `Head()` requires a non-empty body, so `GetAvailableMoves` and `GetMoveName` require the acting snake to have one.
- The HTTP/JSON server, logging and the move-selection policy that calls these utilities are outside this model.
