/** Properties that relate several of the grid utilities to each other, and
    the concrete board situations the utilities are expected to handle. */
module UtilLemmas {
  import opened Types
  import opened Sequences
  import opened Util

  // ---------------------------------------------------------------------------
  // Distance
  // ---------------------------------------------------------------------------

  /** Distance does not depend on the direction it is measured in. */
  lemma DistanceSymmetric(a: Point, b: Point)
    ensures ManhattanDistance(a, b) == ManhattanDistance(b, a)
  {
  }

  /** Going through a third square is never shorter. */
  lemma DistanceTriangle(a: Point, b: Point, c: Point)
    ensures ManhattanDistance(a, c) <= ManhattanDistance(a, b) + ManhattanDistance(b, c)
  {
  }

  // ---------------------------------------------------------------------------
  // Bounds and collisions
  // ---------------------------------------------------------------------------

  /** On a non-empty board both axes include zero and exclude their size. */
  lemma BoundsCorners(width: int, height: int)
    requires width > 0 && height > 0
    ensures IsInBounds(Point(0, 0), width, height)
    ensures IsInBounds(Point(width - 1, height - 1), width, height)
    ensures !IsInBounds(Point(width, 0), width, height)
    ensures !IsInBounds(Point(0, height), width, height)
    ensures !IsInBounds(Point(-1, 0), width, height)
    ensures !IsInBounds(Point(0, -1), width, height)
  {
  }

  /** Every segment of every snake on the board is fatal to move onto, the
      acting snake's own head included. */
  lemma SegmentsAreDeadly(sl: SnakeList, i: int, j: int, width: int, height: int)
    requires 0 <= i < |sl| && 0 <= j < |sl[i].Body|
    ensures IsDeadlyCollision(sl[i].Body[j], sl, width, height)
  {
    assert sl[i].Body[j] in sl[i].Body;
  }

  // ---------------------------------------------------------------------------
  // Moves
  // ---------------------------------------------------------------------------

  /** Named from the head, the four surrounding squares are right, down, up
      and left, in that order. */
  lemma SurroundingMoveNames(you: Snake)
    requires |you.Body| > 0
    ensures GetMoveName(you, GetSurroundingSquares(you.Head())[0]) == "right"
    ensures GetMoveName(you, GetSurroundingSquares(you.Head())[1]) == "down"
    ensures GetMoveName(you, GetSurroundingSquares(you.Head())[2]) == "up"
    ensures GetMoveName(you, GetSurroundingSquares(you.Head())[3]) == "left"
  {
  }

  /** For a square next to the head, the move name tells which neighbour it
      is: naming a neighbour and stepping by the name lead back to it. */
  lemma MoveNameIdentifiesNeighbour(you: Snake, q: Point)
    requires |you.Body| > 0
    requires Adjacent(you.Head(), q)
    ensures GetMoveName(you, q) == "right" <==> q == Point(you.Head().X + 1, you.Head().Y)
    ensures GetMoveName(you, q) == "down" <==> q == Point(you.Head().X, you.Head().Y + 1)
    ensures GetMoveName(you, q) == "up" <==> q == Point(you.Head().X, you.Head().Y - 1)
    ensures GetMoveName(you, q) == "left" <==> q == Point(you.Head().X - 1, you.Head().Y)
  {
  }

  /** The snake's own neck (the segment behind its head) is never offered as
      a move, since every body segment counts as fatal. */
  lemma NeckNeverAvailable(you: Snake, all: SnakeList, width: int, height: int)
    requires |you.Body| >= 2
    requires you in all
    ensures you.Body[1] !in GetAvailableMoves(you, all, width, height)
  {
    var i :| 0 <= i < |all| && all[i] == you;
    assert you.Body[1] in all[i].Body;
  }

  /** The contract of the move list pins it down: any list of neighbours, in
      generation order, holding exactly the neighbours that are not fatal,
      is the list `GetAvailableMoves` returns. */
  lemma AvailableMovesDetermined(you: Snake, all: SnakeList, width: int, height: int, r: seq<Point>)
    requires |you.Body| > 0
    requires IsSubsequence(r, GetSurroundingSquares(you.Head()))
    requires forall q :: q in r <==>
      q in GetSurroundingSquares(you.Head()) && !IsDeadlyCollision(q, all, width, height)
    ensures r == GetAvailableMoves(you, all, width, height)
  {
    var squares := GetSurroundingSquares(you.Head());
    var keep := NotDeadly(all, width, height);
    SubsequenceMultiset(r, squares);
    forall q
      ensures multiset(r)[q] == if keep(q) then multiset(squares)[q] else 0
    {
      DistinctOnce(squares, q);
    }
    FilterOfIsFilter(r, squares, keep);
  }

  /** When no neighbour of the head is fatal, every neighbour is a move,
      in generation order. */
  lemma AllNeighboursFree(you: Snake, all: SnakeList, width: int, height: int)
    requires |you.Body| > 0
    requires forall q :: q in GetSurroundingSquares(you.Head()) ==> !IsDeadlyCollision(q, all, width, height)
    ensures GetAvailableMoves(you, all, width, height) == GetSurroundingSquares(you.Head())
  {
    var squares := GetSurroundingSquares(you.Head());
    SubsequenceReflexive(squares);
    AvailableMovesDetermined(you, all, width, height, squares);
  }

  /** When the first two neighbours (right and down) are safe and the last
      two (up and left) are fatal, the moves are right and down, in that
      order. */
  lemma OnlyRightAndDownFree(you: Snake, all: SnakeList, width: int, height: int)
    requires |you.Body| > 0
    requires var squares := GetSurroundingSquares(you.Head());
      && !IsDeadlyCollision(squares[0], all, width, height)
      && !IsDeadlyCollision(squares[1], all, width, height)
      && IsDeadlyCollision(squares[2], all, width, height)
      && IsDeadlyCollision(squares[3], all, width, height)
    ensures var squares := GetSurroundingSquares(you.Head());
      GetAvailableMoves(you, all, width, height) == [squares[0], squares[1]]
  {
    var squares := GetSurroundingSquares(you.Head());
    var r := [squares[0], squares[1]];
    assert IsSubsequence(r, squares) by {
      assert r[1..] == [squares[1]];
      assert squares[1..][0] == squares[1];
      assert IsSubsequence(r[1..], squares[1..]);
    }
    forall q
      ensures q in r <==> q in squares && !IsDeadlyCollision(q, all, width, height)
    {
      assert q in squares <==> q == squares[0] || q == squares[1] || q == squares[2] || q == squares[3];
    }
    AvailableMovesDetermined(you, all, width, height, r);
  }

  /** A snake whose head is in the top-left corner of a board at least two
      squares wide and tall may move right and down, in that order, when no
      snake is on either of those squares. */
  lemma TopLeftCornerMoves(you: Snake, all: SnakeList, width: int, height: int)
    requires |you.Body| > 0 && you.Head() == Point(0, 0)
    requires width > 1 && height > 1
    requires !Occupied(Point(1, 0), all) && !Occupied(Point(0, 1), all)
    ensures GetAvailableMoves(you, all, width, height) == [Point(1, 0), Point(0, 1)]
  {
    var squares := GetSurroundingSquares(you.Head());
    assert squares[0] == Point(1, 0) && squares[1] == Point(0, 1);
    assert squares[2] == Point(0, -1) && squares[3] == Point(-1, 0);
    OnlyRightAndDownFree(you, all, width, height);
  }

  /** On an open 11 by 11 board, a one-segment snake in the middle may move
      in all four directions. */
  lemma OpenBoardScenario()
    ensures GetAvailableMoves(Snake([Point(5, 5)]), [Snake([Point(5, 5)])], 11, 11)
         == [Point(6, 5), Point(5, 6), Point(5, 4), Point(4, 5)]
  {
    var you := Snake([Point(5, 5)]);
    forall q | q in GetSurroundingSquares(you.Head())
      ensures !IsDeadlyCollision(q, [you], 11, 11)
    {
      assert q != Point(5, 5);
    }
    AllNeighboursFree(you, [you], 11, 11);
  }

  /** In the top-left corner only right and down stay on the board. */
  lemma CornerScenario()
    ensures GetAvailableMoves(Snake([Point(0, 0)]), [Snake([Point(0, 0)])], 11, 11)
         == [Point(1, 0), Point(0, 1)]
  {
    var you := Snake([Point(0, 0)]);
    assert !Occupied(Point(1, 0), [you]) && !Occupied(Point(0, 1), [you]);
    TopLeftCornerMoves(you, [you], 11, 11);
  }

  // ---------------------------------------------------------------------------
  // List filters
  // ---------------------------------------------------------------------------

  /** Removing a point that is not in the list leaves the list unchanged. */
  lemma RemoveAbsentPoint(from: seq<Point>, p: Point)
    requires p !in from
    ensures RemovePoint(from, p) == from
  {
    var r := RemovePoint(from, p);
    assert multiset(r) == multiset(from);
    assert |r| == |multiset(r)|;
    SubsequenceSameLength(r, from);
  }

  /** Removing the same point twice is the same as removing it once. */
  lemma RemovePointIdempotent(from: seq<Point>, p: Point)
    ensures RemovePoint(RemovePoint(from, p), p) == RemovePoint(from, p)
  {
    RemoveAbsentPoint(RemovePoint(from, p), p);
  }

  /** A list already on the board loses nothing to the bounds filter, so
      the filter is idempotent. */
  lemma RemoveOutOfBoundsKeepsOnBoard(from: seq<Point>, width: int, height: int)
    requires forall q :: q in from ==> IsInBounds(q, width, height)
    ensures RemoveOutOfBounds(from, width, height) == from
    ensures RemoveOutOfBounds(RemoveOutOfBounds(from, width, height), width, height)
         == RemoveOutOfBounds(from, width, height)
  {
    var r := RemoveOutOfBounds(from, width, height);
    assert multiset(r) == multiset(from);
    assert |r| == |multiset(r)|;
    SubsequenceSameLength(r, from);
  }

  // ---------------------------------------------------------------------------
  // Nearest food
  // ---------------------------------------------------------------------------

  /** At most one index is the first nearest food, so the food search has a
      single correct answer. */
  lemma FirstClosestUnique(p: Point, food: seq<Point>, k1: int, k2: int)
    requires IsFirstClosest(p, food, k1) && IsFirstClosest(p, food, k2)
    ensures k1 == k2
  {
    assert ManhattanDistance(p, food[k1]) == ManhattanDistance(p, food[k2]);
  }

  /** The food search returns the first nearest food, whichever that is. */
  lemma FindClosestFoodIsFirstClosest(p: Point, food: seq<Point>, k: int)
    requires SomeFoodBelowSentinel(p, food)
    requires IsFirstClosest(p, food, k)
    ensures FindClosestFood(p, food) == Some(food[k])
  {
    var k' :| IsFirstClosest(p, food, k') && FindClosestFood(p, food).value == food[k'];
    FirstClosestUnique(p, food, k, k');
  }

  /** The nearer of two foods is chosen, wherever it is listed. */
  lemma NearerFoodScenario()
    ensures SomeFoodBelowSentinel(Point(0, 0), [Point(5, 5), Point(1, 1)])
    ensures FindClosestFood(Point(0, 0), [Point(5, 5), Point(1, 1)]) == Some(Point(1, 1))
  {
    var p, food := Point(0, 0), [Point(5, 5), Point(1, 1)];
    forall j | 0 <= j < |food|
      ensures ManhattanDistance(p, food[1]) <= ManhattanDistance(p, food[j])
    {
      if j == 0 {
        assert food[j] == Point(5, 5);
      }
    }
    assert ManhattanDistance(p, food[1]) < ManhattanDistance(p, food[0]);
    assert IsFirstClosest(p, food, 1);
    FindClosestFoodIsFirstClosest(p, food, 1);
  }

  /** Of two equally near foods, the one listed first is chosen. */
  lemma TieScenario()
    ensures SomeFoodBelowSentinel(Point(0, 0), [Point(2, 0), Point(0, 2)])
    ensures FindClosestFood(Point(0, 0), [Point(2, 0), Point(0, 2)]) == Some(Point(2, 0))
  {
    var p, food := Point(0, 0), [Point(2, 0), Point(0, 2)];
    forall j | 0 <= j < |food|
      ensures ManhattanDistance(p, food[0]) <= ManhattanDistance(p, food[j])
    {
      if j == 1 {
        assert food[j] == Point(0, 2);
      }
    }
    assert IsFirstClosest(p, food, 0);
    FindClosestFoodIsFirstClosest(p, food, 0);
  }

  /** Without food there is nothing to find. */
  lemma NoFoodScenario(p: Point)
    ensures FindClosestFood(p, []) == None
  {
  }
}
