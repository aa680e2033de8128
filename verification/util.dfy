/** The grid geometry a snake-playing agent uses each turn: distances,
    the board's walls, collisions with snake bodies, the four one-step moves
    from a head and their names, list filters, and the nearest food. */
module Util {
  import opened Types
  import opened Sequences

  // ---------------------------------------------------------------------------
  // Distance primitives
  // ---------------------------------------------------------------------------

  /** Absolute value of an integer. */
  function AbsInt(v: int): (r: nat)
    ensures r == v || r == -v
  {
    if v < 0 then -v else v
  }

  /** The number of unit steps between two squares when moving only along
      the axes. */
  function ManhattanDistance(a: Point, b: Point): (d: nat)
    ensures d == 0 <==> a == b
    ensures d >= AbsInt(a.X - b.X) && d >= AbsInt(a.Y - b.Y)
  {
    AbsInt(a.X - b.X) + AbsInt(a.Y - b.Y)
  }

  /** Two squares are adjacent when one step separates them: they share one
      coordinate and the other differs by exactly one. */
  function Adjacent(a: Point, b: Point): (r: bool)
    ensures r <==> || (a.X == b.X && (a.Y == b.Y + 1 || a.Y == b.Y - 1))
                   || (a.Y == b.Y && (a.X == b.X + 1 || a.X == b.X - 1))
  {
    ManhattanDistance(a, b) == 1
  }

  /** Whether two points name the same square. */
  function IsSame(a: Point, b: Point): (r: bool)
    ensures r <==> a == b
  {
    a.X == b.X && a.Y == b.Y
  }

  // ---------------------------------------------------------------------------
  // Bounds and collisions
  // ---------------------------------------------------------------------------

  /** Whether a square lies on a board of the given size. Both axes use the
      same rule: from zero inclusive to the size exclusive, so a board with
      no columns or no rows has no squares at all. */
  function IsInBounds(p: Point, width: int, height: int): (r: bool)
    ensures r <==> 0 <= p.X < width && 0 <= p.Y < height
    ensures width <= 0 || height <= 0 ==> !r
  {
    if p.X < 0 || p.X >= width then
      false
    else if p.Y < 0 || p.Y >= height then
      false
    else
      true
  }

  /** Some snake on the board has a segment on square `p`. */
  ghost predicate Occupied(p: Point, sl: SnakeList)
  {
    exists i :: 0 <= i < |sl| && p in sl[i].Body
  }

  /** Scans one snake's body for a segment on square `p`. */
  function OnBody(p: Point, body: seq<Point>): (r: bool)
    ensures r <==> p in body
  {
    if |body| == 0 then false
    else if IsSame(p, body[0]) then true
    else
      assert body == [body[0]] + body[1..];
      OnBody(p, body[1..])
  }

  /** Scans every snake, in order, for a segment on square `p`. */
  function OnAnySnake(p: Point, sl: SnakeList): (r: bool)
    ensures r <==> Occupied(p, sl)
  {
    if |sl| == 0 then false
    else if OnBody(p, sl[0].Body) then true
    else
      assert forall i :: 1 <= i < |sl| ==> sl[i] == sl[1..][i - 1];
      OnAnySnake(p, sl[1..])
  }

  /** Moving onto `p` is fatal: it is a wall, or some segment of some snake
      (the acting snake's own body included) is already there. */
  function IsDeadlyCollision(p: Point, sl: SnakeList, width: int, height: int): (r: bool)
    ensures r <==> !(0 <= p.X < width && 0 <= p.Y < height) || Occupied(p, sl)
  {
    if !IsInBounds(p, width, height) then
      true
    else
      OnAnySnake(p, sl)
  }

  // ---------------------------------------------------------------------------
  // Moves from a head
  // ---------------------------------------------------------------------------

  /** The four squares one step away from `p`, in the order right, down, up,
      left. */
  function GetSurroundingSquares(p: Point): (r: seq<Point>)
    ensures |r| == 4
    ensures forall q :: Adjacent(p, q) <==> q in r
    ensures forall i, j :: 0 <= i < j < |r| ==> r[i] != r[j]
  {
    [ Point(p.X + 1, p.Y),  // right
      Point(p.X, p.Y + 1),  // down
      Point(p.X, p.Y - 1),  // up
      Point(p.X - 1, p.Y) ] // left
  }

  /** The test the move filter applies to each neighbouring square. */
  function NotDeadly(all: SnakeList, width: int, height: int): Point -> bool
  {
    q => !IsDeadlyCollision(q, all, width, height)
  }

  /** The neighbouring squares of the acting snake's head that are not fatal,
      in the order the neighbours are generated. */
  function GetAvailableMoves(you: Snake, all: SnakeList, width: int, height: int): (r: seq<Point>)
    requires |you.Body| > 0
    ensures IsSubsequence(r, GetSurroundingSquares(you.Head()))
    ensures forall q :: q in r <==>
      q in GetSurroundingSquares(you.Head()) && !IsDeadlyCollision(q, all, width, height)
    ensures forall q :: q in r ==>
      && 0 <= q.X < width && 0 <= q.Y < height
      && !Occupied(q, all)
      && Adjacent(you.Head(), q)
    ensures |r| <= 4
  {
    var surrounding := GetSurroundingSquares(you.Head());
    var available := Filter(surrounding, NotDeadly(all, width, height));
    FilterMembers(available, surrounding, NotDeadly(all, width, height));
    available
  }

  /** The direction, as the game server spells it, from the acting snake's
      head towards `p`. A difference in X decides first; then a difference in
      Y; a target equal to the head is named "up". */
  function GetMoveName(you: Snake, p: Point): (name: string)
    requires |you.Body| > 0
    ensures name == "right" <==> p.X > you.Head().X
    ensures name == "left" <==> p.X < you.Head().X
    ensures name == "down" <==> p.X == you.Head().X && p.Y > you.Head().Y
    ensures name == "up" <==> p.X == you.Head().X && p.Y <= you.Head().Y
  {
    var head := you.Head();
    if head.X != p.X then
      if p.X > head.X then "right" else "left"
    else if head.Y != p.Y then
      if p.Y > head.Y then "down" else "up"
    else
      "up"
  }

  // ---------------------------------------------------------------------------
  // List filters
  // ---------------------------------------------------------------------------

  /** `from` without any point on square `p`; the other points keep their
      order and their number of occurrences. */
  function RemovePoint(from: seq<Point>, p: Point): (r: seq<Point>)
    ensures IsSubsequence(r, from)
    ensures p !in r
    ensures forall q :: q != p ==> multiset(r)[q] == multiset(from)[q]
  {
    var remaining := Filter(from, q => !IsSame(q, p));
    assert multiset(remaining)[p] == 0;
    remaining
  }

  /** The points of `from` that lie on the board, in their original order
      and with their original number of occurrences. */
  function RemoveOutOfBounds(from: seq<Point>, width: int, height: int): (r: seq<Point>)
    ensures IsSubsequence(r, from)
    ensures forall q :: multiset(r)[q] == (if 0 <= q.X < width && 0 <= q.Y < height then multiset(from)[q] else 0)
    ensures forall q :: q in r ==> 0 <= q.X < width && 0 <= q.Y < height
  {
    Filter(from, q => IsInBounds(q, width, height))
  }

  // ---------------------------------------------------------------------------
  // Nearest food
  // ---------------------------------------------------------------------------

  /** The distance the food scan starts from: any food strictly closer than
      this replaces the (not yet meaningful) initial choice. */
  const Sentinel: int := 99999999999

  /** Index `k` holds the food nearest to `p`, and no earlier food is as near. */
  predicate IsFirstClosest(p: Point, food: seq<Point>, k: int)
  {
    && 0 <= k < |food|
    && (forall j :: 0 <= j < |food| ==> ManhattanDistance(p, food[k]) <= ManhattanDistance(p, food[j]))
    && (forall j :: 0 <= j < k ==> ManhattanDistance(p, food[k]) < ManhattanDistance(p, food[j]))
  }

  /** No food is nearer to `p` than the scan's starting distance. */
  predicate NoneBelowSentinel(p: Point, food: seq<Point>)
  {
    forall j :: 0 <= j < |food| ==> ManhattanDistance(p, food[j]) >= Sentinel
  }

  /** The nearest-food loop's two variables: the food chosen so far and its
      distance from the query point. */
  datatype ScanState = ScanState(closest: Point, distance: int)

  /** What the scan holds after reading `food`: its starting state while no
      food has beaten the sentinel, and otherwise the first nearest food
      with its distance. */
  ghost predicate IsScanState(p: Point, food: seq<Point>, state: ScanState)
  {
    && (NoneBelowSentinel(p, food) ==> state == ScanState(Point(0, 0), Sentinel))
    && (!NoneBelowSentinel(p, food) ==>
          exists k :: IsFirstClosest(p, food, k) && state == ScanState(food[k], ManhattanDistance(p, food[k])))
  }

  /** The state of the nearest-food loop after it has read every element of
      `food`: a later food replaces the current choice only when it is
      strictly nearer. */
  function ScanClosest(p: Point, food: seq<Point>): (state: ScanState)
    ensures IsScanState(p, food, state)
    decreases |food|
  {
    if |food| == 0 then
      ScanState(Point(0, 0), Sentinel)
    else
      var prefix, f := food[..|food| - 1], food[|food| - 1];
      var previous := ScanClosest(p, prefix);
      var dist := ManhattanDistance(p, f);
      ScanStep(p, prefix, f, previous);
      assert prefix + [f] == food;
      if dist < previous.distance then ScanState(f, dist) else previous
  }

  /** Reading one more food `f` moves the scan from a correct state for
      `prefix` to a correct state for `prefix + [f]`. */
  lemma ScanStep(p: Point, prefix: seq<Point>, f: Point, state: ScanState)
    requires IsScanState(p, prefix, state)
    ensures IsScanState(p, prefix + [f],
      if ManhattanDistance(p, f) < state.distance then ScanState(f, ManhattanDistance(p, f)) else state)
  {
    var food := prefix + [f];
    var n := |prefix|;
    var dist := ManhattanDistance(p, f);
    assert forall j :: 0 <= j < n ==> food[j] == prefix[j];
    assert food[n] == f;
    if dist < state.distance {
      // The new food is nearer than everything read so far.
      forall j | 0 <= j < n
        ensures dist < ManhattanDistance(p, food[j])
      {
        if !NoneBelowSentinel(p, prefix) {
          var k :| IsFirstClosest(p, prefix, k) && state == ScanState(prefix[k], ManhattanDistance(p, prefix[k]));
          assert ManhattanDistance(p, prefix[k]) <= ManhattanDistance(p, prefix[j]);
        }
      }
      assert IsFirstClosest(p, food, n);
    } else if NoneBelowSentinel(p, prefix) {
      assert NoneBelowSentinel(p, food);
    } else {
      var k :| IsFirstClosest(p, prefix, k) && state == ScanState(prefix[k], ManhattanDistance(p, prefix[k]));
      assert IsFirstClosest(p, food, k);
    }
  }

  /** Food within reach of the scan, if there is any food at all. */
  predicate SomeFoodBelowSentinel(p: Point, food: seq<Point>)
  {
    |food| == 0 || exists j :: 0 <= j < |food| && ManhattanDistance(p, food[j]) < Sentinel
  }

  /** The food nearest to `p`, the earliest one on a tie, or nothing when
      there is no food. */
  function FindClosestFood(p: Point, food: seq<Point>): (r: Option<Point>)
    requires SomeFoodBelowSentinel(p, food)
    ensures r.None? <==> |food| == 0
    ensures r.Some? ==> r.value in food
    ensures r.Some? ==> forall f :: f in food ==> ManhattanDistance(p, r.value) <= ManhattanDistance(p, f)
    ensures r.Some? ==> forall j :: 0 <= j < |food| && ManhattanDistance(p, food[j]) <= ManhattanDistance(p, r.value)
                          ==> r.value in food[..j + 1]
  {
    if |food| == 0 then
      None
    else
      var state := ScanClosest(p, food);
      var k :| IsFirstClosest(p, food, k) && state.closest == food[k];
      assert forall j :: 0 <= j < |food| && ManhattanDistance(p, food[j]) <= ManhattanDistance(p, food[k])
               ==> food[..j + 1][k] == food[k];
      Some(state.closest)
  }
}
