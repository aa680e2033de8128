/** The board entities the snake utilities work on: points, snakes and the
    absent-or-present result of a search. Only the shapes the utilities read
    are modelled; coordinates are unbounded integers. */
module Types {

  /** A square of the board. X grows to the right, Y grows downwards. */
  datatype Point = Point(X: int, Y: int)

  /** A snake is its body, head first. */
  datatype Snake = Snake(Body: seq<Point>) {

    /** The segment that moves each turn. A snake without segments has no head. */
    function Head(): Point
      requires |Body| > 0
    {
      Body[0]
    }
  }

  /** Every snake on the board, the acting snake included. */
  type SnakeList = seq<Snake>

  /** A list of squares, such as the food on the board. */
  type PointList = seq<Point>

  /** A value that may be missing, in place of a nil pointer. */
  datatype Option<+T> = None | Some(value: T)
}
