/**
 * The simulator's wall sensors. The simulator itself is not modelled: its
 * maze is a ground-truth predicate `truth(x, y, d)` ("is there a wall on side
 * d of cell (x, y)?"), and each sensor reads that predicate on one side of the
 * simulator's mouse, whose pose mirrors the controller's mouse.
 */
module Sensors {
  import opened Direction

  /** The ground-truth maze the sensors report on. */
  type Truth = (int, int, Dir) -> bool

  /** wallLeft: a wall on the left of a mouse at (x, y) with this heading. */
  function WallLeft(truth: Truth, x: int, y: int, heading: Dir): bool
  {
    truth(x, y, CalculateDir(heading, Left))
  }

  /** wallFront: a wall ahead of a mouse at (x, y) with this heading. */
  function WallFront(truth: Truth, x: int, y: int, heading: Dir): bool
  {
    truth(x, y, CalculateDir(heading, Front))
  }

  /** wallRight: a wall on the right of a mouse at (x, y) with this heading. */
  function WallRight(truth: Truth, x: int, y: int, heading: Dir): bool
  {
    truth(x, y, CalculateDir(heading, Right))
  }
}
