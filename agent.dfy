/**
 * The mouse: its position, heading and move counter. The simulator commands
 * that mirror each turn and move are not part of this model.
 */
module Agent {
  import opened Direction

  class Mouse {
    var x: int
    var y: int
    /** m_moves: the number of forward moves made so far. */
    var moves: nat
    /** m_curr_dir: the heading, 0..3 for n/e/s/w. */
    var dir: Dir

    /** A new mouse stands at (0, 0) facing north and has made no move. */
    constructor ()
      ensures x == 0 && y == 0 && dir == 0 && moves == 0
    {
      x, y, dir, moves := 0, 0, 0, 0;
    }

    /** turn_left: heading turns by -1; position and moves are unchanged. */
    method TurnLeft()
      modifies this
      ensures dir == CalculateDir(old(dir), Left)
      ensures x == old(x) && y == old(y) && moves == old(moves)
    {
      dir := CalculateDir(dir, Left);
    }

    /** turn_right: heading turns by 1; position and moves are unchanged. */
    method TurnRight()
      modifies this
      ensures dir == CalculateDir(old(dir), Right)
      ensures x == old(x) && y == old(y) && moves == old(moves)
    {
      dir := CalculateDir(dir, Right);
    }

    /**
     * turn: -1 turns left, 1 right, 2 is two right turns, 0 and every other
     * offset leave the heading alone. Position and moves never change.
     */
    method Turn(dirOffset: int)
      modifies this
      ensures dir == if dirOffset == Left || dirOffset == Right || dirOffset == Reverse
                     then CalculateDir(old(dir), dirOffset) else old(dir)
      ensures x == old(x) && y == old(y) && moves == old(moves)
    {
      if dirOffset == Left {
        TurnLeft();
      } else if dirOffset == Right {
        TurnRight();
      } else if dirOffset == Reverse {
        TurnRight();
        TurnRight();
        TwoRightsReverse(old(dir));
      } else if dirOffset == Front {
      }
    }

    /**
     * move_forward: one cell along the heading (n: y+1, e: x+1, s: y-1,
     * w: x-1), which is the step the dir_x / dir_y tables give; exactly one
     * more move; heading unchanged. No wall is checked here.
     */
    method MoveForward()
      modifies this
      ensures (x, y) == Neighbor(old(x), old(y), dir)
      ensures dir == old(dir) && moves == old(moves) + 1
    {
      if dir == Dir2Int('n') {
        y := y + 1;
      } else if dir == Dir2Int('e') {
        x := x + 1;
      } else if dir == Dir2Int('s') {
        y := y - 1;
      } else if dir == Dir2Int('w') {
        x := x - 1;
      }
      moves := moves + 1;
    }
  }
}
