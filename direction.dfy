/**
 * Headings and the arithmetic of turning.
 *
 * The controller stores a heading as an int: 'n', 'e', 's', 'w' are 0, 1, 2, 3.
 * A turn is an offset relative to the heading: -1 left, 0 front, 1 right, 2 reverse.
 */
module Direction {

  /** An absolute heading, as stored in the mouse and used to index a cell's walls. */
  type Dir = d: int | 0 <= d < 4

  /** Relative offsets used by the controller. */
  const Left: int := -1
  const Front: int := 0
  const Right: int := 1
  const Reverse: int := 2

  /** int2dir: the character of each heading. */
  const Int2Dir: string := "nesw"

  /** Unit steps of each heading, the dir_x / dir_y tables of the backtracking code. */
  const DirX: seq<int> := [0, 1, 0, -1]
  const DirY: seq<int> := [1, 0, -1, 0]

  /**
   * calculate_dir: the absolute heading reached by turning `flr` from `dir`.
   * The source adds once, then corrects by one lap in either direction, so the
   * result is a heading exactly when -4 <= dir + flr <= 7.
   */
  function CalculateDir(dir: Dir, flr: int): (r: Dir)
    requires -4 <= flr <= 4
    ensures r == (dir + flr) % 4
  {
    var d := dir + flr;
    var d1 := if d < 0 then d + 4 else d;
    if d1 > 3 then d1 - 4 else d1
  }

  /**
   * dir2int: the heading of a direction character. The lookup table answers
   * 0 for a character it does not hold (and silently adds it), so every
   * character outside "nesw" maps to north.
   */
  function Dir2Int(c: char): (r: Dir)
    ensures c in Int2Dir <==> Int2Dir[r] == c
    ensures c !in Int2Dir ==> r == 0
  {
    match c
    case 'n' => 0
    case 'e' => 1
    case 's' => 2
    case 'w' => 3
    case _ => 0
  }

  /** The cell one step from (x, y) along heading d (see NeighborAdjacent). */
  function Neighbor(x: int, y: int, d: Dir): (int, int)
  {
    (x + DirX[d], y + DirY[d])
  }

  /** A step reaches an adjacent cell, one row or one column away: never the cell itself. */
  lemma NeighborAdjacent(x: int, y: int, d: Dir)
    ensures var r := Neighbor(x, y, d);
            (r.0 == x && (r.1 == y + 1 || r.1 == y - 1)) || (r.1 == y && (r.0 == x + 1 || r.0 == x - 1))
  {
  }

  /** int2dir is the inverse of dir2int on the four headings. */
  lemma Int2DirInverse(d: Dir)
    ensures Dir2Int(Int2Dir[d]) == d
  {
  }

  /** Turning by o and then by -o restores the heading. */
  lemma TurnInverse(d: Dir, o: int)
    requires -4 <= o <= 4
    ensures CalculateDir(CalculateDir(d, o), -o) == d
  {
  }

  /** Two right turns make a reverse turn. */
  lemma TwoRightsReverse(d: Dir)
    ensures CalculateDir(CalculateDir(d, Right), Right) == CalculateDir(d, Reverse)
  {
  }

  /** Stepping forward and then along the reversed heading returns to the start. */
  lemma StepBack(x: int, y: int, d: Dir)
    ensures Neighbor(Neighbor(x, y, d).0, Neighbor(x, y, d).1, CalculateDir(d, Reverse)) == (x, y)
  {
  }

  /** The relative offset (-1 left, 0 front, 1 right or 2 reverse) that turns heading d into k. */
  function Offset(d: Dir, k: Dir): (o: int)
    ensures -1 <= o <= 2 && CalculateDir(d, o) == k
  {
    if k - d == 3 then -1 else if k - d == -3 then 1 else if k - d == -2 then 2 else k - d
  }

  /** Offset undoes a turn by any of the four relative offsets. */
  lemma OffsetOfTurn(d: Dir, o: int)
    requires -1 <= o <= 2
    ensures Offset(d, CalculateDir(d, o)) == o
  {
  }
}
