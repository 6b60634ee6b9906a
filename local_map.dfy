/**
 * One cell of the mouse's local map: four tri-state wall slots, indexed by
 * absolute heading. The grid holds its cells by value, so a cell is a value
 * here and set_wall yields the cell with one slot replaced.
 */
module LocalMap {
  import opened Direction

  /** The three values a wall slot takes. */
  const Unknown: int := -1
  const NoWall: int := 0
  const Wall: int := 1

  /** A slot value: -1 unknown, 0 no wall, 1 wall. */
  type SlotValue = v: int | -1 <= v <= 1

  /** m_wall: exactly one slot per absolute heading. */
  type Walls = s: seq<SlotValue> | |s| == 4 witness [-1, -1, -1, -1]

  /** static_cast<int> of a sensor answer: true is a wall, false is open. */
  function B2I(b: bool): (r: SlotValue)
    ensures r == Wall <==> b
    ensures r == NoWall <==> !b
  {
    if b then 1 else 0
  }

  datatype Cell = Cell(wall: Walls)
  {
    /** is_wall: 1 for a wall, 0 for no wall, -1 when the map does not know. */
    function IsWall(dir: Dir): (r: int)
      ensures r == Unknown || r == NoWall || r == Wall
    {
      wall[dir]
    }

    /**
     * set_wall: stores 1 for true and 0 for false in slot `dir`, whatever the
     * slot held before; the other three slots keep their values.
     */
    function SetWall(dir: Dir, checkResult: bool): (r: Cell)
      ensures r.IsWall(dir) == B2I(checkResult)
      ensures forall k: Dir :: k != dir ==> r.IsWall(k) == IsWall(k)
    {
      Cell(wall[dir := B2I(checkResult)])
    }
  }

  /** Cell(): a new cell knows nothing about its walls. */
  function NewCell(): (c: Cell)
    ensures forall k: Dir :: c.IsWall(k) == Unknown
  {
    Cell([Unknown, Unknown, Unknown, Unknown])
  }

  /** Setting a slot twice keeps only the second answer. */
  lemma SetWallOverwrites(c: Cell, dir: Dir, b1: bool, b2: bool)
    ensures c.SetWall(dir, b1).SetWall(dir, b2) == c.SetWall(dir, b2)
  {
  }

  /** Setting a slot to the answer it already holds changes nothing. */
  lemma SetWallIdempotent(c: Cell, dir: Dir, b: bool)
    requires c.IsWall(dir) == B2I(b)
    ensures c.SetWall(dir, b) == c
  {
  }
}
