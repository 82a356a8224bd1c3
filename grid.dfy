/** Grid cells and headings of the snake game: `grid_coords_t` and `Direction`. */
module Grid {

  /** Number of values of a 32-bit `unsigned int`. */
  const U32_LIMIT: int := 0x1_0000_0000

  /** The source's `unsigned int`: coordinates and the grid size have this type. */
  type u32 = v: int | 0 <= v < U32_LIMIT

  /** `v++` on an unsigned int: the largest value wraps to 0. */
  function Inc(v: u32): u32
  {
    if v == U32_LIMIT - 1 then 0 else v + 1
  }

  /** `v--` on an unsigned int: 0 wraps to the largest value. */
  function Dec(v: u32): u32
  {
    if v == 0 then U32_LIMIT - 1 else v - 1
  }

  /** A cell of the grid; equality is component-wise, as the source's `operator==`. */
  datatype Coord = Coord(x: u32, y: u32)

  datatype Direction = North | East | South | West

  /** The heading table, independent of the code: the column change of one step. */
  function DeltaX(d: Direction): int
  {
    match d
    case East => 1
    case West => -1
    case _ => 0
  }

  /** The heading table: the row change of one step (rows grow towards the south). */
  function DeltaY(d: Direction): int
  {
    match d
    case South => 1
    case North => -1
    case _ => 0
  }

  function Opposite(d: Direction): Direction
  {
    match d
    case North => South
    case East => West
    case South => North
    case West => East
  }

  /** Two cells that share a side. */
  predicate Adjacent(a: Coord, b: Coord)
  {
    || (a.x == b.x && (a.y + 1 == b.y || b.y + 1 == a.y))
    || (a.y == b.y && (a.x + 1 == b.x || b.x + 1 == a.x))
  }

  /** `get_next_head_location` on a head `c` and a heading `d`: copy the head
      and step one coordinate with unsigned (wrapping) arithmetic. */
  function NextCell(c: Coord, d: Direction): (r: Coord)
    ensures r != c
    ensures r.x == c.x <==> (d.North? || d.South?)
    ensures r.y == c.y <==> (d.East? || d.West?)
  {
    match d
    case North => c.(y := Dec(c.y))
    case East => c.(x := Inc(c.x))
    case South => c.(y := Inc(c.y))
    case West => c.(x := Dec(c.x))
  }

  /** Away from the ends of the unsigned range, the next cell follows the heading
      table exactly and shares a side with the head. */
  lemma NextCellFollowsHeading(c: Coord, d: Direction)
    requires 0 < c.x < U32_LIMIT - 1 && 0 < c.y < U32_LIMIT - 1
    ensures NextCell(c, d).x == c.x + DeltaX(d)
    ensures NextCell(c, d).y == c.y + DeltaY(d)
    ensures Adjacent(c, NextCell(c, d))
  {
  }

  /** At the ends of the unsigned range the step wraps around. */
  lemma NextCellWraps(c: Coord, d: Direction)
    ensures d.West? && c.x == 0 ==> NextCell(c, d).x == U32_LIMIT - 1
    ensures d.North? && c.y == 0 ==> NextCell(c, d).y == U32_LIMIT - 1
    ensures d.East? && c.x == U32_LIMIT - 1 ==> NextCell(c, d).x == 0
    ensures d.South? && c.y == U32_LIMIT - 1 ==> NextCell(c, d).y == 0
  {
  }

  /** A step and a step in the opposite direction cancel, wrap-around included. */
  lemma StepBack(c: Coord, d: Direction)
    ensures NextCell(NextCell(c, d), Opposite(d)) == c
  {
  }
}
