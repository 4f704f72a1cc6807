/**
 * Direction and axis algebra shared by both engines (the `Axis`, `AxisUtils`,
 * `Direction` and `DirectionUtils` declarations appear, identically, in the
 * `Grid` and the `Procedural` namespaces).
 */
module Directions {

  datatype Axis = X | Y

  /** `AxisUtils.InvertAxis`: the other axis. */
  function InvertAxis(axis: Axis): (r: Axis)
    ensures r != axis
  {
    if axis == X then Y else X
  }

  lemma InvertAxisInvolution(axis: Axis)
    ensures InvertAxis(InvertAxis(axis)) == axis
  {
  }

  /** The enumeration `Direction : byte`, Up = 0, Left = 1, Down = 2, Right = 3. */
  datatype Direction = Up | Left | Down | Right

  /** The byte value of a direction, which is also its slot in a vertex's neighbour array. */
  function Index(d: Direction): (i: nat)
    ensures i < 4
  {
    match d
    case Up => 0
    case Left => 1
    case Down => 2
    case Right => 3
  }

  /** The cast from a byte back to `Direction`. */
  function FromIndex(i: nat): (d: Direction)
    requires i < 4
    ensures Index(d) == i
  {
    if i == 0 then Up else if i == 1 then Left else if i == 2 then Down else Right
  }

  /** The order in which `Enum.GetValues(typeof(Direction))` enumerates the directions. */
  const AllDirections: seq<Direction> := [Up, Left, Down, Right]

  lemma AllDirectionsIndexed(d: Direction)
    ensures Index(d) < |AllDirections| && AllDirections[Index(d)] == d
  {
  }

  /** `IsVertical`: Up and Down, the directions with an even byte value. */
  predicate IsVertical(d: Direction)
    ensures IsVertical(d) <==> Index(d) % 2 == 0
  {
    d == Up || d == Down
  }

  /** `GetAxis`: Y for the even byte values (Up, Down), X for the odd ones (Left, Right). */
  function GetAxis(d: Direction): (r: Axis)
    ensures r == Y <==> Index(d) % 2 == 0
  {
    if IsVertical(d) then Y else X
  }

  /**
   * `InvertDirection`, computed as the source does on the byte value:
   * `(direction + 2) % 4`. The result is the opposite direction on the same axis.
   */
  function InvertDirection(d: Direction): (r: Direction)
    ensures r != d && GetAxis(r) == GetAxis(d)
  {
    FromIndex((Index(d) + 2) % 4)
  }

  lemma InvertDirectionInvolution(d: Direction)
    ensures InvertDirection(InvertDirection(d)) == d
  {
  }

  /**
   * `NumberUtils.WithinRangeExclusive(v, a, b)`: NumberUtils is not part of this
   * model; its test is taken to be "v lies strictly between a and b, whichever of
   * the two is smaller".
   */
  predicate WithinRangeExclusive(v: int, a: int, b: int) {
    (a < v && v < b) || (b < v && v < a)
  }
}
