/** `center_mouse` and `center_if_layout_not_max`: where the pointer is sent
    so that it sits in the middle of a window. The move itself is an effect
    of the host's pointer library and is left out; the target point is
    returned instead. */
module Pointer {
  import opened Common

  /** A window's geometry as the host's `info()` reports it. */
  datatype Geometry = Geometry(x: int, y: int, width: int, height: int)

  /** The point the pointer is moved to: each coordinate advanced by half
      the extent, rounded down (Python's `//` by 2 rounds towards minus
      infinity, as Dafny's `/` by a positive divisor does). */
  function CenterPoint(g: Geometry): (p: (int, int))
    ensures 2 * (p.0 - g.x) <= g.width <= 2 * (p.0 - g.x) + 1
    ensures 2 * (p.1 - g.y) <= g.height <= 2 * (p.1 - g.y) + 1
    ensures 0 <= g.width ==> g.x <= p.0 <= g.x + g.width
    ensures 0 <= g.height ==> g.y <= p.1 <= g.y + g.height
  {
    (g.x + g.width / 2, g.y + g.height / 2)
  }

  /** `center_if_layout_not_max`: under the "max" layout the pointer stays
      where it is; under any other layout it goes to the centre of the
      focused window's geometry. */
  function CenterIfLayoutNotMax(layoutName: string, g: Geometry): (target: Option<(int, int)>)
    ensures target.None? <==> layoutName == "max"
    ensures target.Some? ==> target.value == CenterPoint(g)
  {
    if layoutName != "max" then Some(CenterPoint(g)) else None
  }
}
