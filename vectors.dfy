/** Integer grid positions. Unity's Vector3 is reduced to its x and y
    components: every position the movement code compares or enqueues is a
    whole-number cell, and z plays no part in the grid logic. */
module Vectors {

  datatype Pos = Pos(x: int, y: int)

  function Abs(n: int): nat
  {
    if n < 0 then -n else n
  }

  function Max(a: nat, b: nat): nat
  {
    if a < b then b else a
  }

  /** Chebyshev distance: the number of king moves between two cells. */
  function Distance(p: Pos, q: Pos): nat
  {
    Max(Abs(p.x - q.x), Abs(p.y - q.y))
  }

  /** Distinct cells that touch by a side or a corner. */
  predicate Adjacent(p: Pos, q: Pos)
  {
    p != q && Abs(p.x - q.x) <= 1 && Abs(p.y - q.y) <= 1
  }

  /** v lies on the closed interval between a and b, in either order. */
  predicate Between(a: int, v: int, b: int)
  {
    if a <= b then a <= v <= b else b <= v <= a
  }
}
