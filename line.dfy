/** Bresenham line rasterisation as GridMovement.Bresenham performs it
    (Assets/Scripts/GridMovement.cs, lines 83-128).

    The source keeps the current cell (x0, y0), the error term `err` and the
    constants dx, dy, sx, sy. One iteration of its `while (true)` loop is
    `Next` and `Iterate` is the state after k iterations. `Line` is the
    cells the loop enqueues in Distance(start, end) + 1 iterations, the
    number of iterations it runs, with the start cell dropped. Under the
    invariant `Inv` every iteration brings the current cell one unit of
    Chebyshev distance nearer the end. The method `Bresenham` runs the loop
    itself and is proved to return `Line`. */
module Line {
  import opened Vectors

  function Dx(start: Pos, end: Pos): nat { Abs(end.x - start.x) }
  function Dy(start: Pos, end: Pos): nat { Abs(end.y - start.y) }
  function Sx(start: Pos, end: Pos): int { if start.x < end.x then 1 else -1 }
  function Sy(start: Pos, end: Pos): int { if start.y < end.y then 1 else -1 }

  /** The cell lies in the rectangle spanned by start and end. */
  predicate InBox(start: Pos, end: Pos, p: Pos)
  {
    Between(start.x, p.x, end.x) && Between(start.y, p.y, end.y)
  }

  /** A step from p to q moves each coordinate by nothing or by one unit in
      the direction (sx, sy) the source fixes before its loop. */
  predicate Toward(start: Pos, end: Pos, p: Pos, q: Pos)
  {
    (q.x == p.x || q.x == p.x + Sx(start, end)) &&
    (q.y == p.y || q.y == p.y + Sy(start, end))
  }

  /** The error-term invariant over plain integers: dx, dy are the absolute
      deltas, a and b the distances still to go on each axis. The error term
      is exactly dx - dy + a*dy - b*dx, and the three bounds on it say that
      the axis with the larger delta advances on every iteration. */
  predicate ErrInv(dx: int, dy: int, a: int, b: int, err: int)
  {
    && 0 <= a <= dx && 0 <= b <= dy
    && err == dx - dy + Mul(a, dy) - Mul(b, dx)
    && (dx > dy ==> 2 * err > -dy)
    && (dx < dy ==> 2 * err < dx)
    && (dx == dy ==> err == 0)
  }

  /** k * n, spelt out as repeated addition so that the products in the
      invariant stay out of the arithmetic of the proofs that only carry it. */
  function Mul(k: nat, n: int): int
  {
    if k == 0 then 0 else n + Mul(k - 1, n)
  }

  lemma {:induction false} MulIsProduct(k: nat, n: int)
    ensures Mul(k, n) == k * n
  {
    if k > 0 {
      MulIsProduct(k - 1, n);
    }
  }

  /** What holds of the loop state (c, err) at the top of every iteration. */
  predicate Inv(start: Pos, end: Pos, c: Pos, err: int)
  {
    InBox(start, end, c) &&
    ErrInv(Dx(start, end), Dy(start, end), Abs(end.x - c.x), Abs(end.y - c.y), err)
  }

  /** One pass of the loop body after the end test (lines 111-123). */
  function Next(start: Pos, end: Pos, c: Pos, err: int): (Pos, int)
  {
    var dx: int, dy: int := Dx(start, end), Dy(start, end);
    var e2 := err * 2;
    var x := if e2 > -dy then c.x + Sx(start, end) else c.x;
    var errX := if e2 > -dy then err - dy else err;
    var y := if e2 < dx then c.y + Sy(start, end) else c.y;
    var errY := if e2 < dx then errX + dx else errX;
    (Pos(x, y), errY)
  }

  /** The queue Bresenham(start, end) returns: every cell of the line after
      the start cell. LineShape states what it is. */
  function Line(start: Pos, end: Pos): seq<Pos>
  {
    Enqueued(start, end, Distance(start, end) + 1)[1..]
  }

  /** The cells enqueued in Distance(start, end) + 1 iterations, start
      cell dropped, form a line. */
  lemma LineSteps(start: Pos, end: Pos, r: seq<Pos>)
    requires r == Enqueued(start, end, Distance(start, end) + 1)[1..]
    ensures IsLine(start, end, r)
  {
    var d := Distance(start, end);
    EnqueuedLength(start, end, d + 1);
    forall i | 0 <= i < |r|
      ensures Distance(r[i], end) == |r| - 1 - i && InBox(start, end, r[i])
      ensures Adjacent(Before(start, r, i), r[i]) && Toward(start, end, Before(start, r, i), r[i])
    {
      EnqueuedAt(start, end, d + 1, i + 1);
      EnqueuedAt(start, end, d + 1, i);
      IterationStep(start, end, i);
      assert r[i] == Iterate(start, end, i + 1).0;
      assert Before(start, r, i) == Iterate(start, end, i).0;
    }
  }

  /** Line(start, end) is a line from start to end; it is empty exactly
      when start and end coincide, ends on the end cell, and never contains
      the start cell. */
  lemma LineShape(start: Pos, end: Pos, r: seq<Pos>)
    requires r == Line(start, end)
    ensures IsLine(start, end, r)
    ensures r == [] <==> start == end
    ensures r != [] ==> r[|r| - 1] == end
    ensures start !in r
  {
    LineSteps(start, end, r);
    forall i | 0 <= i < |r|
      ensures r[i] != start
    {
      assert Distance(r[i], end) < Distance(start, end);
    }
    if r != [] {
      assert Distance(r[|r| - 1], end) == 0;
    }
  }

  /** A line whose end is three columns right and four rows up of its
      start: one cell per unit of Chebyshev distance, four cells, three of
      them diagonal moves. */
  lemma SteepLineExample()
    ensures Line(Pos(0, 0), Pos(3, 4)) == [Pos(1, 1), Pos(1, 2), Pos(2, 3), Pos(3, 4)]
  {
  }

  /** The cell the agent stands on before it takes step i of `steps`. */
  function Before(start: Pos, steps: seq<Pos>, i: nat): Pos
    requires i < |steps|
  {
    if i == 0 then start else steps[i - 1]
  }

  /** What a rasterised line from start to end is: it has one cell per unit
      of Chebyshev distance, every step brings it exactly one unit closer to
      the end, every step (the first one from the start cell included) goes
      to a touching cell in the direction of the end, and it never leaves
      the rectangle spanned by start and end. */
  predicate IsLine(start: Pos, end: Pos, steps: seq<Pos>)
  {
    && |steps| == Distance(start, end)
    && (forall i :: 0 <= i < |steps| ==> Distance(steps[i], end) == |steps| - 1 - i)
    && (forall i :: 0 <= i < |steps| ==>
          Adjacent(Before(start, steps, i), steps[i]) && Toward(start, end, Before(start, steps, i), steps[i]))
    && (forall i :: 0 <= i < |steps| ==> InBox(start, end, steps[i]))
  }

  lemma InitLemma(start: Pos, end: Pos)
    ensures Inv(start, end, start, Dx(start, end) - Dy(start, end))
  {
    var dx, dy := Dx(start, end), Dy(start, end);
    MulIsProduct(dx, dy);
    MulIsProduct(dy, dx);
  }

  lemma MulLeft(k: int, a: int, b: int)
    requires k >= 0 && a <= b
    ensures k * a <= k * b
  {
  }

  lemma MulStrict(k: int, a: int, b: int)
    requires k > 0 && a < b
    ensures k * a < k * b
  {
  }

  /** The facts of ErrBounds, with the products written out. */
  lemma XLeads(dx: int, dy: int, a: int, b: int)
    requires 0 <= a <= dx && 0 <= b <= dy && dx > dy && a < b
    ensures dx - dy + a * dy - b * dx <= -dy
  {
    MulLeft(a, dy, dx);
    MulLeft(dx, a + 1, b);
    assert dx * (a + 1) == a * dx + dx;
  }

  lemma YLeads(dx: int, dy: int, a: int, b: int)
    requires 0 <= a <= dx && 0 <= b <= dy && dx < dy && b < a
    ensures dx - dy + a * dy - b * dx >= dx
  {
    MulLeft(b, dx, dy);
    MulLeft(dy, b + 1, a);
    assert dy * (b + 1) == b * dy + dy;
  }

  lemma EqualLead(dx: int, a: int, b: int)
    requires 0 < dx && a * dx == b * dx
    ensures a == b
  {
    if a < b { MulStrict(dx, a, b); }
    if b < a { MulStrict(dx, b, a); }
  }

  lemma ProductBounds(dx: int, dy: int, a: int, b: int, err: int)
    requires 0 <= a <= dx && 0 <= b <= dy
    requires err == dx - dy + a * dy - b * dx
    requires dx > dy ==> 2 * err > -dy
    requires dx < dy ==> 2 * err < dx
    requires dx == dy ==> err == 0
    ensures dx >= dy ==> b <= a
    ensures dx <= dy ==> a <= b
    ensures a == 0 && b > 0 ==> 2 * err <= -dy
    ensures b == 0 && a > 0 ==> 2 * err >= dx
  {
    if dx > dy && a < b {
      XLeads(dx, dy, a, b);
    }
    if dx < dy && b < a {
      YLeads(dx, dy, a, b);
    }
    if dx == dy && dx > 0 {
      assert a * dy == a * dx;
      EqualLead(dx, a, b);
    }
    if a == 0 && b > 0 {
      MulLeft(dx, 1, b);
      assert a * dy == 0;
    }
    if b == 0 && a > 0 {
      MulLeft(dy, 1, a);
      assert b * dx == 0;
    }
  }

  /** Under the invariant the axis with the larger delta is never behind,
      and an axis that has reached its end coordinate does not move. */
  lemma ErrBounds(dx: int, dy: int, a: int, b: int, err: int)
    requires ErrInv(dx, dy, a, b, err)
    ensures dx >= dy ==> b <= a
    ensures dx <= dy ==> a <= b
    ensures a == 0 && b > 0 ==> 2 * err <= -dy
    ensures b == 0 && a > 0 ==> 2 * err >= dx
  {
    MulIsProduct(a, dy);
    MulIsProduct(b, dx);
    ProductBounds(dx, dy, a, b, err);
  }

  /** One iteration on the integer state: each axis that moves lowers its
      remaining distance by one, the invariant is kept and the larger of the
      two remaining distances drops by exactly one. */
  lemma ErrStep(dx: int, dy: int, a: int, b: int, err: int, mx: bool, my: bool)
    requires ErrInv(dx, dy, a, b, err) && (a != 0 || b != 0)
    requires mx == (2 * err > -dy) && my == (2 * err < dx)
    ensures mx || my
    ensures mx ==> a != 0
    ensures my ==> b != 0
    ensures ErrInv(dx, dy, if mx then a - 1 else a, if my then b - 1 else b,
                   (if mx then err - dy else err) + (if my then dx else 0))
    ensures Max(if mx then a - 1 else a, if my then b - 1 else b) == Max(a, b) - 1
  {
    ErrBounds(dx, dy, a, b, err);
    var e2 := 2 * err;
    var a' := if e2 > -dy then a - 1 else a;
    var err1 := if e2 > -dy then err - dy else err;
    var b' := if e2 < dx then b - 1 else b;
    var err' := if e2 < dx then err1 + dx else err1;
    assert a' >= 0 && b' >= 0;
    MulIsProduct(a, dy);
    MulIsProduct(b, dx);
    MulIsProduct(a', dy);
    MulIsProduct(b', dx);
    assert (a - 1) * dy == a * dy - dy;
    assert (b - 1) * dx == b * dx - dx;
    assert err' == dx - dy + Mul(a', dy) - Mul(b', dx);
    assert ErrInv(dx, dy, a', b', err');
    ErrBounds(dx, dy, a', b', err');
  }

  /** A coordinate in the range from s to e, not yet at e, that moves one
      unit toward e stays in range and gets one unit closer to e. */
  lemma AxisStep(s: int, e: int, v: int)
    requires Between(s, v, e) && v != e
    ensures Abs(e - (v + (if s < e then 1 else -1))) == Abs(e - v) - 1
    ensures Between(s, v + (if s < e then 1 else -1), e)
  {
  }

  /** The cell geometry of one iteration, apart from the error term: moving
      the axes that have not reached the end stays in the rectangle and
      brings each moved axis one unit nearer the end. */
  lemma CellStep(start: Pos, end: Pos, c: Pos, mx: bool, my: bool)
    requires InBox(start, end, c)
    requires mx ==> c.x != end.x
    requires my ==> c.y != end.y
    ensures var n := Pos(if mx then c.x + Sx(start, end) else c.x,
                         if my then c.y + Sy(start, end) else c.y);
      && InBox(start, end, n)
      && Abs(end.x - n.x) == (if mx then Abs(end.x - c.x) - 1 else Abs(end.x - c.x))
      && Abs(end.y - n.y) == (if my then Abs(end.y - c.y) - 1 else Abs(end.y - c.y))
  {
    if mx {
      AxisStep(start.x, end.x, c.x);
    }
    if my {
      AxisStep(start.y, end.y, c.y);
    }
  }

  /** When at least one axis moves, the new cell touches the old one, lies
      toward the end, and the distances to the end are the larger of the
      per-axis remainders. */
  lemma CellMoves(start: Pos, end: Pos, c: Pos, mx: bool, my: bool)
    requires mx || my
    ensures var n := Pos(if mx then c.x + Sx(start, end) else c.x,
                         if my then c.y + Sy(start, end) else c.y);
      && Distance(n, end) == Max(Abs(end.x - n.x), Abs(end.y - n.y))
      && Distance(c, end) == Max(Abs(end.x - c.x), Abs(end.y - c.y))
      && Adjacent(c, n) && Toward(start, end, c, n)
  {
  }

  /** One iteration keeps the invariant. This is the first clause of
      StepLemma proved on its own, so that the invariant's obligations are
      discharged apart from the distance and adjacency ones and each proof
      stays small. */
  lemma StepKeepsInv(start: Pos, end: Pos, c: Pos, err: int)
    requires Inv(start, end, c, err) && c != end
    ensures Inv(start, end, Next(start, end, c, err).0, Next(start, end, c, err).1)
  {
    var dx: int, dy: int := Dx(start, end), Dy(start, end);
    var a, b := Abs(end.x - c.x), Abs(end.y - c.y);
    var mx, my := 2 * err > -dy, 2 * err < dx;
    var n := Next(start, end, c, err);
    assert n.0 == Pos(if mx then c.x + Sx(start, end) else c.x, if my then c.y + Sy(start, end) else c.y);
    assert n.1 == (if mx then err - dy else err) + (if my then dx else 0);
    ErrStep(dx, dy, a, b, err, mx, my);
    CellStep(start, end, c, mx, my);
  }

  /** One iteration goes to a touching cell toward the end and lowers the
      Chebyshev distance to the end by exactly one. */
  lemma StepLemma(start: Pos, end: Pos, c: Pos, err: int)
    requires Inv(start, end, c, err) && c != end
    ensures Inv(start, end, Next(start, end, c, err).0, Next(start, end, c, err).1)
    ensures Distance(Next(start, end, c, err).0, end) == Distance(c, end) - 1
    ensures Adjacent(c, Next(start, end, c, err).0)
    ensures Toward(start, end, c, Next(start, end, c, err).0)
  {
    var dx: int, dy: int := Dx(start, end), Dy(start, end);
    var a, b := Abs(end.x - c.x), Abs(end.y - c.y);
    var mx, my := 2 * err > -dy, 2 * err < dx;
    var n := Next(start, end, c, err);
    assert n.0 == Pos(if mx then c.x + Sx(start, end) else c.x, if my then c.y + Sy(start, end) else c.y);
    ErrStep(dx, dy, a, b, err, mx, my);
    CellStep(start, end, c, mx, my);
    CellMoves(start, end, c, mx, my);
    StepKeepsInv(start, end, c, err);
  }

  /** The state of the source's loop after k iterations. */
  function Iterate(start: Pos, end: Pos, k: nat): (Pos, int)
  {
    if k == 0 then (start, Dx(start, end) - Dy(start, end))
    else Next(start, end, Iterate(start, end, k - 1).0, Iterate(start, end, k - 1).1)
  }

  /** The cells enqueued by the first k iterations. */
  function Enqueued(start: Pos, end: Pos, k: nat): seq<Pos>
  {
    if k == 0 then [] else Enqueued(start, end, k - 1) + [Iterate(start, end, k - 1).0]
  }

  /** Up to Distance(start, end) iterations the loop keeps the invariant
      and its current cell is k cells nearer the end. */
  lemma {:induction false} IterateInv(start: Pos, end: Pos, k: nat)
    requires k <= Distance(start, end)
    ensures Inv(start, end, Iterate(start, end, k).0, Iterate(start, end, k).1)
    ensures Distance(Iterate(start, end, k).0, end) == Distance(start, end) - k
  {
    if k == 0 {
      InitLemma(start, end);
    } else {
      IterateInv(start, end, k - 1);
      StepLemma(start, end, Iterate(start, end, k - 1).0, Iterate(start, end, k - 1).1);
    }
  }

  /** Iteration i + 1, for i short of Distance(start, end), moves to a
      touching cell toward the end, inside the rectangle, one unit nearer
      the end. */
  lemma IterationStep(start: Pos, end: Pos, i: nat)
    requires i < Distance(start, end)
    ensures Distance(Iterate(start, end, i + 1).0, end) == Distance(start, end) - 1 - i
    ensures InBox(start, end, Iterate(start, end, i + 1).0)
    ensures Adjacent(Iterate(start, end, i).0, Iterate(start, end, i + 1).0)
    ensures Toward(start, end, Iterate(start, end, i).0, Iterate(start, end, i + 1).0)
  {
    IterateInv(start, end, i);
    StepLemma(start, end, Iterate(start, end, i).0, Iterate(start, end, i).1);
  }

  /** Enqueued(k) holds k cells. */
  lemma {:induction false} EnqueuedLength(start: Pos, end: Pos, k: nat)
    ensures |Enqueued(start, end, k)| == k
  {
    if k > 0 {
      EnqueuedLength(start, end, k - 1);
    }
  }

  /** Cell i of the queue is the current cell after i iterations. */
  lemma {:induction false} EnqueuedAt(start: Pos, end: Pos, k: nat, i: nat)
    requires i < k
    ensures |Enqueued(start, end, k)| == k
    ensures Enqueued(start, end, k)[i] == Iterate(start, end, i).0
  {
    EnqueuedLength(start, end, k);
    if i < k - 1 {
      EnqueuedAt(start, end, k - 1, i);
    }
  }

  /** The distance clause of IterateInv on its own. The loop of Bresenham
      calls this instead of IterateInv so that the invariant, with its
      products, stays out of the loop's proof obligations. */
  lemma IterateCloser(start: Pos, end: Pos, k: nat)
    requires k <= Distance(start, end)
    ensures Distance(Iterate(start, end, k).0, end) == Distance(start, end) - k
  {
    IterateInv(start, end, k);
  }

  /** One pass through the loop body after the end test (lines 111-123):
      each axis moves when its own test on the doubled error passes. */
  method Advance(start: Pos, end: Pos, x0: int, y0: int, err0: int, dx: int, dy: int, sx: int, sy: int)
    returns (x: int, y: int, err: int)
    requires dx == Dx(start, end) && dy == Dy(start, end)
    requires sx == Sx(start, end) && sy == Sy(start, end)
    ensures Pos(x, y) == Next(start, end, Pos(x0, y0), err0).0
    ensures err == Next(start, end, Pos(x0, y0), err0).1
  {
    x, y, err := x0, y0, err0;
    var e2 := err * 2;
    if e2 > -dy {
      err := err - dy;
      x := x + sx;
    }
    if e2 < dx {
      err := err + dx;
      y := y + sy;
    }
  }

  /** Bresenham (lines 83-128): enqueue every cell from start to end, then
      drop the start cell. The queue is a sequence; Enqueue appends and the
      final Dequeue drops the head. */
  method Bresenham(start: Pos, end: Pos) returns (steps: seq<Pos>)
    ensures steps == Line(start, end)
  {
    var queue: seq<Pos> := [];
    var x0, y0 := start.x, start.y;
    var x1, y1 := end.x, end.y;
    var dx: int := Abs(x1 - x0);
    var dy: int := Abs(y1 - y0);
    var sx := if x0 < x1 then 1 else -1;
    var sy := if y0 < y1 then 1 else -1;
    var err := dx - dy;
    ghost var k := 0;
    while true
      invariant k <= Distance(start, end)
      invariant Pos(x0, y0) == Iterate(start, end, k).0 && err == Iterate(start, end, k).1
      invariant queue == Enqueued(start, end, k)
      decreases Distance(start, end) - k
    {
      queue := queue + [Pos(x0, y0)];
      if x0 == x1 && y0 == y1 {
        break;
      }
      IterateCloser(start, end, k);
      x0, y0, err := Advance(start, end, x0, y0, err, dx, dy, sx, sy);
      k := k + 1;
    }
    IterateCloser(start, end, k);
    assert k == Distance(start, end);
    assert queue == Enqueued(start, end, k + 1);
    steps := queue[1..];
  }
}
