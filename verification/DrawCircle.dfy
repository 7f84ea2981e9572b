/** Midpoint circles in 16-bit arithmetic: one octant, column by column, mirrored eight times. */
module DrawCircle {
  import opened Raster

  const SAFE_RADIUS: nat := 16556

  // How far the point is outside the circle: x^2 + y^2 - r^2.
  function Excess(r: nat, x: nat, y: nat): int {
    x * x + y * y - r * r
  }

  // No point of the column is nearer to the circle than y.
  predicate Nearest(r: nat, x: nat, y: nat) {
    -(y as int) <= Excess(r, x, y) < y
  }

  // Nearest fixes y: the plotted octant is determined by the radius alone.
  lemma NearestIsUnique(r: nat, x: nat, y: nat, z: nat)
    requires Nearest(r, x, y) && Nearest(r, x, z)
    ensures y == z
  {
    if y < z { SquaresGrow(y, z); } else if z < y { SquaresGrow(z, y); }
  }

  lemma SquaresGrow(y: nat, z: nat)
    requires y < z
    ensures z * z - y * y >= y + z
  {
    assert z * z - y * y == (z - y) * (z + y);
    assert (z - y - 1) * (z + y) >= 0;
  }

  // The eight reflections of an octant point.
  function Mirrored(center: Point, p: Point): seq<Point> {
    [Point(U16(center.x + p.x), U16(center.y + p.y)), Point(U16(center.x - p.x), U16(center.y + p.y)),
     Point(U16(center.x + p.x), U16(center.y - p.y)), Point(U16(center.x - p.x), U16(center.y - p.y)),
     Point(U16(center.x + p.y), U16(center.y + p.x)), Point(U16(center.x - p.y), U16(center.y + p.x)),
     Point(U16(center.x + p.y), U16(center.y - p.x)), Point(U16(center.x - p.y), U16(center.y - p.x))]
  }

  function AllMirrored(center: Point, octant: seq<Point>): seq<Point> {
    if octant == [] then []
    else AllMirrored(center, octant[..|octant| - 1]) + Mirrored(center, octant[|octant| - 1])
  }

  // Reflected by p.x and p.y, the coordinates stay on the screen's 16 bits.
  predicate Unwrapped(center: Point, p: Point) {
    && p.x <= center.x && p.y <= center.x && p.x <= center.y && p.y <= center.y
    && center.x + p.x < 0x1_0000 && center.x + p.y < 0x1_0000
    && center.y + p.x < 0x1_0000 && center.y + p.y < 0x1_0000
  }

  function Distance(a: nat, b: nat): nat {
    if a <= b then b - a else a - b
  }

  // The eight points are all those as far from the center, one way and the other, as p says.
  lemma MirroredIs(center: Point, p: Point, q: Point)
    requires Unwrapped(center, p)
    ensures q in Mirrored(center, p) <==>
              var dx, dy := Distance(q.x, center.x), Distance(q.y, center.y);
              (dx == p.x && dy == p.y) || (dx == p.y && dy == p.x)
  {
    hide U16;
    U16Fits(center.x + p.x);
    U16Fits(center.x - p.x);
    U16Fits(center.x + p.y);
    U16Fits(center.x - p.y);
    U16Fits(center.y + p.x);
    U16Fits(center.y - p.x);
    U16Fits(center.y + p.y);
    U16Fits(center.y - p.y);
  }

  lemma U16Fits(x: int)
    ensures 0 <= x < 0x1_0000 ==> U16(x) == x
  {}

  lemma {:induction false} AllMirroredHas(center: Point, octant: seq<Point>, q: Point)
    ensures q in AllMirrored(center, octant) <==> exists p :: p in octant && q in Mirrored(center, p)
    decreases octant
  {
    hide Mirrored;
    if octant != [] {
      var front, last := octant[..|octant| - 1], octant[|octant| - 1];
      assert octant == front + [last];
      AllMirroredHas(center, front, q);
    }
  }

  /** The pixels of a circle that stays on the screen are exactly the points whose two distances from
      the center, the smaller and the larger in either order, are those of a plotted octant point: the
      picture has all eight symmetries. */
  lemma CircleHas(center: Point, octant: seq<Point>, q: Point)
    requires forall p :: p in octant ==> Unwrapped(center, p)
    ensures q in AllMirrored(center, octant) <==>
              var dx, dy := Distance(q.x, center.x), Distance(q.y, center.y);
              Point(dx, dy) in octant || Point(dy, dx) in octant
  {
    hide Mirrored, AllMirrored;
    AllMirroredHas(center, octant, q);
    forall p | p in octant
      ensures q in Mirrored(center, p) <==>
                var dx, dy := Distance(q.x, center.x), Distance(q.y, center.y);
                p == Point(dx, dy) || p == Point(dy, dx)
    {
      MirroredIs(center, p, q);
    }
  }

  // The decision variable kept between columns.
  function Decision(r: nat, x: nat, y: nat): int {
    Excess(r, x, y) + 2 * x + 1 - y
  }

  lemma StepEast(r: nat, x: nat, y: nat)
    ensures Excess(r, x + 1, y) == Decision(r, x, y) + y
    ensures Decision(r, x + 1, y) == Decision(r, x, y) + 2 * (x + 1) + 1
  {}

  lemma StepSouthEast(r: nat, x: nat, y: nat)
    requires y > 0
    ensures Excess(r, x + 1, y - 1) == Decision(r, x, y) - y + 1
    ensures Decision(r, x + 1, y - 1) == Decision(r, x, y) + 2 * (x + 1 - (y - 1)) + 1
  {
    assert (y - 1) * (y - 1) == y * y - 2 * y + 1;
    assert (x + 1) * (x + 1) == x * x + 2 * x + 1;
  }

  // What holds of a plotted octant point.
  predicate OnOctant(r: nat, p: Point) {
    && -(p.y as int) <= Excess(r, p.x, p.y) <= p.y
    && (p.x < p.y ==> Nearest(r, p.x, p.y))
  }

  // ---------- The cursor in 16-bit arithmetic ----------

  datatype Cursor = Cursor(x: int, y: int, p: int)

  function Start(r: nat): Cursor {
    Cursor(0, I16(r), I16(1 - r))
  }

  function Advance(c: Cursor): Cursor {
    var x := c.x + 1;
    if c.p < 0 then Cursor(x, c.y, I16(c.p + 2 * x + 1))
    else Cursor(x, c.y - 1, I16(c.p + 2 * (x - (c.y - 1)) + 1))
  }

  // The cursor after k columns.
  function CursorAt(r: nat, k: nat): Cursor {
    if k == 0 then Start(r) else Advance(CursorAt(r, k - 1))
  }

  // The cursor is on the octant, its decision variable exact.
  predicate Exact(r: nat, c: Cursor) {
    && 0 <= c.x <= c.y + 2 && 0 <= c.y <= r
    && c.p == Decision(r, c.x, c.y) && OnOctant(r, Point(c.x, c.y))
  }

  // Columns from the top to past the diagonal.
  ghost predicate Reached(r: nat, k: nat) {
    forall j: nat :: j < k ==> CursorAt(r, j).x < CursorAt(r, j).y
  }

  // What the squares involved are known to satisfy. Below the top row, x has grown past sqrt(r).
  predicate Squares(r: nat, x: nat, y: nat, xx: int, yy: int, rr: int) {
    && r <= SAFE_RADIUS && x < y <= r && 0 <= xx <= yy && rr <= 274101136
    && -(y as int) <= xx + yy - rr <= y
    && (y == r ==> yy == rr) && (y < r ==> rr - yy >= r + y)
    && (x <= 128 ==> xx <= 16384) && (x >= 16380 ==> xx >= 268304400)
  }

  lemma SquaresHold(r: nat, x: nat, y: nat)
    requires r <= SAFE_RADIUS && x < y <= r && OnOctant(r, Point(x, y))
    ensures Squares(r, x, y, x * x, y * y, r * r)
  {
    SquaresAreMonotone(x, y);
    SquaresAreMonotone(r, SAFE_RADIUS);
    if y < r { SquaresGrow(y, r); }
    if x <= 128 { SquaresAreMonotone(x, 128); }
    if x >= 16380 { SquaresAreMonotone(16380, x); }
  }

  // The row stays level.
  lemma LevelFits(r: nat, x: nat, y: nat, xx: int, yy: int, rr: int)
    requires Squares(r, x, y, xx, yy, rr) && xx + yy - rr + 2 * x + 1 - y < 0
    ensures -0x8000 <= xx + yy - rr + 2 * x + 1 - y + 2 * (x + 1) + 1 < 0x8000
  {}

  // A step down takes the decision variable to about -2y; by then x has grown enough. `next` is
  // the square of x + 1.
  lemma DescentFits(r: nat, x: nat, y: nat, xx: int, yy: int, rr: int, next: int)
    requires Squares(r, x, y, xx, yy, rr) && next == xx + 2 * x + 1 && next + yy - rr - y >= 0
    requires (x < 128 ==> next <= 16384) && (x >= 128 ==> next >= 16641) && (x <= 220 ==> next <= 48841)
    ensures -0x8000 <= next + yy - rr - y + 2 * (x + 1 - (y - 1)) + 1 < 0x8000
  {}

  lemma NextSquare(x: nat)
    ensures (x + 1) * (x + 1) == x * x + 2 * x + 1
    ensures (x < 128 ==> (x + 1) * (x + 1) <= 16384) && (x >= 128 ==> (x + 1) * (x + 1) >= 16641)
    ensures x <= 220 ==> (x + 1) * (x + 1) <= 48841
  {
    if x < 128 { SquaresAreMonotone(x + 1, 128); } else { SquaresAreMonotone(129, x + 1); }
    if x <= 220 { SquaresAreMonotone(x + 1, 221); }
  }

  lemma SquaresAreMonotone(y: nat, z: nat)
    requires y <= z
    ensures y * y <= z * z
  {
    if y < z { SquaresGrow(y, z); }
  }

  // The decision variable after either step fits in 16 bits.
  lemma StepFits(r: nat, x: nat, y: nat)
    requires r <= SAFE_RADIUS && x < y <= r && OnOctant(r, Point(x, y))
    ensures Decision(r, x, y) < 0 ==> -0x8000 <= Decision(r, x, y) + 2 * (x + 1) + 1 < 0x8000
    ensures Decision(r, x, y) >= 0 ==> -0x8000 <= Decision(r, x, y) + 2 * (x + 1 - (y - 1)) + 1 < 0x8000
  {
    SquaresHold(r, x, y);
    NextSquare(x);
    if Decision(r, x, y) < 0 {
      LevelFits(r, x, y, x * x, y * y, r * r);
    } else {
      DescentFits(r, x, y, x * x, y * y, r * r, (x + 1) * (x + 1));
    }
  }

  lemma AdvanceStaysExact(r: nat, c: Cursor)
    requires r <= SAFE_RADIUS && Exact(r, c) && c.x < c.y
    ensures Exact(r, Advance(c))
  {
    hide Excess, I16;
    StepEast(r, c.x, c.y);
    StepSouthEast(r, c.x, c.y);
    I16Fits(c.p + 2 * (c.x + 1) + 1);
    I16Fits(c.p + 2 * (c.x + 1 - (c.y - 1)) + 1);
    StepFits(r, c.x, c.y);
  }

  lemma {:induction false} CursorStaysExact(r: nat, k: nat)
    requires r <= SAFE_RADIUS && Reached(r, k)
    ensures Exact(r, CursorAt(r, k)) && CursorAt(r, k).x == k
  {
    if k == 0 {
      StartsOnCircle(r);
      I16Fits(r);
      I16Fits(1 - r);
    } else {
      CursorStaysExact(r, k - 1);
      AdvanceStaysExact(r, CursorAt(r, k - 1));
    }
  }

  // At the next radius the first step down overflows, and the cursor leaves the circle.
  lemma {:induction false} LargeCirclePrefix(r: nat, k: nat)
    requires r == SAFE_RADIUS + 1 && k <= 128
    ensures CursorAt(r, k) == Cursor(k, r, k * k + 2 * k + 1 - r)
  {
    hide I16;
    I16Fits(r);
    I16Fits(1 - r);
    if k > 0 {
      LargeCirclePrefix(r, k - 1);
      NextSquare(k - 1);
      if k < 128 { SquaresAreMonotone(k, 127); }
      I16Fits(k * k - r + 2 * k + 1);
    }
  }

  lemma LargeCircleIsLost(r: nat)
    requires r == SAFE_RADIUS + 1
    ensures CursorAt(r, 130) == Cursor(130, 16555, CursorAt(r, 130).p) && !OnOctant(r, Point(130, 16555))
    ensures Reached(r, 130)
  {
    LargeCirclePrefix(r, 128);
    var c := CursorAt(r, 129);
    assert c == Advance(CursorAt(r, 128)) == Cursor(129, 16556, 32767);
    assert CursorAt(r, 130) == Advance(c);
    forall j: nat | j < 130 ensures CursorAt(r, j).x < CursorAt(r, j).y {
      if j <= 128 { LargeCirclePrefix(r, j); }
    }
  }

  /** Every circle of radius up to m stays on the octant if and only if m is at most 16556. */
  lemma RadiiAreSafeIff(m: nat)
    ensures (forall r: nat, k: nat :: r <= m && Reached(r, k) ==> Exact(r, CursorAt(r, k))) <==> m <= SAFE_RADIUS
  {
    if m <= SAFE_RADIUS {
      forall r: nat, k: nat | r <= m && Reached(r, k) ensures Exact(r, CursorAt(r, k)) {
        CursorStaysExact(r, k);
      }
    } else {
      LargeCircleIsLost(SAFE_RADIUS + 1);
    }
  }

  /** Plots one point in each column of the octant, from the top to past the diagonal, each at the
      row nearest to the circle, and its eight reflections. */
  method DrawCircle(center: Point, radius: nat) returns (octant: seq<Point>, pixels: seq<Point>)
    requires radius <= SAFE_RADIUS
    ensures octant != [] && octant[0] == Point(0, radius)
    ensures forall i :: 0 <= i < |octant| ==> octant[i].x == i && OnOctant(radius, octant[i])
    ensures forall i :: 0 <= i < |octant| - 1 ==> octant[i].x < octant[i].y
    ensures octant[|octant| - 1].x >= octant[|octant| - 1].y
    ensures pixels == AllMirrored(center, octant)
  {
    hide Excess, I16, U16;
    var x: int, y: int, p := 0, I16(radius), I16(1 - radius);
    I16Fits(radius);
    I16Fits(1 - radius);
    StartsOnCircle(radius);
    octant := [Point(0, radius)];
    pixels := Mirrored(center, Point(0, radius));
    assert octant[..0] == [];
    while x < y
      invariant Exact(radius, Cursor(x, y, p))
      invariant |octant| == x + 1 && octant[x] == Point(x, y) && octant[0] == Point(0, radius)
      invariant forall i :: 0 <= i < |octant| ==> octant[i].x == i && OnOctant(radius, octant[i])
      invariant forall i :: 0 <= i < x ==> octant[i].x < octant[i].y
      invariant pixels == AllMirrored(center, octant)
      decreases y - x
    {
      AdvanceStaysExact(radius, Cursor(x, y, p));
      x := x + 1;
      if p < 0 {
        p := I16(p + 2 * x + 1);
      } else {
        y := y - 1;
        p := I16(p + 2 * (x - y) + 1);
      }
      assert (octant + [Point(x, y)])[..x] == octant;
      octant := octant + [Point(x, y)];
      pixels := pixels + Mirrored(center, Point(x, y));
    }
  }

  lemma StartsOnCircle(r: nat)
    ensures Excess(r, 0, r) == 0 && Decision(r, 0, r) == 1 - r
  {}
}
