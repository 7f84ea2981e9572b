/** Bresenham lines in 16-bit arithmetic: the k-th pixel is the k-th point of the ideal line,
    rounded to the nearest pixel. */
module DrawLine {
  import opened Arithmetic
  import opened Raster

  // ---------- The ideal line ----------

  // Whole steps taken in x and y.
  datatype Steps = Steps(a: nat, b: nat)

  function Max(x: nat, y: nat): nat {
    if x >= y then x else y
  }

  // n/d rounded to the nearest integer, halves upwards.
  function Round(n: nat, d: nat): nat
    requires d > 0
  {
    (2 * n + d) / (2 * d)
  }

  // The k-th of Max(d, h) steps towards the point d across and h down.
  function Ideal(d: nat, h: nat, k: nat): Steps {
    if d == 0 && h == 0 then Steps(0, 0)
    else if d >= h then Steps(k, Round(h * k, d))
    else Steps(Round(d * k, h), k)
  }

  // ---------- The kernel's error term ----------

  datatype Cursor = Cursor(at: Steps, error: int)

  function Start(d: nat, h: nat): Cursor {
    Cursor(Steps(0, 0), I16(d - h))
  }

  // One turn of the loop after a pixel that is not the last.
  function Advance(d: nat, h: nat, c: Cursor): Cursor {
    var errorX2 := I16(c.error * 2);
    var x, y := errorX2 + h >= 0, errorX2 <= d;
    var error := if x then I16(c.error - h) else c.error;
    Cursor(Steps(if x then c.at.a + 1 else c.at.a, if y then c.at.b + 1 else c.at.b),
           if y then I16(error + d) else error)
  }

  function CursorAt(d: nat, h: nat, k: nat): Cursor {
    if k == 0 then Start(d, h) else Advance(d, h, CursorAt(d, h, k - 1))
  }

  // ---------- The cursor follows the ideal line ----------

  // v = d*b - h*a, the signed distance from the line, scaled.
  function Offset(d: nat, h: nat, s: Steps): int {
    d * s.b - h * s.a
  }

  const SAFE_SPAN: nat := 10923

  // Nearest to the line in the minor direction, halves rounded up.
  predicate Near(d: nat, h: nat, s: Steps) {
    var v := Offset(d, h, s);
    if d >= h then (0 < 2 * v + d && 2 * v <= d) || (d == 0 && s == Steps(0, 0)) else 0 <= 2 * v + h && 2 * v < h
  }

  lemma RoundUnique(n: nat, d: nat, q: nat)
    requires d > 0 && 0 < 2 * (d * q - n) + d && 2 * (d * q - n) <= d
    ensures q == Round(n, d)
  {
    var m := 2 * n + d;
    assert 2 * d * q <= m < 2 * d * q + 2 * d;
    DivUnique(m, 2 * d, q);
  }

  // Being near the line after k major steps is being at its k-th point.
  lemma NearIsIdeal(d: nat, h: nat, s: Steps, k: nat)
    requires Near(d, h, s) && k == (if d >= h then s.a else s.b)
    ensures s == Ideal(d, h, k)
  {
    if d == 0 && h == 0 {
      assert Offset(d, h, s) == 0;
    } else if d >= h {
      RoundUnique(h * k, d, s.b);
    } else {
      assert 0 < 2 * (h * s.a - d * k) + h && 2 * (h * s.a - d * k) <= h;
      RoundUnique(d * k, h, s.a);
    }
  }

  lemma OffsetAfter(d: nat, h: nat, s: Steps)
    ensures Offset(d, h, Steps(s.a + 1, s.b)) == Offset(d, h, s) - h
    ensures Offset(d, h, Steps(s.a, s.b + 1)) == Offset(d, h, s) + d
    ensures Offset(d, h, Steps(s.a + 1, s.b + 1)) == Offset(d, h, s) + d - h
  {}

  // One turn from a point near the line: no 16-bit result wraps, and the next point is near.
  lemma AdvanceStaysNear(d: nat, h: nat, c: Cursor)
    requires d <= SAFE_SPAN && h <= SAFE_SPAN && Near(d, h, c.at) && (d > 0 || h > 0)
    requires c.error == Offset(d, h, c.at) + d - h
    ensures var n := Advance(d, h, c);
            && -0x8000 <= c.error * 2 < 0x8000
            && Near(d, h, n.at) && n.error == Offset(d, h, n.at) + d - h
            && (if d >= h then n.at.a == c.at.a + 1 else n.at.b == c.at.b + 1)
  {
    hide I16, Offset;
    var v := Offset(d, h, c.at);
    OffsetAfter(d, h, c.at);
    FlatLinesAreExact(d, h, c.at);
    I16Fits(c.error * 2);
    I16Fits(c.error - h);
    I16Fits(c.error + d);
    I16Fits(c.error + d - h);
  }

  // A horizontal or vertical line has no error to carry.
  lemma FlatLinesAreExact(d: nat, h: nat, s: Steps)
    requires Near(d, h, s)
    ensures d == 0 || h == 0 ==> Offset(d, h, s) == 0
  {
    MulMonotone(d, 1, s.b);
    MulMonotone(h, 1, s.a);
  }

  // The cursor is where the ideal line is, with the exact error term.
  ghost predicate Follows(d: nat, h: nat, k: nat) {
    var s := Ideal(d, h, k);
    CursorAt(d, h, k) == Cursor(s, Offset(d, h, s) + d - h)
  }

  function Major(d: nat, h: nat, s: Steps): nat {
    if d >= h then s.a else s.b
  }

  lemma IdealMajor(d: nat, h: nat, k: nat)
    requires k == 0 || d > 0 || h > 0
    ensures Major(d, h, Ideal(d, h, k)) == k
  {}

  lemma CursorStartsOnLine(d: nat, h: nat)
    requires d <= SAFE_SPAN && h <= SAFE_SPAN
    ensures Follows(d, h, 0) && Near(d, h, Ideal(d, h, 0))
  {
    var s := Steps(0, 0);
    assert Offset(d, h, s) == 0;
    NearIsIdeal(d, h, s, 0);
    I16Fits(d - h);
  }

  lemma {:induction false} CursorFollows(d: nat, h: nat, k: nat)
    requires d <= SAFE_SPAN && h <= SAFE_SPAN && (k == 0 || d > 0 || h > 0)
    ensures Follows(d, h, k) && Near(d, h, Ideal(d, h, k))
  {
    hide Round, Offset, I16, Near, Advance, Ideal;
    if k == 0 {
      CursorStartsOnLine(d, h);
    } else {
      CursorFollows(d, h, k - 1);
      AdvanceStaysNear(d, h, CursorAt(d, h, k - 1));
      IdealMajor(d, h, k - 1);
      NearIsIdeal(d, h, CursorAt(d, h, k).at, k);
    }
  }

  // A span one pixel longer: the doubled error no longer fits, and the cursor stops advancing.
  lemma {:induction false} LongSpanPrefix(d: nat, h: nat, k: nat)
    requires d == SAFE_SPAN + 1 && h == 1 && k <= 5461
    ensures CursorAt(d, h, k) == Cursor(Steps(k, 0), 10923 - k)
  {
    if k == 0 {
    } else {
      LongSpanPrefix(d, h, k - 1);
    }
  }

  lemma LongSpanLosesTheLine(d: nat, h: nat)
    requires d == SAFE_SPAN + 1 && h == 1
    ensures CursorAt(d, h, 5463).at == Steps(5462, 2)
    ensures Ideal(d, h, 5463) == Steps(5463, 1)
  {
    LongSpanPrefix(d, h, 5461);
    var c := CursorAt(d, h, 5461);
    assert Advance(d, h, c) == Cursor(Steps(5462, 1), 16385);
    assert Advance(d, h, Advance(d, h, c)).at == Steps(5462, 2);
    assert CursorAt(d, h, 5463) == Advance(d, h, CursorAt(d, h, 5462));
  }

  /** The 16-bit error term draws every line of spans up to m as the ideal line exactly when m is
      at most 10923. */
  lemma SpansAreSafeIff(m: nat)
    ensures (forall d: nat, h: nat, k: nat :: d <= m && h <= m && k <= Max(d, h) ==> Follows(d, h, k))
            <==> m <= SAFE_SPAN
  {
    if m <= SAFE_SPAN {
      forall d: nat, h: nat, k: nat | d <= m && h <= m && k <= Max(d, h) ensures Follows(d, h, k) {
        CursorFollows(d, h, k);
      }
    } else {
      var d, h := SAFE_SPAN + 1, 1;
      LongSpanLosesTheLine(d, h);
      assert !Follows(d, h, 5463);
    }
  }

  // The ideal line reaches its end point after Max(d, h) steps, and not before.
  lemma IdealReachesEnd(d: nat, h: nat, k: nat)
    requires k <= Max(d, h)
    ensures Ideal(d, h, k) == Steps(d, h) <==> k == Max(d, h)
    ensures Ideal(d, h, k).a <= d && Ideal(d, h, k).b <= h
  {
    if d >= h && d > 0 {
      MulMonotone(h, k, d);
      RoundIsMonotone(h * k, h * d, d);
      RoundExact(h, d);
    } else if h > 0 {
      MulMonotone(d, k, h);
      RoundIsMonotone(d * k, d * h, h);
      RoundExact(d, h);
    }
  }

  lemma RoundExact(q: nat, d: nat)
    requires d > 0
    ensures Round(q * d, d) == q
  {
    assert d * q == q * d;
    RoundUnique(q * d, d, q);
  }

  lemma RoundIsMonotone(m: nat, n: nat, d: nat)
    requires d > 0 && m <= n
    ensures Round(m, d) <= Round(n, d)
  {
    DivIsMonotone(2 * m + d, 2 * n + d, 2 * d);
  }

  /** Every point of the ideal line is within half a pixel of the line, in the minor direction. */
  lemma IdealIsWithinHalfAPixel(d: nat, h: nat, k: nat)
    requires k <= Max(d, h)
    ensures var v := Offset(d, h, Ideal(d, h, k));
            -(Max(d, h) as int) <= 2 * v <= Max(d, h)
  {
    hide Round, Offset, Ideal;
    IdealOffset(d, h, k);
    if d >= h && d > 0 {
      RoundIsNear(h * k, d);
    } else if h > 0 {
      RoundIsNear(d * k, h);
    }
  }

  lemma IdealOffset(d: nat, h: nat, k: nat)
    ensures var v := Offset(d, h, Ideal(d, h, k));
            && (d >= h && d > 0 ==> v == d * Round(h * k, d) - h * k)
            && (d < h ==> v == d * k - h * Round(d * k, h))
            && (d == 0 && h == 0 ==> v == 0)
  {}

  lemma RoundIsNear(n: nat, d: nat)
    requires d > 0
    ensures 0 < 2 * (d * Round(n, d) - n) + d && 2 * (d * Round(n, d) - n) <= d
  {
    var m := 2 * n + d;
    var q := m / (2 * d);
    assert 2 * d * q <= m < 2 * d * q + 2 * d;
  }

  // ---------- draw_line ----------

  function Span(from: nat, to: nat): nat {
    if from <= to then to - from else from - to
  }

  // The pixel s.a columns and s.b rows from `start` towards `end`.
  function PixelAt(start: Point, end: Point, s: Steps): Point
    requires s.a <= Span(start.x, end.x) && s.b <= Span(start.y, end.y)
  {
    Point(if start.x < end.x then start.x + s.a else start.x - s.a,
          if start.y < end.y then start.y + s.b else start.y - s.b)
  }

  // `p` is the k-th point of the ideal line from start to end.
  predicate Plotted(start: Point, end: Point, k: nat, p: Point) {
    var s := Ideal(Span(start.x, end.x), Span(start.y, end.y), k);
    s.a <= Span(start.x, end.x) && s.b <= Span(start.y, end.y) && p == PixelAt(start, end, s)
  }

  predicate Between(x: nat, from: nat, to: nat) {
    from <= x <= to || to <= x <= from
  }

  // Twice the area between p and the line, which is its distance times the line's length.
  function Cross(start: Point, end: Point, p: Point): int {
    (p.y - start.y) * (end.x - start.x) - (p.x - start.x) * (end.y - start.y)
  }

  lemma CrossOfSigned(sx: int, sy: int, a: int, b: int, d: int, h: int)
    requires (sx == 1 || sx == -1) && (sy == 1 || sy == -1)
    ensures (sy * b) * (sx * d) - (sx * a) * (sy * h) == sx * sy * (d * b - h * a)
  {
    assert (sy * b) * (sx * d) == sx * sy * (d * b) by { Rearranged(sy, b, sx, d); }
    assert (sx * a) * (sy * h) == sx * sy * (h * a) by { Rearranged(sx, a, sy, h); }
  }

  lemma Rearranged(x: int, m: int, y: int, n: int)
    ensures (x * m) * (y * n) == x * y * (n * m) && (x * m) * (y * n) == y * x * (n * m)
  {}

  /** In the picture's own coordinates, whichever way the line runs: a plotted pixel lies between the
      end points, the k-th is k columns, or rows where there are more of them, from the start, and it
      is within half a pixel of the straight line. */
  lemma PlottedIsOnLine(start: Point, end: Point, k: nat, p: Point)
    requires Plotted(start, end, k, p) && k <= Max(Span(start.x, end.x), Span(start.y, end.y))
    ensures Between(p.x, start.x, end.x) && Between(p.y, start.y, end.y)
    ensures if Span(start.x, end.x) >= Span(start.y, end.y) then Span(start.x, p.x) == k else Span(start.y, p.y) == k
    ensures -(Max(Span(start.x, end.x), Span(start.y, end.y)) as int) <= 2 * Cross(start, end, p)
            <= Max(Span(start.x, end.x), Span(start.y, end.y))
  {
    hide Ideal, Offset, Cross;
    var d, h := Span(start.x, end.x), Span(start.y, end.y);
    var s := Ideal(d, h, k);
    IdealMajor(d, h, k);
    IdealIsWithinHalfAPixel(d, h, k);
    CrossIsOffset(start, end, s);
  }

  lemma CrossIsOffset(start: Point, end: Point, s: Steps)
    requires s.a <= Span(start.x, end.x) && s.b <= Span(start.y, end.y)
    ensures var v := Offset(Span(start.x, end.x), Span(start.y, end.y), s);
            var c := Cross(start, end, PixelAt(start, end, s));
            c == v || c == -v
  {
    var p, d, h := PixelAt(start, end, s), Span(start.x, end.x), Span(start.y, end.y);
    var sx, sy := if start.x < end.x then 1 else -1, if start.y < end.y then 1 else -1;
    assert p.x - start.x == sx * s.a && p.y - start.y == sy * s.b;
    assert end.x - start.x == sx * d && end.y - start.y == sy * h;
    CrossOfSigned(sx, sy, s.a, s.b, d, h);
  }

  // After k turns the loop is at p, with the error term of the k-th cursor.
  ghost predicate Drawing(start: Point, end: Point, k: nat, p: Point, error: int) {
    var d, h := Span(start.x, end.x), Span(start.y, end.y);
    k <= Max(d, h) && Plotted(start, end, k, p) && error == CursorAt(d, h, k).error
  }

  predicate Drawable(start: Point, end: Point) {
    Span(start.x, end.x) <= SAFE_SPAN && Span(start.y, end.y) <= SAFE_SPAN
  }

  lemma DrawingStarts(start: Point, end: Point)
    requires Drawable(start, end)
    ensures var d: int, h: int := Span(start.x, end.x), Span(start.y, end.y);
            I16(d) == d && I16(-h) == -h && Drawing(start, end, 0, start, I16(d - h))
  {
    hide I16;
    var d, h := Span(start.x, end.x), Span(start.y, end.y);
    I16Fits(d);
    I16Fits(-(h as int));
    IdealStarts(d, h);
  }

  lemma DrawingEnds(start: Point, end: Point, k: nat, p: Point, error: int)
    requires Drawing(start, end, k, p, error)
    ensures p == end <==> k == Max(Span(start.x, end.x), Span(start.y, end.y))
  {
    hide Ideal, CursorAt;
    IdealReachesEnd(Span(start.x, end.x), Span(start.y, end.y), k);
  }

  // One turn of the loop.
  lemma DrawingSteps(start: Point, end: Point, k: nat, p: Point, error: int)
    requires Drawable(start, end) && Drawing(start, end, k, p, error) && p != end
    ensures var d: int, h: int := Span(start.x, end.x), Span(start.y, end.y);
            var errorX2 := I16(error * 2);
            var across, down := errorX2 >= -h, errorX2 <= d;
            var x: int := if !across then p.x else if start.x < end.x then p.x + 1 else p.x - 1;
            var y: int := if !down then p.y else if start.y < end.y then p.y + 1 else p.y - 1;
            var moved := if across then I16(error - h) else error;
            && x >= 0 && y >= 0
            && Drawing(start, end, k + 1, Point(x, y), if down then I16(moved + d) else moved)
  {
    hide I16, Round, Offset, Near, Ideal;
    var d, h := Span(start.x, end.x), Span(start.y, end.y);
    DrawingEnds(start, end, k, p, error);
    CursorFollows(d, h, k);
    CursorFollows(d, h, k + 1);
    IdealReachesEnd(d, h, k);
    IdealReachesEnd(d, h, k + 1);
    assert CursorAt(d, h, k + 1) == Advance(d, h, CursorAt(d, h, k));
  }

  /** Plots exactly Max(d, h) + 1 pixels: the ideal line's points in order, from start to end. */
  method DrawLine(start: Point, end: Point) returns (pixels: seq<Point>)
    requires start.x < 0x1_0000 && start.y < 0x1_0000 && end.x < 0x1_0000 && end.y < 0x1_0000
    requires Span(start.x, end.x) <= SAFE_SPAN && Span(start.y, end.y) <= SAFE_SPAN
    ensures var d, h := Span(start.x, end.x), Span(start.y, end.y);
            && |pixels| == Max(d, h) + 1
            && (forall k: nat :: k < |pixels| ==> Plotted(start, end, k, pixels[k]))
            && pixels[0] == start && pixels[Max(d, h)] == end
  {
    hide I16, CursorAt, Plotted;
    ghost var last := Max(Span(start.x, end.x), Span(start.y, end.y));
    DrawingStarts(start, end);
    var deltaX: int := I16(Span(start.x, end.x));
    var deltaY: int := I16(-(Span(start.y, end.y) as int));
    var signX := if start.x < end.x then 1 else -1;
    var signY := if start.y < end.y then 1 else -1;
    var error := I16(deltaX + deltaY);
    var x: int, y: int := start.x, start.y;
    ghost var k: nat := 0;
    pixels := [];
    while true
      invariant x >= 0 && y >= 0 && |pixels| == k && Drawing(start, end, k, Point(x, y), error)
      invariant k > 0 ==> pixels[0] == start
      invariant k == 0 ==> Point(x, y) == start
      invariant forall j: nat :: j < k ==> Plotted(start, end, j, pixels[j])
      decreases last - k
    {
      pixels := pixels + [Point(x, y)];
      DrawingEnds(start, end, k, Point(x, y), error);
      if x == end.x && y == end.y { break; }
      DrawingSteps(start, end, k, Point(x, y), error);
      var errorX2 := I16(error * 2);
      if errorX2 >= deltaY {
        error := I16(error + deltaY);
        x := x + signX;
      }
      if errorX2 <= deltaX {
        error := I16(error + deltaX);
        y := y + signY;
      }
      k := k + 1;
    }
  }

  lemma IdealStarts(d: nat, h: nat)
    ensures Ideal(d, h, 0) == Steps(0, 0)
  {
    if d >= h && d > 0 { RoundExact(0, d); } else if h > 0 { RoundExact(0, h); }
  }
}
