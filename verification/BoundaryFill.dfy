/** The recursive flood fill: it paints exactly the 4-connected component of drawable pixels that
    contains the seed. */
module BoundaryFill {
  import opened Raster

  // ---------- Pixels ----------

  type Byte = b: nat | b < 256

  // (uint8_t)(color >> t*8)
  function ByteOf(color: nat, t: nat): Byte {
    if t == 0 then color % 256 else ByteOf(color / 256, t - 1)
  }

  type Pixel = seq<Byte>

  function Colored(color: nat, bytes: nat): Pixel {
    seq(bytes, t requires 0 <= t => ByteOf(color, t))
  }

  // Some byte is neither the fill color's nor the boundary color's.
  predicate Drawable(p: Pixel, fill: nat, boundary: nat) {
    exists t: nat :: t < |p| && p[t] != ByteOf(fill, t) && p[t] != ByteOf(boundary, t)
  }

  // The number whose bytes these are, the least significant first.
  function LittleEndian(p: Pixel): nat {
    if p == [] then 0 else p[0] + 256 * LittleEndian(p[1..])
  }

  // A color of at most that many bytes.
  predicate Fits(color: nat, bytes: nat) {
    if bytes == 0 then color == 0 else Fits(color / 256, bytes - 1)
  }

  /** The bytes of a pixel are those of its color, in order. */
  lemma {:induction false} ColoredReadsBack(color: nat, bytes: nat)
    requires Fits(color, bytes)
    ensures LittleEndian(Colored(color, bytes)) == color
  {
    if bytes > 0 {
      assert Colored(color, bytes)[1..] == Colored(color / 256, bytes - 1);
      ColoredReadsBack(color / 256, bytes - 1);
    }
  }

  // Both colors stop the fill.
  lemma ColorsStopTheFill(fill: nat, boundary: nat, bytes: nat)
    ensures !Drawable(Colored(fill, bytes), fill, boundary)
    ensures !Drawable(Colored(boundary, bytes), fill, boundary)
  {}

  // The two colors are the same but for one byte at most.
  predicate DifferInOneByte(fill: nat, boundary: nat, bytes: nat) {
    forall s: nat, t: nat ::
      s < bytes && t < bytes && ByteOf(fill, s) != ByteOf(boundary, s) && ByteOf(fill, t) != ByteOf(boundary, t) ==> s == t
  }

  predicate IsColored(p: Pixel, color: nat) {
    p == Colored(color, |p|)
  }

  // A pixel of either color, or one mixed from the bytes of both, is not drawn; any other is.
  lemma DrawableUnlessMixed(p: Pixel, fill: nat, boundary: nat)
    requires DifferInOneByte(fill, boundary, |p|)
    ensures Drawable(p, fill, boundary) <==> !IsColored(p, fill) && !IsColored(p, boundary)
  {
    ColorsStopTheFill(fill, boundary, |p|);
    var f, b := Colored(fill, |p|), Colored(boundary, |p|);
    if p != f && p != b {
      var s: nat :| s < |p| && p[s] != f[s];
      var t: nat :| t < |p| && p[t] != b[t];
      assert p[s] != ByteOf(fill, s) && p[t] != ByteOf(boundary, t);
    }
  }

  lemma MixedPixelIsNotDrawn(fill: nat, boundary: nat, bytes: nat) returns (p: Pixel)
    requires !DifferInOneByte(fill, boundary, bytes)
    ensures |p| == bytes && !IsColored(p, fill) && !IsColored(p, boundary) && !Drawable(p, fill, boundary)
  {
    var s: nat, t: nat :| s < bytes && t < bytes && ByteOf(fill, s) != ByteOf(boundary, s)
                          && ByteOf(fill, t) != ByteOf(boundary, t) && s != t;
    p := Colored(fill, bytes)[s := ByteOf(boundary, s)];
    assert p[s] != Colored(fill, bytes)[s] && p[t] != Colored(boundary, bytes)[t];
  }

  /** The fill draws over every pixel that has neither the fill's color nor the boundary's exactly
      when the two colors differ in one byte at most: a pixel mixed from the bytes of both stops it. */
  lemma NeitherColorIsDrawableIff(fill: nat, boundary: nat, bytes: nat)
    ensures (forall p: Pixel :: |p| == bytes && !IsColored(p, fill) && !IsColored(p, boundary)
               ==> Drawable(p, fill, boundary))
            <==> DifferInOneByte(fill, boundary, bytes)
  {
    hide Drawable, DifferInOneByte, IsColored;
    if DifferInOneByte(fill, boundary, bytes) {
      forall p: Pixel | |p| == bytes && !IsColored(p, fill) && !IsColored(p, boundary)
        ensures Drawable(p, fill, boundary)
      {
        DrawableUnlessMixed(p, fill, boundary);
      }
    } else {
      var p := MixedPixelIsNotDrawn(fill, boundary, bytes);
    }
  }

  // ---------- Components ----------

  predicate Adjacent(p: Point, q: Point) {
    || (p.x == q.x && (p.y == q.y + 1 || q.y == p.y + 1))
    || (p.y == q.y && (p.x == q.x + 1 || q.x == p.x + 1))
  }

  // A walk inside `open` from its first to its last point.
  predicate Walk(open: set<Point>, path: seq<Point>) {
    && path != []
    && (forall i :: 0 <= i < |path| ==> path[i] in open)
    && (forall i :: 0 < i < |path| ==> Adjacent(path[i - 1], path[i]))
  }

  ghost predicate Connected(open: set<Point>, p: Point, q: Point) {
    exists path :: Walk(open, path) && path[0] == p && path[|path| - 1] == q
  }

  ghost function Component(open: set<Point>, seed: Point): set<Point> {
    set p | p in open && Connected(open, seed, p)
  }

  ghost predicate ClosedIn(open: set<Point>, s: set<Point>, p: Point) {
    forall q :: q in open && Adjacent(p, q) ==> q in s
  }

  lemma ComponentHasSeed(open: set<Point>, seed: Point)
    ensures seed in Component(open, seed) <==> seed in open
    ensures seed !in open ==> Component(open, seed) == {}
  {
    if seed in open { assert Walk(open, [seed]); }
  }

  lemma ComponentIsClosed(open: set<Point>, seed: Point, p: Point)
    requires p in Component(open, seed)
    ensures ClosedIn(open, Component(open, seed), p)
  {
    var path :| Walk(open, path) && path[0] == seed && path[|path| - 1] == p;
    forall q | q in open && Adjacent(p, q) ensures q in Component(open, seed) {
      var longer := path + [q];
      assert Walk(open, longer) && longer[0] == seed && longer[|longer| - 1] == q;
    }
  }

  // A set that holds the seed and is closed holds every walk from the seed.
  lemma {:induction false} ClosedSetHoldsWalk(open: set<Point>, s: set<Point>, path: seq<Point>)
    requires Walk(open, path) && path[0] in s && forall p :: p in s ==> ClosedIn(open, s, p)
    ensures path[|path| - 1] in s
    decreases path
  {
    if |path| == 1 {
    } else {
      var front := path[..|path| - 1];
      assert Walk(open, front);
      ClosedSetHoldsWalk(open, s, front);
      assert Adjacent(front[|front| - 1], path[|path| - 1]);
    }
  }

  lemma ComponentIsLeast(open: set<Point>, seed: Point, s: set<Point>)
    requires seed in open ==> seed in s
    requires forall p :: p in s ==> ClosedIn(open, s, p)
    ensures Component(open, seed) <= s
  {
    forall q | q in Component(open, seed) ensures q in s {
      var path :| Walk(open, path) && path[0] == seed && path[|path| - 1] == q;
      ClosedSetHoldsWalk(open, s, path);
    }
  }

  // The component of a point inside a component, of fewer pixels, stays inside it.
  lemma ComponentInside(open: set<Point>, seed: Point, fewer: set<Point>, p: Point)
    requires fewer <= open && (p in fewer ==> p in Component(open, seed))
    ensures Component(fewer, p) <= Component(open, seed)
  {
    var s := Component(fewer, p) * Component(open, seed);
    ComponentHasSeed(fewer, p);
    forall q | q in s ensures ClosedIn(fewer, s, q) {
      ComponentIsClosed(fewer, p, q);
      ComponentIsClosed(open, seed, q);
    }
    ComponentIsLeast(fewer, p, s);
  }

  // What the fill has painted: inside the component, holding the seed, and closed but perhaps
  // around the seed itself.
  ghost predicate Partial(open: set<Point>, seed: Point, painted: set<Point>) {
    && seed in painted && painted <= Component(open, seed)
    && forall p :: p in painted && p != seed ==> ClosedIn(open, painted, p)
  }

  lemma PartialStarts(open: set<Point>, seed: Point)
    requires seed in open
    ensures Partial(open, seed, {seed})
  {
    ComponentHasSeed(open, seed);
  }

  // One recursive call, on a neighbor of the seed, adds that neighbor's component of what is left.
  lemma PartialExtends(open: set<Point>, seed: Point, painted: set<Point>, n: Point)
    requires seed in open && Partial(open, seed, painted) && Adjacent(seed, n)
    ensures Component(open - painted, n) <= Component(open, seed)
    ensures var more := painted + Component(open - painted, n);
            Partial(open, seed, more) && (n in open ==> n in more)
  {
    ComponentHasSeed(open, seed);
    ComponentIsClosed(open, seed, seed);
    ComponentInside(open, seed, open - painted, n);
    ComponentHasSeed(open - painted, n);
    var added := Component(open - painted, n);
    forall p | p in added ensures ClosedIn(open, painted + added, p) {
      ComponentIsClosed(open - painted, n, p);
    }
  }

  // With all four neighbors dealt with, the fill is complete.
  lemma PartialCompletes(open: set<Point>, seed: Point, painted: set<Point>)
    requires seed in open && Partial(open, seed, painted) && ClosedIn(open, painted, seed)
    ensures painted == Component(open, seed)
  {
    ComponentIsLeast(open, seed, painted);
  }

  // ---------- Screens ----------

  type Screen = seq<seq<Pixel>>

  predicate Sized(s: Screen, width: nat, height: nat, bytes: nat) {
    && |s| == height
    && (forall y :: 0 <= y < height ==> |s[y]| == width)
    && (forall x, y :: 0 <= y < height && 0 <= x < width ==> |s[y][x]| == bytes)
  }

  ghost function Open(s: Screen, width: nat, height: nat, bytes: nat, fill: nat, boundary: nat): set<Point>
    requires Sized(s, width, height, bytes)
  {
    set x: nat, y: nat | x < width && y < height && Drawable(s[y][x], fill, boundary) :: Point(x, y)
  }

  // `after` is `before` with exactly the points of `painted` colored.
  ghost predicate Painted(
      before: Screen, after: Screen, width: nat, height: nat, bytes: nat, painted: set<Point>, fill: nat)
    requires Sized(before, width, height, bytes)
  {
    && Sized(after, width, height, bytes)
    && forall x: nat, y: nat :: x < width && y < height ==>
         after[y][x] == if Point(x, y) in painted then Colored(fill, bytes) else before[y][x]
  }

  lemma PaintingCloses(
      before: Screen, after: Screen, width: nat, height: nat, bytes: nat, painted: set<Point>, fill: nat, boundary: nat)
    requires Sized(before, width, height, bytes) && Painted(before, after, width, height, bytes, painted, fill)
    ensures Open(after, width, height, bytes, fill, boundary)
            == Open(before, width, height, bytes, fill, boundary) - painted
  {
    ColorsStopTheFill(fill, boundary, bytes);
  }

  lemma PaintingComposes(
      s0: Screen, s1: Screen, s2: Screen, width: nat, height: nat, bytes: nat, p: set<Point>, q: set<Point>, fill: nat)
    requires Sized(s0, width, height, bytes) && Painted(s0, s1, width, height, bytes, p, fill)
    requires Painted(s1, s2, width, height, bytes, q, fill)
    ensures Painted(s0, s2, width, height, bytes, p + q, fill)
  {}

  // What a fill that paints the seed's component leaves: `painted` is all that was painted.
  ghost predicate Filled(
      before: Screen, after: Screen, width: nat, height: nat, bytes: nat, seed: Point, fill: nat, boundary: nat, painted: set<Point>)
    requires Sized(before, width, height, bytes)
  {
    && painted == Component(Open(before, width, height, bytes, fill, boundary), seed)
    && Painted(before, after, width, height, bytes, painted, fill)
  }

  /** The boundary holds: a pixel of the boundary's color is never painted and keeps its bytes, and
      next to a painted pixel lie only painted ones and ones that have the fill's or the boundary's
      bytes. */
  lemma BoundaryHolds(
      before: Screen, after: Screen, width: nat, height: nat, bytes: nat, seed: Point, fill: nat, boundary: nat,
      painted: set<Point>, x: nat, y: nat)
    requires Sized(before, width, height, bytes) && x < width && y < height
    requires Filled(before, after, width, height, bytes, seed, fill, boundary, painted)
    ensures IsColored(before[y][x], boundary) ==> Point(x, y) !in painted && after[y][x] == before[y][x]
    ensures Point(x, y) !in painted && (exists p :: p in painted && Adjacent(p, Point(x, y))) ==>
              forall t: nat :: t < bytes ==> before[y][x][t] == ByteOf(fill, t) || before[y][x][t] == ByteOf(boundary, t)
    ensures Point(x, y) in painted ==> IsColored(after[y][x], fill)
  {
    hide Connected, Walk, Drawable;
    var open := Open(before, width, height, bytes, fill, boundary);
    ColorsStopTheFill(fill, boundary, bytes);
    if Point(x, y) !in painted && exists p :: p in painted && Adjacent(p, Point(x, y)) {
      var p :| p in painted && Adjacent(p, Point(x, y));
      ComponentIsClosed(open, seed, p);
      assert Point(x, y) !in open;
      NotDrawableIsMixed(before[y][x], fill, boundary);
    }
  }

  lemma NotDrawableIsMixed(p: Pixel, fill: nat, boundary: nat)
    ensures !Drawable(p, fill, boundary) <==>
              forall t: nat :: t < |p| ==> p[t] == ByteOf(fill, t) || p[t] == ByteOf(boundary, t)
  {}

  // ---------- boundary_fill ----------

  class Canvas {
    const width: nat
    const height: nat
    const bytesPerPixel: nat
    const rows: array<seq<Pixel>>

    ghost predicate Valid()
      reads rows
    {
      width <= 0x1_0000 && height <= 0x1_0000 && Sized(rows[..], width, height, bytesPerPixel)
    }

    ghost function OpenPixels(fill: nat, boundary: nat): set<Point>
      requires Valid()
      reads rows
    {
      Open(rows[..], width, height, bytesPerPixel, fill, boundary)
    }

    predicate Interior(p: Point) {
      0 < p.x && p.x + 1 < width && 0 < p.y && p.y + 1 < height
    }

    method IsDrawable(x: nat, y: nat, fill: nat, boundary: nat) returns (draw: bool)
      requires Valid() && x < width && y < height
      ensures draw <==> Point(x, y) in OpenPixels(fill, boundary)
    {
      var pixel := rows[y][x];
      var temp := 0;
      while temp < bytesPerPixel
        invariant temp <= bytesPerPixel
        invariant forall t: nat :: t < temp ==> pixel[t] == ByteOf(fill, t) || pixel[t] == ByteOf(boundary, t)
      {
        if pixel[temp] != ByteOf(fill, temp) && pixel[temp] != ByteOf(boundary, temp) { return true; }
        temp := temp + 1;
      }
      return false;
    }

    method Paint(x: nat, y: nat, fill: nat)
      requires Valid() && x < width && y < height
      modifies rows
      ensures Valid()
      ensures Painted(old(rows[..]), rows[..], width, height, bytesPerPixel, {Point(x, y)}, fill)
    {
      var pixel := rows[y][x];
      var temp := 0;
      while temp < bytesPerPixel
        invariant temp <= bytesPerPixel && |pixel| == bytesPerPixel
        invariant forall t: nat :: t < temp ==> pixel[t] == ByteOf(fill, t)
      {
        pixel := pixel[temp := ByteOf(fill, temp)];
        temp := temp + 1;
      }
      assert pixel == Colored(fill, bytesPerPixel);
      var row: seq<Pixel> := rows[y][x := pixel];
      rows[y] := row;
    }

    // The fill of `screen` from `seed` has painted `painted` so far.
    ghost predicate Filling(screen: Screen, seed: Point, painted: set<Point>, fill: nat, boundary: nat)
      reads rows
    {
      && Valid() && Sized(screen, width, height, bytesPerPixel)
      && var open := Open(screen, width, height, bytesPerPixel, fill, boundary);
      && seed in open && (forall p :: p in Component(open, seed) ==> Interior(p))
      && Partial(open, seed, painted)
      && Painted(screen, rows[..], width, height, bytesPerPixel, painted, fill)
      && OpenPixels(fill, boundary) == open - painted
    }

    /** For a seed whose component does not touch the edge of the screen, the fill ends and paints
        exactly that component; every other pixel keeps its bytes. */
    method Fill(x: nat, y: nat, fill: nat, boundary: nat)
      requires Valid() && x < width && y < height
      requires forall p :: p in Component(OpenPixels(fill, boundary), Point(x, y)) ==> Interior(p)
      modifies rows
      ensures Valid()
      ensures Filled(old(rows[..]), rows[..], width, height, bytesPerPixel, Point(x, y), fill, boundary,
                     Component(old(OpenPixels(fill, boundary)), Point(x, y)))
      decreases OpenPixels(fill, boundary), 0
    {
      hide Component, Partial, Painted, Walk, Open, Drawable, Sized;
      ghost var open, seed, screen := OpenPixels(fill, boundary), Point(x, y), rows[..];
      ComponentHasSeed(open, seed);
      var draw := IsDrawable(x, y, fill, boundary);
      if draw {
        assert Interior(seed);
        PaintSeed(x, y, fill, boundary);
        ghost var p0 := {seed};
        ghost var p1 := FillNeighbor(U16(x + 1), y, fill, boundary, seed, p0, screen);
        ghost var p2 := FillNeighbor(U16(x - 1), y, fill, boundary, seed, p1, screen);
        ghost var p3 := FillNeighbor(x, U16(y + 1), fill, boundary, seed, p2, screen);
        ghost var p4 := FillNeighbor(x, U16(y - 1), fill, boundary, seed, p3, screen);
        PartialCompletes(open, seed, p4);
      } else {
        NothingPainted(screen, width, height, bytesPerPixel, fill);
      }
    }

    // The seed is painted before any neighbor is visited.
    method PaintSeed(x: nat, y: nat, fill: nat, boundary: nat)
      requires Valid() && x < width && y < height && Point(x, y) in OpenPixels(fill, boundary)
      requires forall p :: p in Component(OpenPixels(fill, boundary), Point(x, y)) ==> Interior(p)
      modifies rows
      ensures Filling(old(rows[..]), Point(x, y), {Point(x, y)}, fill, boundary)
    {
      hide Component, Partial, Painted, Walk, Open, Drawable;
      ghost var open, seed, screen := OpenPixels(fill, boundary), Point(x, y), rows[..];
      Paint(x, y, fill);
      PartialStarts(open, seed);
      PaintingCloses(screen, rows[..], width, height, bytesPerPixel, {seed}, fill, boundary);
    }

    // A recursive call of the fill, on a neighbor of the seed.
    method FillNeighbor(x: nat, y: nat, fill: nat, boundary: nat,
                        ghost seed: Point, ghost painted: set<Point>, ghost screen: Screen)
      returns (ghost more: set<Point>)
      requires Filling(screen, seed, painted, fill, boundary)
      requires x < width && y < height && Adjacent(seed, Point(x, y))
      modifies rows
      ensures Filling(screen, seed, more, fill, boundary) && painted <= more
      ensures Point(x, y) in Open(screen, width, height, bytesPerPixel, fill, boundary) ==> Point(x, y) in more
      decreases OpenPixels(fill, boundary), 1
    {
      hide Component, Partial, Painted, Walk, Open, Drawable, Sized;
      ghost var open := Open(screen, width, height, bytesPerPixel, fill, boundary);
      ghost var before, added := rows[..], Component(open - painted, Point(x, y));
      PartialExtends(open, seed, painted, Point(x, y));
      Fill(x, y, fill, boundary);
      more := painted + added;
      PaintingComposes(screen, before, rows[..], width, height, bytesPerPixel, painted, added, fill);
      PaintingCloses(screen, rows[..], width, height, bytesPerPixel, more, fill, boundary);
    }
  }

  lemma NothingPainted(s: Screen, width: nat, height: nat, bytes: nat, fill: nat)
    requires Sized(s, width, height, bytes)
    ensures Painted(s, s, width, height, bytes, {}, fill)
  {}
}
