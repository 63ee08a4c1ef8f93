/** What is seen on the display, pixel by pixel, after each drawing routine. */
module Screen {
  import opened MachineInts
  import opened Canvas
  import opened Lines
  import opened Display
  import Circles

  /** A pixel as `readPixel` answers it. */
  ghost function Seen(fb: seq<bv16>, u: int, v: int): bv16
    requires |fb| == 240 * 320
  {
    if 0 <= u < 240 && 0 <= v < 320 then fb[v * 240 + u] else 0
  }

  ghost predicate OnScreen(u: int, v: int) { 0 <= u < 240 && 0 <= v < 320 }

  lemma PaintedIsSeen(fb: seq<bv16>, dots: iset<Point>, color: bv16, u: int, v: int)
    requires |fb| == 240 * 320
    ensures Seen(Painted(fb, dots, color), u, v)
         == if OnScreen(u, v) && Point(u, v) in dots then color else Seen(fb, u, v)
  {
    hide Painted;
    if OnScreen(u, v) { PaintedAt(fb, dots, color, u, v); }
  }

  /** After `fillRect`. */
  lemma RectIsSeen(fb: seq<bv16>, x: int, y: int, w: int, h: int, color: bv16, u: int, v: int)
    requires |fb| == 240 * 320
    ensures Seen(Painted(fb, Box(x, y, w, h), color), u, v)
         == if OnScreen(u, v) && x <= u < x + w && y <= v < y + h then color else Seen(fb, u, v)
  {
    hide Painted, Seen;
    PaintedIsSeen(fb, Box(x, y, w, h), color, u, v);
  }

  /** After `drawRect` of a rectangle that is not empty. */
  lemma FrameIsSeen(fb: seq<bv16>, x: int, y: int, w: int, h: int, color: bv16, u: int, v: int)
    requires |fb| == 240 * 320 && w >= 1 && h >= 1
    ensures Seen(Painted(fb, Sides(x, y, x + w - 1, y + h - 1), color), u, v)
         == if && OnScreen(u, v) && x <= u < x + w && y <= v < y + h
               && (u == x || u == x + w - 1 || v == y || v == y + h - 1)
            then color else Seen(fb, u, v)
  {
    hide Painted, Seen, Sides;
    SidesOfRect(x, y, x + w - 1, y + h - 1);
    RectIsFrame(x, y, w, h);
    PaintedIsSeen(fb, Sides(x, y, x + w - 1, y + h - 1), color, u, v);
  }

  /** After `drawLine`: the dots of the line. */
  lemma LineIsSeen(fb: seq<bv16>, l: Line, color: bv16, u: int, v: int)
    requires |fb| == 240 * 320
    ensures Seen(Painted(fb, AllDots(l), color), u, v)
         == if OnScreen(u, v) && exists k: nat :: k <= l.Length() && Dot(l, k) == Point(u, v)
            then color else Seen(fb, u, v)
  {
    hide Painted, Seen;
    PaintedIsSeen(fb, AllDots(l), color, u, v);
    assert Point(u, v) in AllDots(l) <==> exists k: nat :: k < l.Length() + 1 && Dot(l, k) == Point(u, v);
  }

  /** After `fillCircle`, where no coordinate wraps. */
  lemma DiscIsSeen(fb: seq<bv16>, x0: int16, y0: int16, r: nat, color: bv16, u: int, v: int)
    requires |fb| == 240 * 320
    requires FitsI16(x0 - r) && FitsI16(x0 + r) && FitsI16(y0 - r) && FitsI16(y0 + r)
    ensures Seen(Painted(fb, Stamp(x0, y0, Circles.Disc(r)), color), u, v)
         == if OnScreen(u, v) && (u - x0) * (u - x0) + (v - y0) * (v - y0) <= r * r then color else Seen(fb, u, v)
  {
    hide Painted, Seen, Stamp;
    PaintedIsSeen(fb, Stamp(x0, y0, Circles.Disc(r)), color, u, v);
    forall p | p in Circles.Disc(r) ensures FitsI16(x0 + p.x) && FitsI16(y0 + p.y) { InDiscIsNear(r, p); }
    StampTranslates(x0, y0, Circles.Disc(r), Point(u, v));
  }

  /** Half a pixel from the circle, measured along the larger coordinate. */
  predicate WithinHalf(a: nat, b: nat, r: nat) {
    if a < b then -(b as int) <= a * a + b * b - r * r < b else -(a as int) <= a * a + b * b - r * r < a
  }

  /** After `drawCircle` with a radius that fits, where no coordinate wraps. */
  lemma CircleIsSeen(fb: seq<bv16>, x0: int16, y0: int16, r: nat, color: bv16, u: int, v: int)
    requires |fb| == 240 * 320 && r > 0
    requires FitsI16(x0 - r) && FitsI16(x0 + r) && FitsI16(y0 - r) && FitsI16(y0 + r)
    ensures Seen(Painted(fb, Stamp(x0, y0, Circles.Circle(r)), color), u, v)
         == if OnScreen(u, v) && WithinHalf(Abs(u - x0), Abs(v - y0), r) then color else Seen(fb, u, v)
  {
    hide Painted, Seen, Stamp;
    PaintedIsSeen(fb, Stamp(x0, y0, Circles.Circle(r)), color, u, v);
    forall p | p in Circles.Circle(r) ensures FitsI16(x0 + p.x) && FitsI16(y0 + p.y) { OnCircleIsNear(r, p); }
    StampTranslates(x0, y0, Circles.Circle(r), Point(u, v));
    var p := Point(u - x0, v - y0);
    assert Circles.OnCircle(r, p) <==> Circles.Nearest(r, Circles.Low(p), Circles.High(p));
  }

  lemma OnCircleIsNear(r: nat, p: Point)
    requires r > 0 && Circles.OnCircle(r, p)
    ensures Abs(p.x) <= r && Abs(p.y) <= r
  {
    if Circles.High(p) > r { Circles.SquaresGrow(r, Circles.High(p)); }
  }
}
