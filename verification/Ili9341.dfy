/** Points and the frame buffer of the ILI9341 display. */
module Canvas {
  datatype Point = Point(x: int, y: int)

  const WIDTH := 240
  const HEIGHT := 320

  /** A row-major frame buffer after all the dots that lie on it took the colour. */
  ghost function Painted(fb: seq<bv16>, dots: iset<Point>, color: bv16): (r: seq<bv16>)
    ensures |r| == |fb|
  {
    seq(|fb|, i requires 0 <= i < |fb| => if Point(i % WIDTH, i / WIDTH) in dots then color else fb[i])
  }

  /** Cell by cell: the dots on the screen have the colour, every other cell is as it was. */
  lemma PaintedAt(fb: seq<bv16>, dots: iset<Point>, color: bv16, x: int, y: int)
    requires |fb| == 240 * 320 && 0 <= x < 240 && 0 <= y < 320
    ensures Painted(fb, dots, color)[y * 240 + x] == if Point(x, y) in dots then color else fb[y * 240 + x]
  {
    var i := y * 240 + x;
    assert i / WIDTH == y && i % WIDTH == x;
  }

  lemma PaintNothing(fb: seq<bv16>, color: bv16)
    ensures Painted(fb, iset{}, color) == fb
  {
  }

  lemma PaintMore(fb: seq<bv16>, a: iset<Point>, b: iset<Point>, color: bv16)
    ensures Painted(Painted(fb, a, color), b, color) == Painted(fb, a + b, color)
  {
  }
}

/**
 The geometry of a line, independent of how it is drawn: along the longer axis one
 unit a step, along the shorter axis the nearest integer, halves rounded up.
 */
module Lines {
  import opened MachineInts
  import opened Canvas

  datatype Line = Line(x0: int, y0: int, x1: int, y1: int) {
    function DX(): nat { Abs(x1 - x0) }
    function DY(): nat { Abs(y1 - y0) }
    function SX(): int { if x0 < x1 then 1 else -1 }
    function SY(): int { if y0 < y1 then 1 else -1 }
    function Length(): nat { if DX() >= DY() then DX() else DY() }
  }

  /** `k * minor / major` rounded to the nearest integer. */
  function Nearest(k: nat, minor: nat, major: nat): nat {
    if major == 0 then 0 else (2 * (k * minor) + major) / (2 * major)
  }

  /** How many unit steps along x the line has made after `k` steps. */
  function StepsX(l: Line, k: nat): nat {
    if l.DX() >= l.DY() then k else Nearest(k, l.DX(), l.DY())
  }

  function StepsY(l: Line, k: nat): nat {
    if l.DX() >= l.DY() then Nearest(k, l.DY(), l.DX()) else k
  }

  function Dot(l: Line, k: nat): Point {
    Point(l.x0 + l.SX() * StepsX(l, k), l.y0 + l.SY() * StepsY(l, k))
  }

  ghost function Dots(l: Line, n: nat): iset<Point> {
    iset k: nat | k < n :: Dot(l, k)
  }

  ghost function AllDots(l: Line): iset<Point> { Dots(l, l.Length() + 1) }

  /** Bresenham's error term after `k` steps. */
  function Err(l: Line, k: nat): int {
    (StepsY(l, k) + 1) * l.DX() - (StepsX(l, k) + 1) * l.DY()
  }

  // ---- Rounding -----------------------------------------------------------------

  lemma NearestBounds(k: nat, minor: nat, major: nat)
    requires major > 0
    ensures var r := Nearest(k, minor, major);
            2 * (r * major) <= 2 * (k * minor) + major < 2 * (r * major) + 2 * major
  {
    var n, d := 2 * (k * minor) + major, 2 * major;
    assert n == d * (n / d) + n % d;
    assert d * (n / d) == 2 * ((n / d) * major);
  }

  lemma TimesOrdered(a: nat, b: nat, m: nat)
    requires a <= b
    ensures a * m <= b * m
  {
  }

  lemma NearestUnique(k: nat, minor: nat, major: nat, r: nat)
    requires major > 0
    requires 2 * (r * major) <= 2 * (k * minor) + major < 2 * (r * major) + 2 * major
    ensures r == Nearest(k, minor, major)
  {
    var q := Nearest(k, minor, major);
    NearestBounds(k, minor, major);
    if r < q {
      TimesOrdered(r + 1, q, major);
    } else if q < r {
      TimesOrdered(q + 1, r, major);
    }
  }

  /** How far the next midpoint lies beyond the true line, in units of `major`. */
  function Excess(k: nat, minor: nat, major: nat): int {
    (Nearest(k, minor, major) + 1) * major - (k + 1) * minor
  }

  /** The rounded coordinate advances exactly when the midpoint has been reached. */
  lemma NearestStep(k: nat, minor: nat, major: nat)
    requires 0 < major && minor <= major
    ensures Nearest(k + 1, minor, major)
         == Nearest(k, minor, major) + if 2 * Excess(k, minor, major) <= major then 1 else 0
    ensures 2 * minor - 3 * major <= -2 * Excess(k, minor, major) <= minor
  {
    var r := Nearest(k, minor, major);
    NearestBounds(k, minor, major);
    assert (k + 1) * minor == k * minor + minor;
    assert (r + 1) * major == r * major + major;
    NearestUnique(k + 1, minor, major, if 2 * Excess(k, minor, major) <= major then r + 1 else r);
  }

  lemma NearestEnds(minor: nat, major: nat)
    requires minor <= major
    ensures Nearest(0, minor, major) == 0 && Nearest(major, minor, major) == minor
  {
    if major > 0 {
      NearestUnique(0, minor, major, 0);
      assert major * minor == minor * major;
      NearestUnique(major, minor, major, minor);
    }
  }

  // ---- What the error term decides ------------------------------------------------

  lemma ErrIsExcess(l: Line, k: nat)
    ensures l.DX() >= l.DY() ==> Err(l, k) == Excess(k, l.DY(), l.DX())
    ensures l.DX() < l.DY() ==> Err(l, k) == -Excess(k, l.DX(), l.DY())
  {
  }

  /** Twice the error term, compared with the two deltas, tells where the next dot lies. */
  lemma ErrDecides(l: Line, k: nat)
    requires k < l.Length()
    ensures StepsX(l, k + 1) == StepsX(l, k) + if 2 * Err(l, k) + l.DY() >= 0 then 1 else 0
    ensures StepsY(l, k + 1) == StepsY(l, k) + if 2 * Err(l, k) <= l.DX() then 1 else 0
  {
    ErrIsExcess(l, k);
    if l.DX() >= l.DY() { NearestStep(k, l.DY(), l.DX()); } else { NearestStep(k, l.DX(), l.DY()); }
  }

  /** The error term is at most one and a half times the longer delta. */
  lemma ErrBounds(l: Line, k: nat)
    ensures -3 * l.Length() <= 2 * Err(l, k) <= 3 * l.Length()
    ensures l.DX() >= l.DY() ==> 0 <= 2 * Err(l, k) + l.DY() && 2 * Err(l, k) <= 3 * l.DX() - 2 * l.DY()
    ensures l.DX() < l.DY() ==> 2 * l.DX() - 3 * l.DY() <= 2 * Err(l, k) <= l.DX()
  {
    ErrIsExcess(l, k);
    if l.Length() > 0 {
      if l.DX() >= l.DY() { NearestStep(k, l.DY(), l.DX()); } else { NearestStep(k, l.DX(), l.DY()); }
    }
  }

  /** Every dot is within half a unit of the true line. */
  lemma DotsAreClose(l: Line, k: nat)
    ensures 2 * Abs(StepsX(l, k) * l.DY() - StepsY(l, k) * l.DX()) <= l.Length()
  {
    if l.Length() > 0 {
      if l.DX() >= l.DY() { NearestBounds(k, l.DY(), l.DX()); } else { NearestBounds(k, l.DX(), l.DY()); }
    }
  }

  // ---- The dots of a line ---------------------------------------------------------

  /** Exactly: a dot half a unit off lies beyond the true line, not before it. */
  lemma HalvesGoUp(l: Line, k: nat)
    requires l.Length() > 0
    ensures l.DX() >= l.DY() ==> -(l.DX() as int) <= 2 * (k * l.DY() - StepsY(l, k) * l.DX()) < l.DX()
    ensures l.DX() < l.DY() ==> -(l.DY() as int) <= 2 * (k * l.DX() - StepsX(l, k) * l.DY()) < l.DY()
  {
    if l.DX() >= l.DY() { NearestBounds(k, l.DY(), l.DX()); } else { NearestBounds(k, l.DX(), l.DY()); }
  }

  /** A line starts and ends where it was asked to. */
  lemma LineEnds(l: Line)
    ensures Dot(l, 0) == Point(l.x0, l.y0) && Dot(l, l.Length()) == Point(l.x1, l.y1)
  {
    if l.DX() >= l.DY() { NearestEnds(l.DY(), l.DX()); } else { NearestEnds(l.DX(), l.DY()); }
  }

  /** Consecutive dots touch, and each advances by one along the longer axis. */
  lemma LineIsConnected(l: Line, k: nat)
    requires k < l.Length()
    ensures Abs(Dot(l, k + 1).x - Dot(l, k).x) <= 1 && Abs(Dot(l, k + 1).y - Dot(l, k).y) <= 1
    ensures if l.DX() >= l.DY() then Dot(l, k + 1).x == Dot(l, k).x + l.SX()
            else Dot(l, k + 1).y == Dot(l, k).y + l.SY()
  {
    ErrDecides(l, k);
    SignedStep(l.SX(), StepsX(l, k));
    SignedStep(l.SY(), StepsY(l, k));
  }

  lemma SignedStep(sign: int, n: int)
    ensures sign * (n + 1) == sign * n + sign
  {
  }

  /** No dot is visited twice, so a line has exactly `Length() + 1` of them. */
  lemma DotsAreDistinct(l: Line, i: nat, j: nat)
    requires i < j <= l.Length()
    ensures Dot(l, i) != Dot(l, j)
  {
  }

  /** The exit test of the loop succeeds at the last dot and at no other. */
  lemma ArrivesAtTheEnd(l: Line, k: nat)
    requires k <= l.Length()
    ensures Dot(l, k) == Point(l.x1, l.y1) <==> k == l.Length()
  {
    LineEnds(l);
    if k < l.Length() { DotsAreDistinct(l, k, l.Length()); }
  }

  lemma OneMoreDot(l: Line, k: nat)
    ensures Dots(l, k) + iset{Dot(l, k)} == Dots(l, k + 1)
  {
  }

  /** A line stays in the box its end points span. */
  lemma {:induction false} StepsStayInside(l: Line, k: nat)
    requires k <= l.Length()
    ensures StepsX(l, k) <= l.DX() && StepsY(l, k) <= l.DY()
    decreases l.Length() - k
  {
    if k == l.Length() {
      LineEnds(l);
      if l.DX() >= l.DY() { NearestEnds(l.DY(), l.DX()); } else { NearestEnds(l.DX(), l.DY()); }
    } else {
      StepsStayInside(l, k + 1);
      ErrDecides(l, k);
    }
  }

  lemma DotStaysInside(l: Line, k: nat)
    requires k <= l.Length()
    ensures l.x0 <= Dot(l, k).x <= l.x1 || l.x1 <= Dot(l, k).x <= l.x0
    ensures l.y0 <= Dot(l, k).y <= l.y1 || l.y1 <= Dot(l, k).y <= l.y0
  {
    StepsStayInside(l, k);
  }

  /** A line along an axis is the segment between its ends. */
  lemma LevelLine(l: Line)
    requires l.y0 == l.y1
    ensures AllDots(l) == iset p: Point | p.y == l.y0 && (l.x0 <= p.x <= l.x1 || l.x1 <= p.x <= l.x0)
  {
    forall k: nat | k <= l.Length() ensures Dot(l, k) == Point(l.x0 + l.SX() * k, l.y0) {
      StepsStayInside(l, k);
    }
    forall p: Point | p.y == l.y0 && (l.x0 <= p.x <= l.x1 || l.x1 <= p.x <= l.x0)
      ensures p in AllDots(l)
    {
      var k: nat := Abs(p.x - l.x0);
      assert Dot(l, k) == p;
    }
  }

  lemma PlumbLine(l: Line)
    requires l.x0 == l.x1
    ensures AllDots(l) == iset p: Point | p.x == l.x0 && (l.y0 <= p.y <= l.y1 || l.y1 <= p.y <= l.y0)
  {
    forall k: nat | k <= l.Length() ensures Dot(l, k) == Point(l.x0, l.y0 + l.SY() * k) {
      StepsStayInside(l, k);
    }
    forall p: Point | p.x == l.x0 && (l.y0 <= p.y <= l.y1 || l.y1 <= p.y <= l.y0)
      ensures p in AllDots(l)
    {
      var k: nat := Abs(p.y - l.y0);
      assert Dot(l, k) == p;
    }
  }
}

/**
 The loop of `drawLine` on `int16_t` variables, and when it draws the line.
 Everywhere else in this module `Line` has end points that are `int16_t` values.
 */
module LineLoop {
  import opened MachineInts
  import opened Canvas
  import opened Lines

  datatype LineState = LineState(x: int16, y: int16, err: int16)

  ghost predicate OnGrid(l: Line) {
    FitsI16(l.x0) && FitsI16(l.y0) && FitsI16(l.x1) && FitsI16(l.y1)
  }

  function Start(l: Line): LineState
    requires FitsI16(l.x0) && FitsI16(l.y0)
  {
    LineState(l.x0, l.y0, I16(I16(l.DX()) + I16(0 - l.DY())))
  }

  /** One turn of the loop that does not end it. */
  function Turn(dx: int16, dy: int16, sx: int, sy: int, s: LineState): LineState {
    var e2: int16 := I16(2 * s.err);
    var t := if e2 >= dy then LineState(I16(s.x + sx), s.y, I16(s.err + dy)) else s;
    if e2 <= dx then LineState(t.x, I16(t.y + sy), I16(t.err + dx)) else t
  }

  /** The same, as it is written. */
  method TurnOnce(dx: int16, dy: int16, sx: int, sy: int, x0: int16, y0: int16, err0: int16)
    returns (x: int16, y: int16, err: int16)
    ensures LineState(x, y, err) == Turn(dx, dy, sx, sy, LineState(x0, y0, err0))
  {
    x, y, err := x0, y0, err0;
    var e2: int := I16(2 * err);
    if e2 >= dy { err := I16(err as int + dy); x := I16(x as int + sx); }
    if e2 <= dx { err := I16(err as int + dx); y := I16(y as int + sy); }
  }

  function Step(l: Line, s: LineState): LineState {
    Turn(I16(l.DX()), I16(0 - l.DY()), l.SX(), l.SY(), s)
  }

  function Run(l: Line, k: nat): LineState
    requires FitsI16(l.x0) && FitsI16(l.y0)
  {
    if k == 0 then Start(l) else Step(l, Run(l, k - 1))
  }

  function At(s: LineState): Point { Point(s.x, s.y) }

  /** What the two tests of a turn say when its error term is kept in `int16_t`. */
  function GoesAcross(l: Line, e: int): bool { I16(2 * I16(e)) >= I16(0 - l.DY()) }
  function GoesAlong(l: Line, e: int): bool { I16(2 * I16(e)) <= I16(l.DX()) }

  /** At every turn along the line both tests come out as they would on unbounded integers. */
  ghost predicate TestsHold(l: Line) {
    forall k: nat :: k < l.Length() ==> TurnHolds(l, k)
  }

  ghost predicate TurnHolds(l: Line, k: nat) {
    && GoesAcross(l, Err(l, k)) == (2 * Err(l, k) + l.DY() >= 0)
    && GoesAlong(l, Err(l, k)) == (2 * Err(l, k) <= l.DX())
  }

  lemma WrapsAdd(a: int, b: int)
    ensures I16(I16(a) + b) == I16(a + b) && (FitsI16(a) ==> I16(a) == a)
  {
  }

  lemma Keeps(n: int)
    ensures FitsI16(n) ==> I16(n) == n
  {
  }

  /** Where the next dot lies, said in terms of the doubled error term. */
  lemma DotMoves(l: Line, k: nat)
    requires k < l.Length()
    ensures Dot(l, k + 1).x == Dot(l, k).x + if 2 * Err(l, k) + l.DY() >= 0 then l.SX() else 0
    ensures Dot(l, k + 1).y == Dot(l, k).y + if 2 * Err(l, k) <= l.DX() then l.SY() else 0
  {
    ErrDecides(l, k);
    SignedStep(l.SX(), StepsX(l, k));
    SignedStep(l.SY(), StepsY(l, k));
  }

  /** One turn, in terms of the error term it reads. */
  lemma StepMoves(l: Line, s: LineState, e: int)
    requires s.err == I16(e)
    ensures var t := Step(l, s);
      && t.x == (if GoesAcross(l, e) then I16(s.x + l.SX()) else s.x)
      && t.y == (if GoesAlong(l, e) then I16(s.y + l.SY()) else s.y)
      && t.err == I16(e - (if GoesAcross(l, e) then l.DY() else 0) + (if GoesAlong(l, e) then l.DX() else 0))
  {
    hide I16;
    var f := e - if GoesAcross(l, e) then l.DY() else 0;
    SumWraps(e, 0 - l.DY());
    SumWraps(f, l.DX());
  }

  lemma SumWraps(a: int, b: int)
    ensures I16(I16(a) + I16(b)) == I16(a + b)
  {
    WrapsAdd(b, I16(a));
    WrapsAdd(a, b);
    assert I16(a) + I16(b) == I16(b) + I16(a) && I16(a) + b == b + I16(a);
  }

  /** One turn whose tests hold makes the next dot of the line. */
  lemma StepFollows(l: Line, k: nat, s: LineState)
    requires OnGrid(l) && k < l.Length() && TurnHolds(l, k)
    requires At(s) == Dot(l, k) && s.err == I16(Err(l, k))
    ensures At(Step(l, s)) == Dot(l, k + 1) && Step(l, s).err == I16(Err(l, k + 1))
  {
    hide I16, Step;
    StepMoves(l, s, Err(l, k));
    DotMoves(l, k);
    ErrMoves(l, k);
    DotStaysInside(l, k + 1);
    Keeps(Dot(l, k + 1).x);
    Keeps(Dot(l, k + 1).y);
  }

  lemma ErrIsFlipped(l: Line, k: nat)
    ensures Err(l, k) == l.DX() * (StepsY(l, k) + 1) - l.DY() * (StepsX(l, k) + 1)
  {
  }

  lemma ErrMoves(l: Line, k: nat)
    requires k < l.Length()
    ensures Err(l, k + 1) == Err(l, k)
              - (if 2 * Err(l, k) + l.DY() >= 0 then l.DY() else 0)
              + (if 2 * Err(l, k) <= l.DX() then l.DX() else 0)
  {
    ErrDecides(l, k);
    SignedStep(l.DX(), StepsY(l, k) + 1);
    SignedStep(l.DY(), StepsX(l, k) + 1);
    ErrIsFlipped(l, k);
    ErrIsFlipped(l, k + 1);
  }

  lemma {:induction false} RunFollows(l: Line, k: nat)
    requires OnGrid(l) && k <= l.Length() && forall j: nat :: j < k ==> TurnHolds(l, j)
    ensures At(Run(l, k)) == Dot(l, k) && Run(l, k).err == I16(Err(l, k))
  {
    hide TurnHolds;
    if k == 0 {
      LineEnds(l);
      ErrAtStart(l);
      SumWraps(l.DX(), 0 - l.DY());
    } else {
      RunFollows(l, k - 1);
      StepFollows(l, k - 1, Run(l, k - 1));
    }
  }

  lemma ErrAtStart(l: Line)
    ensures Err(l, 0) == l.DX() - l.DY()
  {
    if l.DX() >= l.DY() { NearestEnds(l.DY(), l.DX()); } else { NearestEnds(l.DX(), l.DY()); }
    assert (0 + 1) * l.DX() == l.DX() && (0 + 1) * l.DY() == l.DY();
  }

  /** A test that comes out wrong sends the loop off the line at once. */
  lemma StepStrays(l: Line, k: nat, s: LineState)
    requires k < l.Length() && !TurnHolds(l, k)
    requires At(s) == Dot(l, k) && s.err == I16(Err(l, k))
    ensures At(Step(l, s)) != Dot(l, k + 1)
  {
    hide I16, Step;
    StepMoves(l, s, Err(l, k));
    DotMoves(l, k);
    OneAway(s.x);
    OneAway(s.y);
  }

  lemma OneAway(n: int16)
    ensures I16(n + 1) != n && I16(n - 1) != n
  {
  }

  /** For any two end points: the loop runs through the dots of the line exactly when its tests hold. */
  lemma DrawsTheLine(l: Line)
    requires OnGrid(l)
    ensures (forall k: nat :: k <= l.Length() ==> At(Run(l, k)) == Dot(l, k)) <==> TestsHold(l)
  {
    hide TurnHolds;
    if TestsHold(l) {
      forall k: nat | k <= l.Length() ensures At(Run(l, k)) == Dot(l, k) { RunFollows(l, k); }
    } else {
      var k: nat :| k < l.Length() && !TurnHolds(l, k);
      k := FirstFailure(l, k);
      RunFollows(l, k);
      StepStrays(l, k, Run(l, k));
      assert At(Run(l, k + 1)) != Dot(l, k + 1);
    }
  }

  lemma {:induction false} FirstFailure(l: Line, k: nat) returns (m: nat)
    requires !TurnHolds(l, k)
    ensures m <= k && !TurnHolds(l, m) && forall j: nat :: j < m ==> TurnHolds(l, j)
  {
    hide TurnHolds;
    if j: nat :| j < k && !TurnHolds(l, j) { m := FirstFailure(l, j); } else { m := k; }
  }

  /** When the deltas fit `int16_t`, the tests hold just as long as no doubled error term overflows. */
  lemma TestsHoldWithoutOverflow(l: Line)
    requires l.DX() <= 0x7FFF && l.DY() <= 0x7FFF
    ensures TestsHold(l) <==> forall k: nat :: k < l.Length() ==> FitsI16(2 * Err(l, k))
  {
    forall k: nat | k < l.Length() ensures TurnHolds(l, k) <==> FitsI16(2 * Err(l, k)) {
      ErrBounds(l, k);
      DoubledWraps(Err(l, k));
    }
  }

  lemma DoubledWraps(e: int)
    requires -0x17FFD <= 2 * e <= 0x17FFD
    ensures I16(2 * I16(e)) == if FitsI16(2 * e) then 2 * e else if e > 0 then 2 * e - 0x10000 else 2 * e + 0x10000
  {
  }

  /** Ample room: three times the longer delta fits. */
  lemma ShortLinesAreDrawn(l: Line)
    requires 3 * l.Length() <= 0x7FFF
    ensures TestsHold(l)
  {
    forall k: nat | k < l.Length() ensures FitsI16(2 * Err(l, k)) { ErrBounds(l, k); }
    TestsHoldWithoutOverflow(l);
  }

  predicate LevelFits(dx: nat) { dx <= 0x3FFF || 0x8000 <= dx <= 0xBFFF }
  predicate PlumbFits(dy: nat) { dy <= 0x4000 || 0x8001 <= dy <= 0xC000 }

  /** Along an axis the lengths that are drawn are known exactly. */
  lemma AxisLinesAreDrawn(l: Line)
    requires OnGrid(l) && (l.x0 == l.x1 || l.y0 == l.y1)
    ensures TestsHold(l) <==> LevelFits(l.DX()) && PlumbFits(l.DY())
  {
    hide TurnHolds;
    if l.Length() > 0 {
      forall k: nat | k < l.Length()
        ensures TurnHolds(l, k) <==> LevelFits(l.DX()) && PlumbFits(l.DY())
      {
        AxisErr(l, k);
        if l.DX() > 0 { LevelTurn(l, k); } else { PlumbTurn(l, k); }
      }
      assert TestsHold(l) ==> TurnHolds(l, 0);
    }
  }

  lemma LevelTurn(l: Line, k: nat)
    requires 0 < l.DX() <= 0xFFFF && l.DY() == 0 && Err(l, k) == l.DX()
    ensures TurnHolds(l, k) <==> LevelFits(l.DX())
  {
  }

  lemma PlumbTurn(l: Line, k: nat)
    requires 0 < l.DY() <= 0xFFFF && l.DX() == 0 && Err(l, k) == 0 - l.DY()
    ensures TurnHolds(l, k) <==> PlumbFits(l.DY())
  {
  }

  lemma AxisErr(l: Line, k: nat)
    requires (l.x0 == l.x1 || l.y0 == l.y1) && k <= l.Length()
    ensures Err(l, k) == l.DX() - l.DY()
  {
    StepsStayInside(l, k);
    assert (0 + 1) * l.DX() == l.DX() && (0 + 1) * l.DY() == l.DY();
    assert (StepsY(l, k) + 1) * 0 == 0 && (StepsX(l, k) + 1) * 0 == 0;
  }

  const LONG_LINE := Line(0, 0, 16384, 0)

  /** Its loop keeps `y + 2x` at 0 or -1 up to multiples of 2^16; at the end point it would be 2^15. */
  predicate Astray(s: LineState) {
    if s.err == 16384 || s.err == -16384 then WholeTurn(s.y + 2 * s.x)
    else (s.err == 0 || s.err == -32768) && WholeTurn(s.y + 2 * s.x + 1)
  }

  predicate WholeTurn(n: int) { n == 0 || n == 0x10000 || n == -0x10000 }

  lemma LongLineTurn(s: LineState)
    requires s.err in {16384, -16384, 0, -32768}
    ensures var t := Step(LONG_LINE, s);
      if s.err == 16384 || s.err == -16384
      then t == LineState(s.x, I16(s.y - 1), if s.err == 16384 then -32768 else 0)
      else t == LineState(I16(s.x + 1), I16(s.y - 1), if s.err == 0 then 16384 else -16384)
  {
    assert LONG_LINE.DX() == 16384 && LONG_LINE.DY() == 0 && LONG_LINE.SX() == 1 && LONG_LINE.SY() == -1;
  }

  lemma StepLeft(n: int16)
    ensures I16(n - 1) == if n == -0x8000 then 0x7FFF else n - 1
    ensures I16(n + 1) == if n == 0x7FFF then -0x8000 else n + 1
  {
  }

  lemma AstrayTurn(s: LineState)
    requires Astray(s)
    ensures Astray(Step(LONG_LINE, s))
  {
    LongLineTurn(s);
    StepLeft(s.x);
    StepLeft(s.y);
  }

  lemma {:induction false} LongLineGoesAstray(k: nat)
    ensures Astray(Run(LONG_LINE, k))
  {
    if k > 0 {
      LongLineGoesAstray(k - 1);
      AstrayTurn(Run(LONG_LINE, k - 1));
    }
  }

  /** Beyond that the loop need not end: from (0,0) to (16384,0) it never gets there. */
  lemma LongLineNeverEnds(k: nat)
    ensures At(Run(LONG_LINE, k)) != Point(LONG_LINE.x1, LONG_LINE.y1)
  {
    LongLineGoesAstray(k);
  }
}

/** The lattice points a midpoint circle is made of, and why its two error increments find them. */
module Circles {
  import opened MachineInts
  import opened Canvas

  function Low(p: Point): nat { if Abs(p.x) < Abs(p.y) then Abs(p.x) else Abs(p.y) }
  function High(p: Point): nat { if Abs(p.x) < Abs(p.y) then Abs(p.y) else Abs(p.x) }

  /** (x, y) is the lattice point nearest to the circle in its column, for 0 <= x <= y. */
  predicate Nearest(r: int, x: nat, y: nat) {
    -(y as int) <= x * x + y * y - r * r < y
  }

  /** An offset from the centre that belongs to the circle of radius `r`. */
  predicate OnCircle(r: int, p: Point) {
    if r < 0 then p in {Point(0, r), Point(0, -r), Point(r, 0), Point(-r, 0)}
    else if r == 0 then p == Point(0, 0)
    else Nearest(r, Low(p), High(p))
  }

  predicate InDisc(r: int, p: Point) { p.x * p.x + p.y * p.y <= r * r }

  ghost function Circle(r: int): iset<Point> { iset p | OnCircle(r, p) }
  ghost function Disc(r: int): iset<Point> { iset p | InDisc(r, p) }

  /** The part of the circle the loop has plotted when its column counter is `x`. */
  ghost function Arcs(r: int, x: nat): iset<Point> { iset p | OnCircle(r, p) && Low(p) <= x }

  predicate IsMirror(p: Point, x: int, y: int) {
    (Abs(p.x) == Abs(x) && Abs(p.y) == Abs(y)) || (Abs(p.x) == Abs(y) && Abs(p.y) == Abs(x))
  }

  /** The eight mirror images of an offset. */
  ghost function Eight(x: int, y: int): iset<Point> { iset p | IsMirror(p, x, y) }

  /** A circle is the same seen from any of the eight sides. */
  lemma CircleIsSymmetric(r: int, p: Point, q: Point)
    requires IsMirror(q, p.x, p.y) && (r >= 0 || p == Point(0, r))
    ensures OnCircle(r, p) <==> OnCircle(r, q)
  {
  }

  /** No plotted offset misses the circle by more than its larger coordinate. */
  lemma CircleIsClose(r: nat, p: Point)
    requires OnCircle(r, p)
    ensures Abs(p.x * p.x + p.y * p.y - r * r) <= High(p)
  {
    assert Abs(p.x) * Abs(p.x) == p.x * p.x && Abs(p.y) * Abs(p.y) == p.y * p.y;
  }

  /** A column holds one nearest point only. */
  lemma NearestIsUnique(r: int, x: nat, y: nat, z: nat)
    requires Nearest(r, x, y) && Nearest(r, x, z)
    ensures y == z
  {
    if y < z {
      SquaresGrow(y, z);
    } else if z < y {
      SquaresGrow(z, y);
    }
  }

  lemma SquaresGrow(y: nat, z: nat)
    requires y < z
    ensures y * y + y <= z * z - z
  {
    assert z * z - z == (z - 1) * z;
    var d := z - 1 - y;
    assert (y + 1 + d) * (y + d) == (y + 1) * y + (y + 1) * d + d * (y + d);
  }

  /** One step of the loop goes from the nearest point of a column to that of the next. */
  lemma NextColumn(r: nat, x: nat, y: nat)
    requires x < y && Nearest(r, x, y)
    ensures var f := (x + 1) * (x + 1) + y * y - y - r * r;
      && -2 * y < f <= 2 * x
      && var z := if f >= 0 then y - 1 else y;
         if x + 1 <= z then Nearest(r, x + 1, z) else z == x && y == x + 1
  {
    var f := (x + 1) * (x + 1) + y * y - y - r * r;
    assert (x + 1) * (x + 1) == x * x + 2 * x + 1;
    if f >= 0 {
      assert (y - 1) * (y - 1) == y * y - 2 * y + 1;
    }
  }

  lemma FirstColumn(r: nat)
    requires r > 0
    ensures Nearest(r, 0, r)
    ensures Arcs(r, 0) == iset{Point(0, r), Point(0, 0 - r), Point(r, 0), Point(0 - r, 0)}
  {
    forall p | OnCircle(r, p) && Low(p) == 0
      ensures High(p) == r
    {
      NearestIsUnique(r, 0, High(p), r);
    }
  }

  /** The eight dots of a column are what the circle has there. */
  lemma ColumnDots(r: nat, x: nat, y: nat)
    requires r > 0 && x < y && Nearest(r, x, y)
    ensures var z := if (x + 1) * (x + 1) + y * y - y - r * r >= 0 then y - 1 else y;
            Arcs(r, x) + Eight(x + 1, z) == Arcs(r, x + 1)
  {
    NextColumn(r, x, y);
    var z := if (x + 1) * (x + 1) + y * y - y - r * r >= 0 then y - 1 else y;
    forall p | p in Arcs(r, x + 1) && p !in Arcs(r, x) ensures p in Eight(x + 1, z) {
      if x + 1 <= z {
        NearestIsUnique(r, x + 1, High(p), z);
      } else {
        NothingBeyond(r, x + 1, y, x + 1, High(p));
      }
    }
    var u := x + 1;
    forall p | IsMirror(p, u, z) ensures p in Arcs(r, u) {
      if x + 1 <= z {
        assert Low(p) == x + 1 && High(p) == z;
      } else {
        assert Low(p) == x && High(p) == y;
      }
    }
  }

  lemma NothingBeyond(r: nat, a: nat, b: nat, u: nat, v: nat)
    requires a * a + b * b - b >= r * r && a <= u && b <= v
    ensures !Nearest(r, u, v)
  {
    SquareOrder(a, u);
    SquareOrder(b, v);
  }

  /** Once the column counter has caught up with the row counter, the circle is complete. */
  lemma CircleIsComplete(r: nat, x: nat, y: nat)
    requires r > 0
    requires (x == y && Nearest(r, x, y)) || (x == y + 1 && Nearest(r, y, x))
    ensures Arcs(r, x) == Circle(r)
  {
    forall p | OnCircle(r, p) && Low(p) > x ensures false {
      assert (x + 1) * (x + 1) == x * x + 2 * x + 1;
      SquareOrder(y, x);
      NothingBeyond(r, x + 1, x + 1, Low(p), High(p));
    }
  }

  lemma SquareOrder(a: nat, b: nat)
    requires a <= b
    ensures a * a <= b * b && a * a - a <= b * b - b
  {
    if a < b {
      SquaresGrow(a, b);
    }
  }
}

/** The display: its frame buffer and the routines that draw into it. */
module Display {
  import opened MachineInts
  import opened Canvas
  import opened Lines
  import opened LineLoop
  import Circles
  import opened CircleLoop

  /** A shape of offsets put down at a centre; coordinates wrap like the `int16_t` arguments do. */
  ghost function Stamp(x0: int, y0: int, shape: iset<Point>): iset<Point> {
    iset p | p in shape :: Point(I16(x0 + p.x), I16(y0 + p.y))
  }

  /** Where nothing wraps, a stamp is a translation. */
  lemma StampTranslates(x0: int, y0: int, shape: iset<Point>, q: Point)
    requires forall p :: p in shape ==> FitsI16(x0 + p.x) && FitsI16(y0 + p.y)
    ensures q in Stamp(x0, y0, shape) <==> Point(q.x - x0, q.y - y0) in shape
  {
    if Point(q.x - x0, q.y - y0) in shape {
      var p := Point(q.x - x0, q.y - y0);
      assert q == Point(I16(x0 + p.x), I16(y0 + p.y));
    }
  }

  lemma PaintDot(fb: seq<bv16>, l: Line, k: nat, color: bv16)
    ensures Painted(Painted(fb, Dots(l, k), color), iset{Dot(l, k)}, color) == Painted(fb, Dots(l, k + 1), color)
  {
    PaintMore(fb, Dots(l, k), iset{Dot(l, k)}, color);
    OneMoreDot(l, k);
  }

  lemma LineBegins(fb: seq<bv16>, l: Line, color: bv16)
    requires OnGrid(l)
    ensures Run(l, 0) == LineState(l.x0, l.y0, I16(I16(l.DX()) + I16(0 - l.DY())))
    ensures Painted(fb, Dots(l, 0), color) == fb
  {
    assert Dots(l, 0) == iset{};
    PaintNothing(fb, color);
  }

  /** All the loop of `DrawLine` needs to know about its `k`-th turn. */
  lemma LineTurn(l: Line, k: nat)
    requires OnGrid(l) && TestsHold(l) && k <= l.Length()
    ensures At(Run(l, k)) == Dot(l, k)
    ensures At(Run(l, k)) == Point(l.x1, l.y1) <==> k == l.Length()
    ensures Run(l, k + 1) == Turn(I16(l.DX()), I16(0 - l.DY()), l.SX(), l.SY(), Run(l, k))
  {
    RunFollows(l, k);
    ArrivesAtTheEnd(l, k);
  }

  ghost function Box(x: int, y: int, w: int, h: int): iset<Point> {
    iset p: Point | x <= p.x < x + w && y <= p.y < y + h
  }

  /** The one-pixel frame of the box. */
  ghost function Frame(x: int, y: int, w: int, h: int): iset<Point> {
    iset p: Point | p in Box(x, y, w, h) && (p.x == x || p.x == x + w - 1 || p.y == y || p.y == y + h - 1)
  }

  class Ili9341 {
    const framebuf: array<bv16>

    ghost predicate Valid()
      reads this
    {
      framebuf.Length == WIDTH * HEIGHT
    }

    constructor ()
      ensures Valid() && fresh(framebuf)
      ensures forall i :: 0 <= i < framebuf.Length ==> framebuf[i] == 0
    {
      framebuf := new bv16[WIDTH * HEIGHT](_ => 0);
    }

    method FillScreen(color: bv16)
      requires Valid()
      modifies framebuf
      ensures forall i :: 0 <= i < framebuf.Length ==> framebuf[i] == color
    {
      forall i | 0 <= i < framebuf.Length { framebuf[i] := color; }
    }

    method DrawPixel(x: int16, y: int16, color: bv16)
      requires Valid()
      modifies framebuf
      ensures framebuf[..] == Painted(old(framebuf[..]), iset{Point(x, y)}, color)
      ensures 0 <= x < 240 && 0 <= y < 320 ==> framebuf[y * 240 + x] == color
      ensures forall i :: 0 <= i < framebuf.Length ==>
        framebuf[i] == old(framebuf[i]) || (0 <= x < 240 && 0 <= y < 320 && i == y * 240 + x)
    {
      if 0 <= x < WIDTH && 0 <= y < HEIGHT {
        framebuf[y * WIDTH + x] := color;
      }
    }

    method ReadPixel(x: int16, y: int16) returns (c: bv16)
      requires Valid()
      ensures c == if 0 <= x < 240 && 0 <= y < 320 then framebuf[y * 240 + x] else 0
    {
      c := 0;
      if 0 <= x < WIDTH && 0 <= y < HEIGHT { c := framebuf[y * WIDTH + x]; }
    }

    /** Draws the dots of the line and stops. */
    method DrawLine(x0: int16, y0: int16, x1: int16, y1: int16, color: bv16)
      requires Valid() && TestsHold(Line(x0, y0, x1, y1))
      modifies framebuf
      ensures framebuf[..] == Painted(old(framebuf[..]), AllDots(Line(x0, y0, x1, y1)), color)
    {
      hide Painted, Run, Turn, Dots, Dot, TestsHold;
      ghost var l := Line(x0, y0, x1, y1);
      ghost var fb := framebuf[..];
      ghost var k: nat := 0;
      var sx: int, sy: int := if x0 < x1 then 1 else -1, if y0 < y1 then 1 else -1;
      var dx: int16, dy: int16 := I16(Abs(x1 - x0)), I16(0 - Abs(y1 - y0));
      var err: int16, x: int16, y: int16 := I16(dx as int + dy), x0, y0;
      LineBegins(fb, l, color);
      assert sx == l.SX() && sy == l.SY() && dx == I16(l.DX()) && dy == I16(0 - l.DY());
      while true
        invariant k <= l.Length() && LineState(x, y, err) == Run(l, k)
        invariant framebuf[..] == Painted(fb, Dots(l, k), color)
        decreases l.Length() - k
      {
        LineTurn(l, k);
        DrawPixel(x, y, color);
        PaintDot(fb, l, k, color);
        if x == x1 && y == y1 { break; }
        x, y, err := LineLoop.TurnOnce(dx, dy, sx, sy, x, y, err);
        k := k + 1;
      }
    }

    /** Four lines; `x + w - 1` and `y + h - 1` are converted to `int16_t` on the way. */
    method DrawRect(x: int16, y: int16, w: int16, h: int16, color: bv16)
      requires Valid()
      requires LevelFits(Abs(I16(x + w - 1) - x)) && PlumbFits(Abs(I16(y + h - 1) - y))
      modifies framebuf
      ensures var x2, y2 := I16(x + w - 1), I16(y + h - 1);
              framebuf[..] == Painted(old(framebuf[..]), Sides(x, y, x2, y2), color)
    {
      ghost var fb := framebuf[..];
      var x2, y2 := I16(x + w - 1), I16(y + h - 1);
      ghost var a, b := Line(x, y, x2, y), Line(x, y2, x2, y2);
      ghost var c, d := Line(x, y, x, y2), Line(x2, y, x2, y2);
      AxisLinesAreDrawn(a);
      AxisLinesAreDrawn(b);
      AxisLinesAreDrawn(c);
      AxisLinesAreDrawn(d);
      DrawLine(x, y, x2, y, color);
      DrawLine(x, y2, x2, y2, color);
      PaintMore(fb, AllDots(a), AllDots(b), color);
      DrawLine(x, y, x, y2, color);
      PaintMore(fb, AllDots(a) + AllDots(b), AllDots(c), color);
      DrawLine(x2, y, x2, y2, color);
      PaintMore(fb, AllDots(a) + AllDots(b) + AllDots(c), AllDots(d), color);
    }

    /** The clipped box.  The loops end, by Counters.LoopEnds, just for the boxes admitted here. */
    method FillRect(x: int16, y: int16, w: int16, h: int16, color: bv16)
      requires Valid() && (h > 0 ==> FitsI16(y + h)) && (h > 0 && w > 0 ==> FitsI16(x + w))
      modifies framebuf
      ensures framebuf[..] == Painted(old(framebuf[..]), Box(x, y, w, h), color)
    {
      ghost var fb := framebuf[..];
      var j := y;
      PaintNothing(fb, color);
      assert Box(x, y, w, 0) == iset{};
      while j < y + h
        invariant j == y || y < j <= y + h
        invariant framebuf[..] == Painted(fb, Box(x, y, w, j - y), color)
      {
        var i := x;
        ghost var rows := Box(x, y, w, j - y);
        assert rows + Box(x, j, 0, 1) == rows;
        while i < x + w
          invariant i == x || x < i <= x + w
          invariant framebuf[..] == Painted(fb, rows + Box(x, j, i - x, 1), color)
        {
          DrawPixel(i, j, color);
          PaintMore(fb, rows + Box(x, j, i - x, 1), iset{Point(i, j)}, color);
          assert rows + Box(x, j, i - x, 1) + iset{Point(i, j)} == rows + Box(x, j, i + 1 - x, 1);
          i := i + 1;
        }
        assert rows + Box(x, j, i - x, 1) == Box(x, y, w, j + 1 - y);
        j := j + 1;
      }
      assert Box(x, y, w, j - y) == Box(x, y, w, h);
    }

    /** The dots of one octant step, mirrored into all eight. */
    method PlotEight(x0: int16, y0: int16, x: nat, y: nat, color: bv16)
      requires Valid()
      modifies framebuf
      ensures framebuf[..] == Painted(old(framebuf[..]), Stamp(x0, y0, Circles.Eight(x, y)), color)
    {
      PlotAll(x0, y0, Mirrors(x, y), color);
      EightOffsets(x, y);
    }

    /** Consecutive `drawPixel` calls around one centre. */
    method PlotAll(x0: int16, y0: int16, offsets: seq<Point>, color: bv16)
      requires Valid()
      modifies framebuf
      ensures framebuf[..] == Painted(old(framebuf[..]), Stamp(x0, y0, Offsets(offsets)), color)
    {
      ghost var fb := framebuf[..];
      PaintNothing(fb, color);
      assert Stamp(x0, y0, Offsets(offsets[..0])) == iset{};
      for i := 0 to |offsets|
        invariant framebuf[..] == Painted(fb, Stamp(x0, y0, Offsets(offsets[..i])), color)
      {
        var p := offsets[i];
        DrawPixel(I16(x0 as int + p.x), I16(y0 as int + p.y), color);
        StampOneMore(fb, x0, y0, Offsets(offsets[..i]), p, color);
        assert Offsets(offsets[..i]) + iset{p} == Offsets(offsets[..i + 1]);
      }
      assert offsets[..|offsets|] == offsets;
    }

    /** The midpoint circle: the loop ends for every radius, and for most it draws the circle. */
    method DrawCircle(x0: int16, y0: int16, r: int16, color: bv16)
      requires Valid()
      modifies framebuf
      ensures framebuf[..] == Painted(old(framebuf[..]), Stamp(x0, y0, Plotted(r)), color)
      ensures CircleFits(r) ==>
        framebuf[..] == Painted(old(framebuf[..]), Stamp(x0, y0, Circles.Circle(r)), color)
    {
      hide Painted, Stamp, NextState, PlottedFrom, CircleFits;
      ghost var fb := framebuf[..];
      var x: int16, y: int16, f: int16, ddFx: int16, ddFy: int16 := 0, r, I16(1 - r as int), 1, I16(-2 * r as int);
      PlotAll(x0, y0, [Point(0, r), Point(0, 0 - r as int), Point(r, 0), Point(0 - r as int, 0)], color);
      ghost var plotted := FirstFour(r);
      FourOffsets(r);
      while x < y
        invariant 0 <= x && plotted + PlottedFrom(CircleState(x, y, f, ddFx, ddFy)) == Plotted(r)
        invariant framebuf[..] == Painted(fb, Stamp(x0, y0, plotted), color)
        decreases y - x
      {
        TurnPlots(CircleState(x, y, f, ddFx, ddFy));
        x, y, f, ddFx, ddFy := CircleLoop.TurnOnce(x, y, f, ddFx, ddFy);
        PlotEight(x0, y0, x, y, color);
        StampMore(fb, x0, y0, plotted, Circles.Eight(x, y), color);
        plotted := plotted + Circles.Eight(x, y);
      }
      NoMoreTurns(CircleState(x, y, f, ddFx, ddFy));
      assert plotted == Plotted(r);
      CirclesDrawn(r);
    }

    /** The inner loop of `FillCircle`. */
    method FillDiscRow(x0: int16, y0: int16, r: int16, y: int, color: bv16)
      requires Valid() && 0 <= r < 0x7FFF
      modifies framebuf
      ensures framebuf[..] == Painted(old(framebuf[..]),
                Stamp(x0, y0, Scanned(r, y, r + 1) - Scanned(r, y, 0 - r as int)), color)
    {
      hide Painted;
      ghost var fb, none := framebuf[..], Scanned(r, y, 0 - r as int);
      var x: int := I16(-(r as int));
      PaintNothing(fb, color);
      assert Stamp(x0, y0, none - none) == iset{};
      while x <= r
        invariant -(r as int) <= x <= r + 1
        invariant framebuf[..] == Painted(fb, Stamp(x0, y0, Scanned(r, y, x) - none), color)
      {
        NextDot(r, y, x);
        if x * x + y * y <= r * r {
          DrawPixel(I16(x0 as int + x), I16(y0 as int + y), color);
          StampOneMore(fb, x0, y0, Scanned(r, y, x) - none, Point(x, y), color);
          assert (Scanned(r, y, x) - none) + iset{Point(x, y)} == Scanned(r, y, x + 1) - none;
        } else {
          assert Scanned(r, y, x + 1) == Scanned(r, y, x);
        }
        x := x + 1;
      }
    }

    /** The disc.  A radius of 32767 would make the counters pass their limit for ever. */
    method FillCircle(x0: int16, y0: int16, r: int16, color: bv16)
      requires Valid() && -0x8000 < r < 0x7FFF
      modifies framebuf
      ensures framebuf[..] == Painted(old(framebuf[..]), Stamp(x0, y0, if r < 0 then iset{} else Circles.Disc(r)), color)
    {
      ghost var fb := framebuf[..];
      var y: int := I16(-(r as int));
      PaintNothing(fb, color);
      ghost var plotted: iset<Point> := iset{};
      assert Stamp(x0, y0, iset{}) == iset{};
      if r >= 0 { DiscIsWhole(r); }
      while y <= r
        invariant r < 0 ==> y > r && plotted == iset{}
        invariant r >= 0 ==> -(r as int) <= y <= r + 1 && plotted == Scanned(r, y, 0 - r as int)
        invariant framebuf[..] == Painted(fb, Stamp(x0, y0, plotted), color)
      {
        FillDiscRow(x0, y0, r, y, color);
        ghost var row := Scanned(r, y, r + 1) - Scanned(r, y, 0 - r);
        StampMore(fb, x0, y0, plotted, row, color);
        plotted := plotted + row;
        NextRow(r, y);
        assert plotted == Scanned(r, y + 1, 0 - r as int);
        y := y + 1;
      }
    }
  }

  ghost function Offsets(ps: seq<Point>): iset<Point> { iset p | p in ps }

  function Mirrors(x: nat, y: nat): seq<Point> {
    [Point(x, y), Point(0 - x, y), Point(x, 0 - y), Point(0 - x, 0 - y),
     Point(y, x), Point(0 - y, x), Point(y, 0 - x), Point(0 - y, 0 - x)]
  }

  lemma EightOffsets(x: nat, y: nat)
    ensures Offsets(Mirrors(x, y)) == Circles.Eight(x, y)
  {
    var ps := Mirrors(x, y);
    forall p: Point | Circles.IsMirror(p, x, y) ensures p in ps {
      assert p in {ps[0], ps[1], ps[2], ps[3], ps[4], ps[5], ps[6], ps[7]};
    }
  }

  lemma StampMore(fb: seq<bv16>, x0: int, y0: int, a: iset<Point>, b: iset<Point>, color: bv16)
    ensures Painted(Painted(fb, Stamp(x0, y0, a), color), Stamp(x0, y0, b), color)
         == Painted(fb, Stamp(x0, y0, a + b), color)
  {
    PaintMore(fb, Stamp(x0, y0, a), Stamp(x0, y0, b), color);
    assert Stamp(x0, y0, a) + Stamp(x0, y0, b) == Stamp(x0, y0, a + b);
  }

  lemma StampOneMore(fb: seq<bv16>, x0: int, y0: int, a: iset<Point>, p: Point, color: bv16)
    ensures Painted(Painted(fb, Stamp(x0, y0, a), color), iset{Point(I16(x0 + p.x), I16(y0 + p.y))}, color)
         == Painted(fb, Stamp(x0, y0, a + iset{p}), color)
  {
    StampMore(fb, x0, y0, a, iset{p}, color);
    assert Stamp(x0, y0, iset{p}) == iset{Point(I16(x0 + p.x), I16(y0 + p.y))};
  }

  lemma FourOffsets(r: int)
    ensures Offsets([Point(0, r), Point(0, 0 - r), Point(r, 0), Point(0 - r, 0)]) == FirstFour(r)
  {
  }

  // ---- Discs ------------------------------------------------------------------------

  /** The disc as far as the scan has come: the rows above `y`, and of row `y` what is left of `x`. */
  ghost function Scanned(r: int, y: int, x: int): iset<Point> {
    iset p | Circles.InDisc(r, p) && (p.y < y || (p.y == y && p.x < x))
  }

  lemma SquareRoot(a: int, r: nat)
    ensures a * a <= r * r ==> Abs(a) <= r
  {
    assert Abs(a) * Abs(a) == a * a;
    if Abs(a) > r { Circles.SquaresGrow(r, Abs(a)); }
  }

  lemma InDiscIsNear(r: nat, p: Point)
    requires Circles.InDisc(r, p)
    ensures Abs(p.x) <= r && Abs(p.y) <= r
  {
    assert p.x * p.x >= 0 && p.y * p.y >= 0;
    SquareRoot(p.x, r);
    SquareRoot(p.y, r);
  }

  lemma NextRow(r: nat, y: int)
    ensures Scanned(r, y, r + 1) == Scanned(r, y + 1, 0 - r)
  {
    forall p | Circles.InDisc(r, p) ensures Abs(p.x) <= r { InDiscIsNear(r, p); }
  }

  lemma NextDot(r: nat, y: int, x: int)
    ensures Scanned(r, y, x + 1) == Scanned(r, y, x) + if x * x + y * y <= r * r then iset{Point(x, y)} else iset{}
  {
  }

  lemma DiscIsWhole(r: nat)
    ensures Scanned(r, r + 1, 0 - r) == Circles.Disc(r) && Scanned(r, 0 - r, 0 - r) == iset{}
  {
    forall p | Circles.InDisc(r, p) ensures Abs(p.x) <= r && Abs(p.y) <= r { InDiscIsNear(r, p); }
  }

  ghost function Sides(x: int, y: int, x2: int, y2: int): iset<Point> {
    AllDots(Line(x, y, x2, y)) + AllDots(Line(x, y2, x2, y2))
    + AllDots(Line(x, y, x, y2)) + AllDots(Line(x2, y, x2, y2))
  }

  ghost predicate OnSide(p: Point, x: int, y: int, x2: int, y2: int) {
    || ((p.y == y || p.y == y2) && (x <= p.x <= x2 || x2 <= p.x <= x))
    || ((p.x == x || p.x == x2) && (y <= p.y <= y2 || y2 <= p.y <= y))
  }

  ghost function Rim(x: int, y: int, x2: int, y2: int): iset<Point> {
    iset p | OnSide(p, x, y, x2, y2)
  }

  /** The four lines are the sides of the rectangle their corners span. */
  lemma SidesOfRect(x: int, y: int, x2: int, y2: int)
    ensures Sides(x, y, x2, y2) == Rim(x, y, x2, y2)
  {
    LevelLine(Line(x, y, x2, y));
    LevelLine(Line(x, y2, x2, y2));
    PlumbLine(Line(x, y, x, y2));
    PlumbLine(Line(x2, y, x2, y2));
  }

  /** So a rectangle that is not empty is drawn as its frame. */
  lemma RectIsFrame(x: int, y: int, w: int, h: int)
    requires w >= 1 && h >= 1
    ensures Frame(x, y, w, h) == Rim(x, y, x + w - 1, y + h - 1)
  {
  }
}
