/** The loop of `drawCircle` on `int16_t` variables, and the radii for which it draws the circle. */
module CircleLoop {
  import opened MachineInts
  import opened Canvas
  import opened Circles

  datatype CircleState = CircleState(x: int16, y: int16, f: int16, ddFx: int16, ddFy: int16)

  function FirstState(r: int16): CircleState {
    CircleState(0, r, I16(1 - r as int), 1, I16(-2 * r as int))
  }

  /** One turn of the loop. */
  function NextState(s: CircleState): CircleState {
    var y: int16 := if s.f >= 0 then I16(s.y - 1) else s.y;
    var ddFy: int16 := if s.f >= 0 then I16(s.ddFy + 2) else s.ddFy;
    var f: int16 := if s.f >= 0 then I16(s.f + ddFy) else s.f;
    var ddFx: int16 := I16(s.ddFx + 2);
    CircleState(I16(s.x + 1), y, I16(f + ddFx), ddFx, ddFy)
  }

  /** The same, as it is written. */
  method TurnOnce(x0: int16, y0: int16, f0: int16, ddFx0: int16, ddFy0: int16)
    returns (x: int16, y: int16, f: int16, ddFx: int16, ddFy: int16)
    ensures CircleState(x, y, f, ddFx, ddFy) == NextState(CircleState(x0, y0, f0, ddFx0, ddFy0))
  {
    x, y, f, ddFx, ddFy := x0, y0, f0, ddFx0, ddFy0;
    if f >= 0 {
      y := I16(y as int - 1);
      ddFy := I16(ddFy as int + 2);
      f := I16(f as int + ddFy);
    }
    x := I16(x as int + 1);
    ddFx := I16(ddFx as int + 2);
    f := I16(f as int + ddFx);
  }

  /** Every turn brings the counters closer, whatever the error term has become. */
  lemma CountersMeet(s: CircleState)
    requires 0 <= s.x < s.y
    ensures var t := NextState(s);
            t.x == s.x + 1 && t.y == (if s.f >= 0 then s.y - 1 else s.y) && 0 <= t.x && 0 <= t.y
  {
  }

  /** The offsets plotted from a state on. */
  ghost function PlottedFrom(s: CircleState): iset<Point>
    requires 0 <= s.x
    decreases s.y - s.x
  {
    if s.x >= s.y then iset{}
    else
      CountersMeet(s);
      Eight(NextState(s).x, NextState(s).y) + PlottedFrom(NextState(s))
  }

  lemma TurnPlots(s: CircleState)
    requires 0 <= s.x < s.y
    ensures var t := NextState(s);
            s.x < t.x && 0 <= t.y && t.y - t.x < s.y - s.x
            && PlottedFrom(s) == Eight(t.x, t.y) + PlottedFrom(t)
  {
    CountersMeet(s);
  }

  lemma NoMoreTurns(s: CircleState)
    requires 0 <= s.x && s.y <= s.x
    ensures PlottedFrom(s) == iset{}
  {
  }

  ghost function FirstFour(r: int): iset<Point> {
    iset{Point(0, r), Point(0, 0 - r), Point(r, 0), Point(0 - r, 0)}
  }

  /** All offsets that `drawCircle` plots. */
  ghost function Plotted(r: int16): iset<Point> { FirstFour(r) + PlottedFrom(FirstState(r)) }

  // ---- The loop and the circle ------------------------------------------------------

  /** The error term of a column on unbounded integers. */
  function Exact(r: int, x: int, y: int): int { (x + 1) * (x + 1) + y * y - y - r * r }

  /** The state is that of an ideal column, its increments reduced to `int16_t`. */
  ghost predicate Tracks(r: nat, s: CircleState) {
    && 0 <= s.x <= s.y && Nearest(r, s.x, s.y)
    && s.f == I16(Exact(r, s.x, s.y)) && s.ddFx == I16(2 * s.x + 1) && s.ddFy == I16(-2 * s.y)
  }

  /** The row of the next column. */
  function RowAfter(r: int, x: int, y: int): int { if Exact(r, x, y) >= 0 then y - 1 else y }

  lemma ExactMoves(r: int, x: int, y: int)
    ensures Exact(r, x + 1, y) == Exact(r, x, y) + (2 * x + 3)
    ensures Exact(r, x, y - 1) == Exact(r, x, y) - 2 * (y - 1)
  {
    assert (x + 2) * (x + 2) == (x + 1) * (x + 1) + 2 * x + 3;
    assert (y - 1) * (y - 1) == y * y - 2 * y + 1;
  }

  lemma WrapsAdd(a: int, b: int)
    ensures I16(I16(a) + b) == I16(a + b)
  {
  }

  lemma SumWraps(a: int, b: int)
    ensures I16(I16(a) + I16(b)) == I16(a + b)
  {
    WrapsAdd(a, I16(b));
    WrapsAdd(b, a);
    assert I16(b) + a == a + I16(b) && b + a == a + b;
  }

  /** While the error term fits, a turn goes to the next column. */
  lemma TurnTracks(r: nat, s: CircleState)
    requires Tracks(r, s) && s.x < s.y && FitsI16(Exact(r, s.x, s.y))
    ensures var t := NextState(s);
      && t.x == s.x + 1 && t.y == RowAfter(r, s.x, s.y)
      && (t.x <= t.y ==> Tracks(r, t))
  {
    hide I16;
    var x, y, e := s.x as int, s.y as int, Exact(r, s.x, s.y);
    var z := RowAfter(r, x, y);
    NextColumn(r, x, y);
    CountersMeet(s);
    Fitting(e);
    WrapsAdd(-2 * y, 2);
    WrapsAdd(2 * x + 1, 2);
    ExactMoves(r, x, y);
    ExactMoves(r, x, y - 1);
    SumWraps(e, -2 * (y - 1));
    var f := if e >= 0 then Exact(r, x, y - 1) else e;
    SumWraps(f, 2 * x + 3);
  }

  lemma Fitting(n: int)
    requires FitsI16(n)
    ensures I16(n) == n
  {
  }

  /** The error term of every column of the circle fits. */
  ghost predicate ColumnsFit(r: nat) {
    forall x: nat, y: nat :: x < y && Nearest(r, x, y) ==> FitsI16(Exact(r, x, y))
  }

  /** Then the loop plots the circle from any column on. */
  lemma {:induction false} PlotsTheRest(r: nat, s: CircleState)
    requires r > 0 && ColumnsFit(r) && Tracks(r, s)
    ensures Arcs(r, s.x) + PlottedFrom(s) == Circle(r)
    decreases s.y - s.x
  {
    hide Nearest, NextState, Arcs, Eight, ColumnsFit;
    if s.x == s.y {
      CircleIsComplete(r, s.x, s.y);
    } else {
      var t := NextState(s);
      ColumnFits(r, s);
      TurnTracks(r, s);
      CountersMeet(s);
      ColumnDots(r, s.x, s.y);
      if t.x <= t.y {
        PlotsTheRest(r, t);
      } else {
        NextColumn(r, s.x, s.y);
        CircleIsComplete(r, t.x, t.y);
      }
    }
  }

  lemma ColumnFits(r: nat, s: CircleState)
    requires ColumnsFit(r) && Tracks(r, s) && s.x < s.y
    ensures FitsI16(Exact(r, s.x, s.y))
  {
  }

  /** There is no column where the counters have met. */
  lemma ColumnAhead(r: nat, a: nat, b: nat, x: nat, y: nat)
    requires Nearest(r, a, b) && a <= b && a <= x < y && Nearest(r, x, y)
    ensures a < b
  {
    assert (a + 1) * (a + 1) == a * a + 2 * a + 1;
    SquareOrder(a, x);
    if a + 1 <= y { SquareOrder(a + 1, y); }
  }

  /** If a later column exists, the next one does. */
  lemma NextColumnAhead(r: nat, a: nat, b: nat, x: nat, y: nat)
    requires Nearest(r, a, b) && a < b && a < x < y && Nearest(r, x, y)
    ensures a + 1 <= RowAfter(r, a, b)
  {
    NextColumn(r, a, b);
    if Exact(r, a, b) >= 0 && b == a + 1 { NothingBeyond(r, a + 1, b, x, y); }
  }

  /** An error term outside `int16_t` is read with the wrong sign. */
  lemma WrongSign(e: int, y: nat)
    requires -2 * y < e <= 2 * y && y <= 0x7FFF && !FitsI16(e)
    ensures I16(e) >= 0 <==> e < 0
  {
  }

  lemma WrongTurn(r: nat, s: CircleState) returns (p: Point)
    requires r > 0 && Tracks(r, s) && s.x < s.y && !FitsI16(Exact(r, s.x, s.y))
    ensures p in PlottedFrom(s) && !OnCircle(r, p)
  {
    hide I16, NextState;
    var x: nat, y: nat, e := s.x, s.y, Exact(r, s.x, s.y);
    var t := NextState(s);
    NextColumn(r, x, y);
    WrongSign(e, y);
    CountersMeet(s);
    assert (x + 1) * (x + 1) == x * x + 2 * x + 1;
    assert (y - 1) * (y - 1) == y * y - 2 * y + 1;
    p := Point(t.x, t.y);
    assert p in Eight(t.x, t.y);
  }

  /** A column whose error term does not fit sends the loop off the circle. */
  lemma {:induction false} GoesAstray(r: nat, s: CircleState, x: nat, y: nat) returns (p: Point)
    requires r > 0 && Tracks(r, s) && s.x <= x < y && Nearest(r, x, y) && !FitsI16(Exact(r, x, y))
    ensures p in PlottedFrom(s) && !OnCircle(r, p)
    decreases s.y - s.x
  {
    hide NextState, OnCircle, I16;
    ColumnAhead(r, s.x, s.y, x, y);
    var t := NextState(s);
    CountersMeet(s);
    if FitsI16(Exact(r, s.x, s.y)) {
      if x == s.x { NearestIsUnique(r, x, y, s.y); }
      TurnTracks(r, s);
      NextColumnAhead(r, s.x, s.y, x, y);
      p := GoesAstray(r, t, x, y);
    } else {
      p := WrongTurn(r, s);
    }
  }

  lemma StartTracks(r: int16)
    requires r > 0
    ensures Tracks(r, FirstState(r)) && FirstFour(r) == Arcs(r, 0)
  {
    FirstColumn(r);
    assert Exact(r, 0, r) == 1 - r;
  }

  lemma NothingToTurn(r: int16)
    requires r <= 0
    ensures Plotted(r) == Circle(r)
  {
  }

  /** For positive radii: the plotted offsets are the circle exactly when every error term fits. */
  lemma PlotsTheCircle(r: int16)
    requires r > 0
    ensures Plotted(r) == Circle(r) <==> ColumnsFit(r)
  {
    hide Nearest, PlottedFrom;
    StartTracks(r);
    if ColumnsFit(r) {
      PlotsTheRest(r, FirstState(r));
    } else {
      var x: nat, y: nat :| x < y && Nearest(r, x, y) && !FitsI16(Exact(r, x, y));
      var p := GoesAstray(r, FirstState(r), x, y);
      assert p in Plotted(r) <==> p !in Circle(r);
    }
  }

  // ---- The radii -------------------------------------------------------------------

  predicate CircleFits(r: int) { r <= 16556 || r == 16642 || r == 16643 }

  /** The error term, with the square of `x` compared to the least that belongs to row `y`. */
  lemma ExactOfRow(r: int, x: int, y: int, d: int)
    requires y == r - d
    ensures Exact(r, x, y) == x * x - (2 * d * y - y + d * d) + 2 * x + 1 - 2 * y
  {
    assert (x + 1) * (x + 1) == x * x + 2 * x + 1;
    assert (y + d) * (y + d) == y * y + 2 * d * y + d * d;
  }

  lemma AtLeast(x: nat, bound: nat)
    requires x * x > bound * bound
    ensures x > bound
  {
    if x <= bound { SquareOrder(x, bound); }
  }

  /** Only the first turns of a large circle can come close to the lower end of `int16_t`. */
  lemma RowFits(r: nat, x: nat, y: nat)
    requires CircleFits(r) && x < y <= r && Nearest(r, x, y)
    ensures Exact(r, x, y) >= -0x8000
  {
    NextColumn(r, x, y);
    var d := r - y;
    ExactOfRow(r, x, y, d);
    if y > 0x4000 && d > 0 {
      if d == 1 {
        FirstRow(r, x);
      } else if d == 2 {
        SecondRow(r, x);
      } else {
        LowerRow(r, x, y, d);
      }
    }
  }

  lemma FirstRow(r: nat, x: nat)
    requires CircleFits(r) && r > 0x4001 && x * x >= r
    ensures x * x - r + 2 * x + 1 - 2 * (r - 1) >= -0x8000
  {
    AtLeast(x, 128);
    if r > 16641 { AtLeast(x, 129); }
    SquareOrder(if r > 16641 then 130 else 129, x);
  }

  lemma SecondRow(r: nat, x: nat)
    requires CircleFits(r) && r > 0x4002 && x * x >= 3 * r - 2
    ensures x * x - (3 * r - 2) + 2 * x + 1 - 2 * (r - 2) >= -0x8000
  {
    AtLeast(x, 221);
    if r > 16641 {
      AtLeast(x, 223);
      SquareOrder(224, x);
    }
  }

  lemma LowerRow(r: nat, x: nat, y: nat, d: nat)
    requires CircleFits(r) && y == r - d && y > 0x4000 && d >= 3 && x * x >= 2 * d * y - y + d * d
    ensures x * x - (2 * d * y - y + d * d) + 2 * x + 1 - 2 * y >= -0x8000
  {
    assert 2 * d * y >= 6 * y && d * d >= 9;
    AtLeast(x, 286);
  }

  lemma RowBound(r: nat, x: nat, y: nat)
    requires Nearest(r, x, y) && x < y
    ensures y <= r && 2 * (x * x) <= r * r + r
  {
    if y > r { SquaresGrow(r, y); }
    SquareOrder(x, y);
  }

  /** Up to radius 16556, and for two more, every error term fits. */
  lemma SmallCirclesFit(r: nat)
    requires CircleFits(r)
    ensures ColumnsFit(r)
  {
    hide Nearest, Exact;
    forall x: nat, y: nat | x < y && Nearest(r, x, y)
      ensures FitsI16(Exact(r, x, y))
    {
      RowBound(r, x, y);
      RowFits(r, x, y);
      ExactIsLow(r, x, y);
      SquareOrder(r, 16643);
      if x > 0x3FFF { SquareOrder(0x4000, x); }
    }
  }

  lemma ExactIsLow(r: nat, x: nat, y: nat)
    requires x < y && Nearest(r, x, y)
    ensures Exact(r, x, y) <= 2 * x
  {
    NextColumn(r, x, y);
  }

  lemma {:induction false} Root(r: nat) returns (x: nat)
    requires r > 0
    ensures x > 0 && (x - 1) * (x - 1) < r <= x * x
  {
    x := 1;
    while x * x < r
      invariant x > 0 && (x - 1) * (x - 1) < r
      decreases r - x
    {
      assert x <= x * x;
      x := x + 1;
    }
  }

  /** For every other radius the first column of the second row overflows. */
  lemma LargeCirclesOverflow(r: nat)
    requires !CircleFits(r)
    ensures !ColumnsFit(r)
  {
    var x := Root(r);
    var y := r - 1;
    assert (x + 1) * (x + 1) == (x - 1) * (x - 1) + 4 * x && x * x == (x - 1) * (x - 1) + 2 * x - 1;
    assert y * y == r * r - 2 * r + 1;
    RootBounds(r, x);
    assert Nearest(r, x, y);
    assert Exact(r, x, y) == (x + 1) * (x + 1) - 3 * r + 2;
    assert !FitsI16(Exact(r, x, y));
  }

  lemma RootBounds(r: nat, x: nat)
    requires !CircleFits(r) && x > 0 && (x - 1) * (x - 1) < r <= x * x
    ensures (x + 1) * (x + 1) - 3 * r + 2 < -0x8000 && x < r - 1 && 2 * x + 1 < 2 * r
  {
    AtLeast(x, 128);
    if r <= 16641 {
      if x > 129 { SquareOrder(129, x - 1); }
    } else if r <= 16900 {
      AtLeast(x, 129);
      if x > 130 { SquareOrder(130, x - 1); }
    } else {
      AtLeast(x, 130);
      assert (x - 1) * (x - 1) >= 130 * (x - 1);
      assert (x + 1) * (x + 1) == (x - 1) * (x - 1) + 4 * x;
    }
  }

  /** `drawCircle` plots the circle for these radii and for no others. */
  lemma CirclesDrawn(r: int16)
    ensures Plotted(r) == Circle(r) <==> CircleFits(r)
  {
    if r <= 0 {
      NothingToTurn(r);
    } else {
      PlotsTheCircle(r);
      if CircleFits(r) { SmallCirclesFit(r); } else { LargeCirclesOverflow(r); }
    }
  }

  /** The smallest radius that fails, and where. */
  lemma FirstFailure()
    ensures Nearest(16557, 129, 16556) && Exact(16557, 129, 16556) == -32769
    ensures Plotted(16557) != Circle(16557)
  {
    CirclesDrawn(16557);
  }

  // ---- The circle itself --------------------------------------------------------------

  /** In its column no other lattice point comes closer to `r * r` than the one on the circle. */
  lemma ColumnIsNearest(r: nat, x: nat, y: nat, z: nat)
    requires x <= y && OnCircle(r, Point(x, y)) && r > 0
    ensures Abs(x * x + y * y - r * r) <= Abs(x * x + z * z - r * r)
  {
    assert Low(Point(x, y)) == x && High(Point(x, y)) == y;
    NearerThan(y, z, x * x - r * r);
  }

  lemma NearerThan(y: nat, z: nat, d: int)
    requires -(y as int) <= d + y * y < y
    ensures Abs(d + y * y) <= Abs(d + z * z)
  {
    if y < z {
      SquaresGrow(y, z);
    } else if z < y {
      SquareOrder(z, y - 1);
      assert (y - 1) * (y - 1) == y * y - 2 * y + 1;
    }
  }

  /** And every column of the octant has one. */
  lemma EveryColumnHasOne(r: nat, x: nat) returns (y: nat)
    requires r > 0 && 2 * (x * x) <= r * r
    ensures x <= y && OnCircle(r, Point(x, y))
  {
    y := x;
    while x * x + y * y + y < r * r
      invariant x <= y && x * x + y * y - y < r * r + if y == x then y + 1 else 0
      decreases r * r - y
    {
      assert (y + 1) * (y + 1) == y * y + 2 * y + 1;
      assert y <= y * y;
      y := y + 1;
    }
    assert Low(Point(x, y)) == x && High(Point(x, y)) == y;
  }
}
