/** Greatest common divisors, and the multiples that a product takes modulo another number. */
module Divisors {
  function Gcd(a: nat, b: nat): nat
    decreases b
  {
    if b == 0 then a else Gcd(b, a % b)
  }

  lemma {:induction false} GcdDivides(a: nat, b: nat) returns (p: nat, q: nat)
    ensures a == p * Gcd(a, b) && b == q * Gcd(a, b)
    decreases b
  {
    if b == 0 {
      p, q := 1, 0;
    } else {
      var g, n := Gcd(b, a % b), a / b;
      var s, t := GcdDivides(b, a % b);
      assert a == n * b + a % b;
      Factored(n, s, t, g);
      p, q := n * s + t, s;
    }
  }

  lemma Factored(n: nat, s: nat, t: nat, g: nat)
    ensures n * (s * g) + t * g == (n * s + t) * g
  {
  }

  /** Euclid's recursion also writes the divisor as a sum of multiples. */
  lemma {:induction false} Bezout(a: nat, b: nat) returns (x: int, y: int)
    ensures a * x + b * y == Gcd(a, b)
    decreases b
  {
    if b == 0 {
      x, y := 1, 0;
    } else {
      var n := a / b;
      var s, t := Bezout(b, a % b);
      assert a == n * b + a % b;
      Carried(a % b, b, n, s, t);
      x, y := t, s - n * t;
    }
  }

  lemma Carried(r: int, b: int, n: int, s: int, t: int)
    ensures (n * b + r) * t + b * (s - n * t) == b * s + r * t
  {
    assert (n * b + r) * t == n * b * t + r * t;
    assert b * (s - n * t) == b * s - b * (n * t);
    assert n * b * t == b * (n * t);
  }
}

/** Which lines the loop of `drawLine` draws, in closed form. */
module LineLimits {
  import opened MachineInts
  import opened Lines
  import opened LineLoop
  import opened Divisors
  import opened Division

  /** The largest doubled `Excess` of a line with these deltas. */
  function Peak(minor: nat, major: nat): int
    requires minor <= major && major > 0
  {
    GcdIsPositive(major, minor);
    var g := Gcd(major, minor);
    2 * (major - minor) + 2 * g * (major / (2 * g))
  }

  lemma GcdIsPositive(a: nat, b: nat)
    requires a > 0
    ensures Gcd(a, b) > 0
  {
    var p, q := GcdDivides(a, b);
  }

  lemma HalfOfMultiple(p: nat, g: nat)
    requires g > 0
    ensures p * g / (2 * g) == p / 2
  {
    var h, r := p / 2, p % 2;
    assert p * g == h * (2 * g) + r * g;
    Parts(h, r * g, 2 * g);
  }

  /** How far a dot lies beside the true line, in units of `major`: always a multiple of the divisor. */
  function Aside(k: nat, minor: nat, major: nat): int { k * minor - Nearest(k, minor, major) * major }

  lemma AsideIsExcess(k: nat, minor: nat, major: nat)
    ensures Excess(k, minor, major) == major - minor - Aside(k, minor, major)
  {
  }

  lemma AsideIsMultiple(k: nat, minor: nat, major: nat, p: nat, q: nat, g: nat)
    requires major == p * g && minor == q * g
    ensures Aside(k, minor, major) == g * (k * q - Nearest(k, minor, major) * p)
  {
    var r := Nearest(k, minor, major);
    assert k * (q * g) == g * (k * q) && r * (p * g) == g * (r * p);
    assert g * (k * q) - g * (r * p) == g * (k * q - r * p);
  }

  lemma MultipleAtLeast(t: int, p: nat, g: nat)
    requires g > 0 && 2 * (g * t) >= 0 - p * g
    ensures 0 - g * t <= g * (p / 2)
  {
    var u := 2 * t + p;
    assert u * g == 2 * (g * t) + p * g;
    NotNegative(u, g);
    ProductNotNegative(p / 2 + t, g);
    assert g * (p / 2 + t) == g * (p / 2) + g * t;
  }

  lemma ProductNotNegative(n: int, g: nat)
    requires n >= 0
    ensures g * n >= 0
  {
  }

  lemma PeakBounds(k: nat, minor: nat, major: nat)
    requires minor <= major && major > 0
    ensures 2 * Excess(k, minor, major) <= Peak(minor, major)
  {
    hide Nearest, Excess, Aside, Gcd;
    var p, q := GcdDivides(major, minor);
    var g := Gcd(major, minor);
    GcdIsPositive(major, minor);
    HalfOfMultiple(p, g);
    AsideIsMultiple(k, minor, major, p, q, g);
    AsideIsLow(k, minor, major);
    MultipleAtLeast(k * q - Nearest(k, minor, major) * p, p, g);
    AsideIsExcess(k, minor, major);
    assert 2 * g * (p / 2) == 2 * (g * (p / 2));
  }

  lemma AsideIsLow(k: nat, minor: nat, major: nat)
    requires major > 0
    ensures 2 * Aside(k, minor, major) >= 0 - major
  {
    NearestBounds(k, minor, major);
  }

  /** A dot that lies aside by a given multiple of the divisor, for any multiple up to half a unit. */
  lemma AsideIsTaken(minor: nat, major: nat, f: nat) returns (k: nat)
    requires major > 0 && 2 * (f * Gcd(major, minor)) <= major
    ensures k < major && Aside(k, minor, major) == 0 - f * Gcd(major, minor)
  {
    hide Gcd, Nearest;
    var g := Gcd(major, minor);
    var x, y := Bezout(major, minor);
    var all := 0 - f * y;
    var z := all / major;
    k := all % major;
    assert all == major * z + k;
    var r := f * x - z * minor;
    Combined(minor, major, f, g, x, y, z, k);
    NotNegative(r, major);
    NearestUnique(k, minor, major, r);
  }

  lemma NotNegative(r: int, major: nat)
    requires major > 0 && r * major >= 0
    ensures r >= 0
  {
  }

  lemma Combined(minor: nat, major: nat, f: nat, g: nat, x: int, y: int, z: int, k: nat)
    requires major * x + minor * y == g && 0 - f * y == major * z + k
    ensures k * minor == (f * x - z * minor) * major - f * g
    ensures (f * x - z * minor) * major >= 0
  {
    calc {
      k * minor;
      (0 - f * y - major * z) * minor;
      (0 - f * y) * minor - major * z * minor;
      0 - f * (minor * y) - major * z * minor;
      0 - f * (g - major * x) - major * z * minor;
      f * (major * x) - f * g - major * z * minor;
    }
    assert (f * x - z * minor) * major == f * x * major - z * minor * major;
    assert f * x * major == f * (major * x) && z * minor * major == major * z * minor;
  }

  lemma PeakIsReached(minor: nat, major: nat) returns (k: nat)
    requires minor <= major && major > 0
    ensures k < major && 2 * Excess(k, minor, major) == Peak(minor, major)
  {
    hide Nearest, Excess, Aside, Gcd;
    var p, q := GcdDivides(major, minor);
    var g := Gcd(major, minor);
    GcdIsPositive(major, minor);
    HalfOfMultiple(p, g);
    var f := p / 2;
    assert 2 * (f * g) <= p * g by { TimesOrdered(2 * f, p, g); assert 2 * f * g == 2 * (f * g); }
    k := AsideIsTaken(minor, major, f);
    AsideIsExcess(k, minor, major);
    assert 2 * g * f == 2 * (f * g);
  }

  /** No doubled error term leaves `int16_t`, computed from the two deltas alone. */
  predicate LineFits(dx: nat, dy: nat) {
    if dx == 0 && dy == 0 then true
    else if dx >= dy then Peak(dy, dx) <= 0x7FFF
    else Peak(dx, dy) <= 0x8000
  }

  /** The lines whose deltas fit `int16_t` and that are drawn: read off the deltas and their divisor. */
  lemma DrawnLinesFit(l: Line)
    requires l.DX() <= 0x7FFF && l.DY() <= 0x7FFF
    ensures TestsHold(l) <==> LineFits(l.DX(), l.DY())
  {
    hide Peak, Excess, TestsHold;
    TestsHoldWithoutOverflow(l);
    if l.Length() > 0 {
      var minor, major := if l.DX() >= l.DY() then l.DY() else l.DX(), l.Length();
      var top := PeakIsReached(minor, major);
      ErrIsExcess(l, top);
      forall k: nat | k < l.Length()
        ensures LineFits(l.DX(), l.DY()) ==> FitsI16(2 * Err(l, k))
      {
        PeakBounds(k, minor, major);
        ErrIsExcess(l, k);
        ErrBounds(l, k);
      }
      assert FitsI16(2 * Err(l, top)) ==> LineFits(l.DX(), l.DY());
    }
  }

  /** Slopes with a large divisor reach further than the bound for all slopes: one third, and level lines. */
  lemma LongerLinesFit()
    ensures LineFits(16383, 5461) && !LineFits(16386, 5462)
    ensures LineFits(16383, 0) && !LineFits(16384, 0)
  {
  }
}
