/** Rotating and shifting a strip, as sequences. */
module StripMoves {
  /** The first `k` elements move behind the others. */
  function Left<T>(s: seq<T>, k: nat): seq<T>
    requires k <= |s|
  {
    s[k..] + s[..k]
  }

  function Reversed<T>(s: seq<T>): (r: seq<T>)
    ensures |r| == |s|
  {
    seq(|s|, i requires 0 <= i < |s| => s[|s| - 1 - i])
  }

  /** A left rotation seen from the other end: the last `k` elements move before the others. */
  function Right<T>(s: seq<T>, k: nat): (r: seq<T>)
    requires k <= |s|
    ensures r == s[|s| - k..] + s[..|s| - k]
  {
    ReversedLeft(s, k);
    Reversed(Left(Reversed(s), k))
  }

  lemma ReversedLeft<T>(s: seq<T>, k: nat)
    requires k <= |s|
    ensures Reversed(Left(Reversed(s), k)) == s[|s| - k..] + s[..|s| - k]
  {
    var r := Reversed(s);
    assert Reversed(r[k..] + r[..k]) == Reversed(r[..k]) + Reversed(r[k..]);
    assert Reversed(r[..k]) == s[|s| - k..] && Reversed(r[k..]) == s[..|s| - k];
  }

  lemma RightUndoesLeft<T>(s: seq<T>, k: nat)
    requires k <= |s|
    ensures Right(Left(s, k), k) == s && Left(Right(s, k), k) == s
  {
    var l, r := Left(s, k), Right(s, k);
    assert l[|s| - k..] == s[..k] && l[..|s| - k] == s[k..];
    assert r[k..] == s[..|s| - k] && r[..k] == s[|s| - k..];
  }

  lemma RotationKeepsColours<T>(s: seq<T>, k: nat)
    requires k <= |s|
    ensures multiset(Left(s, k)) == multiset(s) && multiset(Right(s, k)) == multiset(s)
  {
    assert s == s[..k] + s[k..] && s == s[..|s| - k] + s[|s| - k..];
  }

  /** Where each element of a turned strip comes from. */
  lemma LeftAt<T>(s: seq<T>, k: nat, i: nat)
    requires k <= |s| && i < |s|
    ensures |Left(s, k)| == |s|
    ensures Left(s, k)[i] == if i + k < |s| then s[i + k] else s[i + k - |s|]
  {
  }

  /** Turns add up modulo the length. */
  lemma LeftAdds<T>(s: seq<T>, a: nat, b: nat)
    requires a < |s| && b < |s|
    ensures Left(Left(s, a), b) == Left(s, (a + b) % |s|)
  {
    var n := |s|;
    var c := if a + b < n then a + b else a + b - n;
    Reduced(a + b, n);
    assert |Left(s, a)| == n;
    var l, m := Left(Left(s, a), b), Left(s, c);
    assert |l| == n && |m| == n;
    forall i | 0 <= i < n
      ensures l[i] == m[i]
    {
      TwoTurnsAt(s, a, b, c, i);
    }
    assert l == m;
  }

  lemma TwoTurnsAt<T>(s: seq<T>, a: nat, b: nat, c: nat, i: nat)
    requires a < |s| && b < |s| && i < |s| && (c == a + b < |s| || c == a + b - |s|)
    ensures |Left(s, a)| == |s| && |Left(Left(s, a), b)| == |s| && |Left(s, c)| == |s|
    ensures Left(Left(s, a), b)[i] == Left(s, c)[i]
  {
    hide Left;
    var j := if i + b < |s| then i + b else i + b - |s|;
    LeftAt(s, a, j);
    LeftAt(Left(s, a), b, i);
    LeftAt(s, c, i);
  }

  lemma Reduced(n: nat, size: nat)
    requires n < 2 * size
    ensures n % size == if n < size then n else n - size
  {
    ModUnique(n, if n < size then 0 else 1, if n < size then n else n - size, size);
  }

  lemma RightIsLeft<T>(s: seq<T>, k: nat)
    requires k < |s|
    ensures Right(s, k) == Left(s, (|s| - k) % |s|)
  {
    Reduced(|s| - k, |s|);
    FullTurn(s);
  }

  lemma FullTurn<T>(s: seq<T>)
    ensures Right(s, 0) == Left(s, 0) == s
  {
  }

  /** What the bus does for any count: the count is reduced first. */
  function RotatedLeft<T>(s: seq<T>, count: nat): (r: seq<T>)
    ensures |r| == |s|
  {
    if s == [] then s else Left(s, count % |s|)
  }

  function RotatedRight<T>(s: seq<T>, count: nat): (r: seq<T>)
    ensures |r| == |s|
  {
    if s == [] then s else Right(s, count % |s|)
  }

  datatype Move = ToLeft(count: nat) | ToRight(count: nat)

  function Moved<T>(s: seq<T>, moves: seq<Move>): seq<T>
    decreases |moves|
  {
    if moves == [] then s else Moved(Turned(s, moves[0]), moves[1..])
  }

  /** The net number of places the moves go to the left. */
  function Net(moves: seq<Move>): int
    decreases |moves|
  {
    if moves == [] then 0 else Amount(moves[0]) + Net(moves[1..])
  }

  lemma ModSum(a: int, b: int, n: nat)
    requires n > 0
    ensures (a % n + b) % n == (a + b) % n
  {
    var q, r := a / n, a % n;
    assert a == n * q + r;
    ModShift(r + b, q, n);
    assert r + b + n * q == a + b;
  }

  lemma ModShift(a: int, q: int, n: nat)
    requires n > 0
    ensures (a + n * q) % n == a % n
  {
    var p, r := a / n, a % n;
    assert a == n * p + r;
    assert a + n * q == n * (p + q) + r;
    ModUnique(a + n * q, p + q, r, n);
  }

  lemma Multiple(n: nat, d: int)
    requires n > 0 && d != 0
    ensures n * d >= n || n * d <= 0 - n
  {
  }

  lemma ModUnique(a: int, q: int, r: int, n: nat)
    requires n > 0 && a == n * q + r && 0 <= r < n
    ensures a % n == r
  {
    var p := a / n;
    assert n * (p - q) == r - a % n;
    if p != q { Multiple(n, p - q); }
  }

  function Turned<T>(s: seq<T>, move: Move): (r: seq<T>)
    ensures |r| == |s|
  {
    match move case ToLeft(n) => RotatedLeft(s, n) case ToRight(n) => RotatedRight(s, n)
  }

  function Amount(move: Move): int {
    match move case ToLeft(n) => n case ToRight(n) => 0 - n
  }

  lemma OneMove<T>(s: seq<T>, move: Move)
    requires s != []
    ensures Turned(s, move) == Left(s, Amount(move) % |s|)
  {
    hide Left, Right;
    match move
    case ToLeft(n) =>
    case ToRight(n) =>
      var c := n % |s|;
      RightIsLeft(s, c);
      Opposite(n, |s|);
  }

  /** Over any run of rotations the strip is turned by the net sum, modulo its length. */
  lemma {:induction false} MovesAddUp<T>(s: seq<T>, moves: seq<Move>)
    requires s != []
    ensures Moved(s, moves) == Left(s, Net(moves) % |s|)
    decreases |moves|
  {
    hide Left, Turned, Amount;
    if moves == [] {
      FullTurn(s);
      ModUnique(0, 0, 0, |s|);
    } else {
      var t, a, b := Turned(s, moves[0]), Amount(moves[0]), Net(moves[1..]);
      OneMove(s, moves[0]);
      MovesAddUp(t, moves[1..]);
      LeftAdds(s, a % |s|, b % |s|);
      Sums(a, b, |s|);
    }
  }

  lemma Sums(a: int, b: int, n: nat)
    requires n > 0
    ensures (a % n + b % n) % n == (a + b) % n
  {
    ModSum(a, b % n, n);
    ModSum(b, a, n);
    assert a + b % n == b % n + a && a + b == b + a;
  }

  lemma Opposite(c: nat, n: nat)
    requires n > 0
    ensures (n - c % n) % n == (-(c as int)) % n
  {
    var r := c % n;
    assert c == n * (c / n) + r;
    ModShift(n - r, -(c / n) - 1, n);
    assert n - r + n * (-(c / n) - 1) == -(c as int);
  }

  // ---- Shifts -----------------------------------------------------------------------

  /** Drop `k` at the front and pad with `blank`; likewise at the back. */
  function DropLeft<T>(s: seq<T>, k: nat, blank: T): seq<T> {
    if k <= |s| then s[k..] + seq(k, _ => blank) else seq(|s|, _ => blank)
  }

  function DropRight<T>(s: seq<T>, k: nat, blank: T): seq<T> {
    if k <= |s| then seq(k, _ => blank) + s[..|s| - k] else seq(|s|, _ => blank)
  }

  /** What `ShiftLeft` really leaves: past the length its blanking loop never starts. */
  function ShiftedLeft<T>(s: seq<T>, k: nat, blank: T): seq<T> {
    if k <= |s| then DropLeft(s, k, blank) else RotatedLeft(s, k)
  }

  /** The shifts, pixel by pixel. */
  lemma ShiftedAt<T>(s: seq<T>, k: nat, blank: T, i: nat)
    requires i < |s|
    ensures |DropLeft(s, k, blank)| == |s| && DropLeft(s, k, blank)[i] == if i + k < |s| then s[i + k] else blank
    ensures |DropRight(s, k, blank)| == |s| && DropRight(s, k, blank)[i] == if i >= k then s[i - k] else blank
  {
  }

  /** It is the shift one expects exactly when the count is within the length, or everything is blank anyway. */
  lemma LeftShiftIsRight<T>(s: seq<T>, k: nat, blank: T)
    ensures ShiftedLeft(s, k, blank) == DropLeft(s, k, blank)
       <==> k <= |s| || forall i :: 0 <= i < |s| ==> s[i] == blank
  {
    hide RotatedLeft;
    if k > |s| {
      var l := RotatedLeft(s, k);
      if i :| 0 <= i < |s| && s[i] != blank {
        var j := StaysIn(s, k, i);
        assert DropLeft(s, k, blank)[j] == blank;
      } else {
        OnlyBlanks(s, k, blank);
        assert l == DropLeft(s, k, blank);
      }
    }
  }

  /** A turn loses no element and makes up none. */
  lemma StaysIn<T>(s: seq<T>, k: nat, i: nat) returns (j: nat)
    requires i < |s|
    ensures j < |s| && RotatedLeft(s, k)[j] == s[i]
  {
    hide Left;
    var m := k % |s|;
    j := if i >= m then i - m else i + |s| - m;
    LeftAt(s, m, j);
  }

  lemma OnlyBlanks<T>(s: seq<T>, k: nat, blank: T)
    requires forall i :: 0 <= i < |s| ==> s[i] == blank
    ensures forall i :: 0 <= i < |s| ==> RotatedLeft(s, k)[i] == blank
  {
  }

  /** Blanking the end of a strip turned left, or the start of one turned right, leaves the shift. */
  lemma BlankedIsShifted<T>(s: seq<T>, k: nat, t: seq<T>, blank: T)
    requires k <= |s| && |t| == |s| && |RotatedLeft(s, k)| == |s|
    requires forall i :: 0 <= i < |s| ==> t[i] == if i < |s| - k then RotatedLeft(s, k)[i] else blank
    ensures t == DropLeft(s, k, blank)
  {
    var d := DropLeft(s, k, blank);
    if k < |s| { Reduced(k, |s|); }
    assert forall i :: 0 <= i < |s| - k ==> RotatedLeft(s, k)[i] == s[k + i];
    assert forall i :: 0 <= i < |s| ==> t[i] == d[i];
  }

  lemma RightAt<T>(s: seq<T>, k: nat)
    requires k < |s|
    ensures forall i :: k <= i < |s| ==> RotatedRight(s, k)[i] == s[i - k]
  {
    Reduced(k, |s|);
  }

  lemma BlankedIsShiftedRight<T>(s: seq<T>, k: nat, t: seq<T>, blank: T)
    requires |t| == |s| && |RotatedRight(s, k)| == |s|
    requires forall i :: 0 <= i < |s| ==> t[i] == if i < k then blank else RotatedRight(s, k)[i]
    ensures t == DropRight(s, k, blank)
  {
    hide RotatedRight;
    if k < |s| { RightAt(s, k); }
    var d := DropRight(s, k, blank);
    assert t == d;
  }
}

/** The bus. */
module NeoPixelBus {
  import opened MachineInts
  import opened StripMoves

  datatype RgbColor = RgbColor(R: byte, G: byte, B: byte)

  const BLACK := RgbColor(0, 0, 0)

  class Bus {
    var pixels: seq<RgbColor>
    var dirty: bool

    /** The pixel count was given as a `uint16_t`. */
    ghost predicate Valid()
      reads this
    {
      |pixels| <= 0xFFFF
    }

    constructor (count: uint16)
      ensures Valid() && pixels == seq(count, _ => RgbColor(0, 0, 0)) && !dirty
    {
      pixels := seq(count, _ => BLACK);
      dirty := false;
    }

    method SetPixelColor(index: uint16, color: RgbColor)
      modifies this
      ensures pixels == if index < |old(pixels)| then old(pixels)[index := color] else old(pixels)
      ensures dirty == (old(dirty) || index < |old(pixels)|)
    {
      if index < |pixels| {
        pixels := pixels[index := color];
        dirty := true;
      }
    }

    method RotateLeft(count: uint16)
      modifies this
      ensures pixels == RotatedLeft(old(pixels), count)
      ensures dirty == (old(dirty) || pixels != [])
    {
      if pixels == [] { return; }
      var k := count % |pixels|;
      pixels := pixels[k..] + pixels[..k];
      dirty := true;
    }

    method RotateRight(count: uint16)
      modifies this
      ensures pixels == RotatedRight(old(pixels), count)
      ensures dirty == (old(dirty) || pixels != [])
    {
      if pixels == [] { return; }
      var k := count % |pixels|;
      var backwards := Reversed(pixels);
      pixels := Reversed(backwards[k..] + backwards[..k]);
      dirty := true;
    }

    method ShiftLeft(count: uint16)
      requires Valid()
      modifies this
      ensures Valid() && pixels == ShiftedLeft(old(pixels), count, RgbColor(0, 0, 0))
      ensures dirty == (old(dirty) || old(pixels) != [])
    {
      hide RotatedLeft, DropLeft;
      ghost var s := pixels;
      RotateLeft(count);
      ghost var turned := pixels;
      assert |turned| == |s|;
      var n := |pixels|;
      var i: int := U16(n - count as int);
      ghost var start := i;
      assert start == if count <= n then n - count else 0x10000 + n - count;
      while i < n
        invariant start <= i && |pixels| == n && (start <= n ==> i <= n)
        invariant dirty == (old(dirty) || s != [])
        invariant forall k :: 0 <= k < n ==> pixels[k] == if start <= k < i then BLACK else turned[k]
      {
        pixels := pixels[i := BLACK];
        i := i + 1;
      }
      if count <= n {
        BlankedIsShifted(s, count, pixels, BLACK);
      } else {
        assert pixels == turned;
      }
    }

    method ShiftRight(count: uint16)
      requires Valid()
      modifies this
      ensures Valid() && pixels == DropRight(old(pixels), count, RgbColor(0, 0, 0))
      ensures dirty == (old(dirty) || old(pixels) != [])
    {
      hide RotatedRight, DropRight;
      ghost var s := pixels;
      RotateRight(count);
      ghost var turned := pixels;
      assert |turned| == |s|;
      var n := |pixels|;
      var i := 0;
      while i < count && i < n
        invariant 0 <= i <= n && |pixels| == n && i <= count
        invariant dirty == (old(dirty) || s != [])
        invariant forall k :: 0 <= k < n ==> pixels[k] == if k < i then BLACK else turned[k]
      {
        pixels := pixels[i := BLACK];
        i := i + 1;
      }
      BlankedIsShiftedRight(s, count, pixels, BLACK);
    }
  }
}
