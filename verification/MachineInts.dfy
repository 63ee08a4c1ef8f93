/** The fixed-width integers of the C++ code, and its narrowing conversions. */
module MachineInts {
  type byte = n: int | 0 <= n < 0x100
  type uint16 = n: int | 0 <= n < 0x10000
  type int16 = n: int | -0x8000 <= n < 0x8000

  predicate FitsI16(n: int) { -0x8000 <= n < 0x8000 }

  /** Conversion of an `int` to `int16_t`. */
  function I16(n: int): int16 {
    if FitsI16(n) then n else (n + 0x8000) % 0x10000 - 0x8000
  }

  /** Conversion of an `int` to `uint16_t`. */
  function U16(n: int): uint16 { n % 0x10000 }

  /** Both conversions keep the value modulo 2^16. */
  lemma ConversionsAreModular(n: int)
    ensures (I16(n) - n) % 0x10000 == 0 && (U16(n) - n) % 0x10000 == 0
  {
  }

  function Abs(n: int): nat { if n < 0 then -n else n }
}

/** Loops of the form `for (int16_t i = from; i < to; i++)`, where `to` is an `int`. */
module Counters {
  import opened MachineInts

  /** The counter after `k` increments. */
  function Counted(from: int16, k: nat): int16 {
    if k == 0 then from else I16(Counted(from, k - 1) + 1)
  }

  lemma {:induction false} CountsUp(from: int16, k: nat)
    requires from + k <= 0x7FFF
    ensures Counted(from, k) == from + k
  {
    if k > 0 { CountsUp(from, k - 1); }
  }

  /** The counter reaches its bound exactly when that is at most 32767; otherwise it wraps for ever. */
  lemma LoopEnds(from: int16, to: int)
    ensures (exists k :: Counted(from, k) >= to) <==> to <= 0x7FFF
  {
    if to <= 0x7FFF {
      var k: nat := if from < to then to - from else 0;
      CountsUp(from, k);
      assert Counted(from, k) >= to;
    }
  }
}

/** Products and quotients of naturals. */
module Division {
  lemma Nonempty(a: nat, b: nat, n: nat)
    requires n < a * b
    ensures a > 0 && b > 0
  {
  }

  lemma Quotient(n: nat, size: nat, count: nat)
    requires size > 0 && (n < size * count || n < count * size)
    ensures n / size < count
  {
    assert size * count == count * size;
    assert n == size * (n / size) + n % size;
    if n / size >= count { Ordered(count, n / size, size); }
  }

  lemma Ordered(a: nat, b: nat, m: nat)
    requires a <= b
    ensures a * m <= b * m && m * a <= m * b
  {
  }

  lemma Parts(q: nat, r: nat, size: nat)
    requires r < size
    ensures (q * size + r) / size == q && (q * size + r) % size == r
  {
    var n := q * size + r;
    assert n == size * (n / size) + n % size;
    if n / size < q { Ordered(n / size + 1, q, size); }
    if n / size > q { Ordered(q + 1, n / size, size); }
  }

  lemma Fits(q: nat, r: nat, size: nat, count: nat)
    requires q < count && r < size
    ensures q * size + r < count * size && q * size + r < size * count
  {
    Ordered(q + 1, count, size);
    assert (q + 1) * size == q * size + size && count * size == size * count;
  }
}

/** The bits of a byte. */
module ByteBits {
  predicate Bit(b: bv8, i: nat) {
    match i
    case 0 => b & 0x01 != 0
    case 1 => b & 0x02 != 0
    case 2 => b & 0x04 != 0
    case 3 => b & 0x08 != 0
    case 4 => b & 0x10 != 0
    case 5 => b & 0x20 != 0
    case 6 => b & 0x40 != 0
    case _ => b & 0x80 != 0
  }

  /** `1 << i` */
  function Mask(i: nat): bv8 {
    match i
    case 0 => 0x01
    case 1 => 0x02
    case 2 => 0x04
    case 3 => 0x08
    case 4 => 0x10
    case 5 => 0x20
    case 6 => 0x40
    case _ => 0x80
  }

  lemma BitOfMask(i: nat, j: nat)
    requires i < 8 && j < 8
    ensures Bit(Mask(i), j) == (i == j)
  {
  }

  lemma BitOfOr(a: bv8, b: bv8, j: nat)
    requires j < 8
    ensures Bit(a | b, j) == (Bit(a, j) || Bit(b, j))
  {
    match j
    case 0 =>
    case 1 =>
    case 2 =>
    case 3 =>
    case 4 =>
    case 5 =>
    case 6 =>
    case _ =>
  }

  lemma BitOfAndNot(a: bv8, b: bv8, j: nat)
    requires j < 8
    ensures Bit(a & !b, j) == (Bit(a, j) && !Bit(b, j))
  {
    match j
    case 0 =>
    case 1 =>
    case 2 =>
    case 3 =>
    case 4 =>
    case 5 =>
    case 6 =>
    case _ =>
  }

  lemma FlipIsSetOrClear(b: bv8, i: nat)
    requires i < 8
    ensures b ^ Mask(i) == if Bit(b, i) then b & !Mask(i) else b | Mask(i)
  {
    match i
    case 0 =>
    case 1 =>
    case 2 =>
    case 3 =>
    case 4 =>
    case 5 =>
    case 6 =>
    case _ =>
  }

  /** `b |= 1 << i` sets one bit. */
  lemma SetsBit(b: bv8, i: nat, j: nat)
    requires i < 8 && j < 8
    ensures Bit(b | Mask(i), j) == (i == j || Bit(b, j))
  {
    hide Bit, Mask;
    BitOfMask(i, j);
    BitOfOr(b, Mask(i), j);
  }

  /** `b &= ~(1 << i)` clears one bit. */
  lemma ClearsBit(b: bv8, i: nat, j: nat)
    requires i < 8 && j < 8
    ensures Bit(b & !Mask(i), j) == (i != j && Bit(b, j))
  {
    hide Bit, Mask;
    BitOfMask(i, j);
    BitOfAndNot(b, Mask(i), j);
  }

  /** `b ^= 1 << i` flips one bit. */
  lemma FlipsBit(b: bv8, i: nat, j: nat)
    requires i < 8 && j < 8
    ensures Bit(b ^ Mask(i), j) == ((i == j) != Bit(b, j))
  {
    hide Bit, Mask;
    FlipIsSetOrClear(b, i);
    SetsBit(b, i, j);
    ClearsBit(b, i, j);
  }

  lemma AllOrNothing(i: nat)
    requires i < 8
    ensures !Bit(0x00, i) && Bit(0xFF, i)
  {
  }
}
