/**
 The 1-Wire CRC.  `Register` is the shift register the bus documents: generator
 x^8 + x^5 + x^4 + 1, least significant bit first.  `crc8` takes a byte at a time
 instead, by XORing one constant for every bit that is set.
 */
module Crc8 {
  import opened ByteBits

  // ---- The shift register -----------------------------------------------------

  /** One bit enters; if it differs from the bit that falls out, the generator (0x8C, reflected) is subtracted. */
  function Shift(c: bv8, bit: bool): bv8 {
    if (c & 1 == 1) != bit then (c >> 1) ^ 0x8C else c >> 1
  }

  function Register(bits: seq<bool>, c: bv8): bv8 {
    if bits == [] then c else Register(bits[1..], Shift(c, bits[0]))
  }

  /** A byte on the wire, least significant bit first. */
  function Bits(b: bv8): (bits: seq<bool>)
    ensures |bits| == 8
  {
    seq(8, i requires 0 <= i < 8 => Bit(b, i))
  }

  function Wire(m: seq<bv8>): (bits: seq<bool>)
    ensures |bits| == 8 * |m|
  {
    if m == [] then [] else Bits(m[0]) + Wire(m[1..])
  }

  // ---- The byte step ------------------------------------------------------------

  function When(b: bool, k: bv8): bv8 { if b then k else 0 }

  /** The constants the loop body combines for the bits of `mix`. */
  function Mixed(mix: bv8): bv8 {
    When(mix & 0x01 != 0, 0x5E) ^ When(mix & 0x02 != 0, 0xBC) ^ When(mix & 0x04 != 0, 0x61) ^ When(mix & 0x08 != 0, 0xC2)
    ^ When(mix & 0x10 != 0, 0x9D) ^ When(mix & 0x20 != 0, 0x23) ^ When(mix & 0x40 != 0, 0x46) ^ When(mix & 0x80 != 0, 0x8C)
  }

  function CrcFrom(m: seq<bv8>, c: bv8): bv8 {
    if m == [] then c else CrcFrom(m[1..], Mixed(Plus(m[0], c)))
  }

  function Crc(m: seq<bv8>): bv8 { CrcFrom(m, 0) }

  method ComputeCrc8(addr: array<bv8>, len: nat) returns (crc: bv8)
    requires len <= addr.Length && len <= 255
    ensures crc == Crc(addr[..len])
    ensures crc == Register(Wire(addr[..len]), 0)
  {
    hide Shift, Mixed;
    crc := 0;
    ghost var m := addr[..len];
    for i := 0 to len
      invariant CrcFrom(m[i..], crc) == Crc(m)
    {
      crc := Mix(addr[i] ^ crc);
      assert m[i..][0] == addr[i] && m[i..][1..] == m[i + 1..];
    }
    assert m[len..] == [];
    CrcIsRegister(m, 0);
  }

  /** The body of the loop, one test a bit. */
  method Mix(mix: bv8) returns (crc: bv8)
    ensures crc == Mixed(mix)
  {
    crc := 0;
    if mix & 0x01 != 0 { crc := crc ^ 0x5E; }
    if mix & 0x02 != 0 { crc := crc ^ 0xBC; }
    if mix & 0x04 != 0 { crc := crc ^ 0x61; }
    if mix & 0x08 != 0 { crc := crc ^ 0xC2; }
    if mix & 0x10 != 0 { crc := crc ^ 0x9D; }
    if mix & 0x20 != 0 { crc := crc ^ 0x23; }
    if mix & 0x40 != 0 { crc := crc ^ 0x46; }
    if mix & 0x80 != 0 { crc := crc ^ 0x8C; }
  }

  // ---- Byte steps and bit steps agree ---------------------------------------------

  /** `n` zero bits enter. */
  function Clock(c: bv8, n: nat): bv8
    decreases n
  {
    if n == 0 then c else Clock(Shift(c, false), n - 1)
  }

  /** The eight shifts of a byte of zeros, folded into one table-free step. */
  lemma EightClocks(x: bv8)
    ensures Mixed(x) == Shift(Shift(Shift(Shift(Shift(Shift(Shift(Shift(
                          x, false), false), false), false), false), false), false), false)
  {
  }

  function Half(b: bv8): bv8 { b >> 1 }
  function Plus(a: bv8, b: bv8): bv8 { a ^ b }

  /** A bit can be XORed into the register before it is clocked, with the rest of its byte. */
  lemma OneBitIn(b: bv8, c: bv8)
    ensures Shift(Plus(b, c), false) == Plus(Half(b), Shift(c, Bit(b, 0)))
  {
  }

  lemma HalfTests(b: bv8)
    ensures Bit(Half(b), 0) == Bit(b, 1) && Bit(Half(b), 1) == Bit(b, 2)
    ensures Bit(Half(b), 2) == Bit(b, 3) && Bit(Half(b), 3) == Bit(b, 4)
    ensures Bit(Half(b), 4) == Bit(b, 5) && Bit(Half(b), 5) == Bit(b, 6)
    ensures Bit(Half(b), 6) == Bit(b, 7)
  {
  }

  lemma NothingLeft(b: bv8, c: bv8)
    ensures Plus(Half(Half(Half(Half(Half(Half(Half(Half(b)))))))), c) == c
  {
  }

  lemma ByteIsEightShifts(b: bv8, c: bv8)
    ensures Mixed(Plus(b, c))
         == Shift(Shift(Shift(Shift(Shift(Shift(Shift(Shift(c, Bit(b, 0)), Bit(b, 1)), Bit(b, 2)),
              Bit(b, 3)), Bit(b, 4)), Bit(b, 5)), Bit(b, 6)), Bit(b, 7))
  {
    hide *;
    EightClocks(Plus(b, c));
    var b1, c1 := Half(b), Shift(c, Bit(b, 0));
    var b2, c2 := Half(b1), Shift(c1, Bit(b, 1));
    var b3, c3 := Half(b2), Shift(c2, Bit(b, 2));
    var b4, c4 := Half(b3), Shift(c3, Bit(b, 3));
    var b5, c5 := Half(b4), Shift(c4, Bit(b, 4));
    var b6, c6 := Half(b5), Shift(c5, Bit(b, 5));
    var b7, c7 := Half(b6), Shift(c6, Bit(b, 6));
    HalfTests(b);
    HalfTests(b1);
    HalfTests(b2);
    HalfTests(b3);
    HalfTests(b4);
    HalfTests(b5);
    HalfTests(b6);
    OneBitIn(b, c);
    OneBitIn(b1, c1);
    OneBitIn(b2, c2);
    OneBitIn(b3, c3);
    OneBitIn(b4, c4);
    OneBitIn(b5, c5);
    OneBitIn(b6, c6);
    OneBitIn(b7, c7);
    NothingLeft(b, Shift(c7, Bit(b, 7)));
  }

  lemma {:induction false} RegisterConcat(a: seq<bool>, b: seq<bool>, c: bv8)
    ensures Register(a + b, c) == Register(b, Register(a, c))
  {
    if a == [] {
      assert a + b == b;
    } else {
      assert (a + b)[1..] == a[1..] + b;
      RegisterConcat(a[1..], b, Shift(c, a[0]));
    }
  }

  lemma RegisterByte(b: bv8, c: bv8)
    ensures Register(Bits(b), c) == Mixed(Plus(b, c))
  {
    hide Shift, Mixed, Plus, Bit;
    ByteIsEightShifts(b, c);
    RegisterEight(Bits(b), c);
  }

  lemma RegisterEight(s: seq<bool>, c: bv8)
    requires |s| == 8
    ensures Register(s, c)
         == Shift(Shift(Shift(Shift(Shift(Shift(Shift(Shift(c, s[0]), s[1]), s[2]), s[3]), s[4]), s[5]), s[6]), s[7])
  {
    hide Shift;
    RegisterTwo(s, c);
    var c2 := Shift(Shift(c, s[0]), s[1]);
    RegisterTwo(s[2..], c2);
    var c4 := Shift(Shift(c2, s[2]), s[3]);
    RegisterTwo(s[4..], c4);
    RegisterTwo(s[6..], Shift(Shift(c4, s[4]), s[5]));
  }

  lemma RegisterTwo(s: seq<bool>, c: bv8)
    requires |s| >= 2
    ensures Register(s, c) == Register(s[2..], Shift(Shift(c, s[0]), s[1]))
  {
    assert s[1..][1..] == s[2..];
  }

  /** The byte-wise loop computes what the shift register computes, on every message. */
  lemma {:induction false} CrcIsRegister(m: seq<bv8>, c: bv8)
    ensures CrcFrom(m, c) == Register(Wire(m), c)
  {
    hide Shift, Mixed, Bits, Plus;
    if m != [] {
      RegisterConcat(Bits(m[0]), Wire(m[1..]), c);
      RegisterByte(m[0], c);
      CrcIsRegister(m[1..], Mixed(Plus(m[0], c)));
    }
  }

  /** The worked example of Maxim's Application Note 27: the ROM code 02 1C B8 01 00 00 00 has CRC A2. */
  lemma RomCode()
    ensures Crc([0x02, 0x1C, 0xB8, 0x01, 0x00, 0x00, 0x00]) == 0xA2
  {
    hide Mixed, Plus;
    MixedBytes();
    FirstByte(0x02, [0x1C, 0xB8, 0x01, 0x00, 0x00, 0x00], 0x00);
    FirstByte(0x1C, [0xB8, 0x01, 0x00, 0x00, 0x00], 0xBC);
    FirstByte(0xB8, [0x01, 0x00, 0x00, 0x00], 0xAF);
    FirstByte(0x01, [0x00, 0x00, 0x00], 0x1E);
    FirstByte(0x00, [0x00, 0x00], 0xDC);
    FirstByte(0x00, [0x00], 0xF4);
    FirstByte(0x00, [], 0x15);
    assert [0x02, 0x1C, 0xB8, 0x01, 0x00, 0x00, 0x00] == [0x02] + [0x1C, 0xB8, 0x01, 0x00, 0x00, 0x00];
    assert [0x1C, 0xB8, 0x01, 0x00, 0x00, 0x00] == [0x1C] + [0xB8, 0x01, 0x00, 0x00, 0x00];
    assert [0xB8, 0x01, 0x00, 0x00, 0x00] == [0xB8] + [0x01, 0x00, 0x00, 0x00];
    assert [0x01, 0x00, 0x00, 0x00] == [0x01] + [0x00, 0x00, 0x00];
    assert [0x00, 0x00, 0x00] == [0x00] + [0x00, 0x00] && [0x00, 0x00] == [0x00] + [0x00] && [0x00] == [0x00] + [];
  }

  lemma FirstByte(b: bv8, m: seq<bv8>, c: bv8)
    ensures CrcFrom([b] + m, c) == CrcFrom(m, Mixed(Plus(b, c)))
  {
    assert ([b] + m)[1..] == m;
  }

  lemma MixedBytes()
    ensures Mixed(Plus(0x02, 0x00)) == 0xBC && Mixed(Plus(0x1C, 0xBC)) == 0xAF && Mixed(Plus(0xB8, 0xAF)) == 0x1E
    ensures Mixed(Plus(0x01, 0x1E)) == 0xDC && Mixed(Plus(0x00, 0xDC)) == 0xF4 && Mixed(Plus(0x00, 0xF4)) == 0x15
    ensures Mixed(Plus(0x00, 0x15)) == 0xA2
  {
  }

  // ---- Linearity --------------------------------------------------------------------

  function Differs(a: seq<bool>, b: seq<bool>): (d: seq<bool>)
    requires |a| == |b|
    ensures |d| == |a| && forall i :: 0 <= i < |d| ==> d[i] == (a[i] != b[i])
  {
    seq(|a|, i requires 0 <= i < |a| => a[i] != b[i])
  }

  lemma ShiftIsLinear(c: bv8, d: bv8, a: bool, b: bool)
    ensures Shift(Plus(c, d), a != b) == Plus(Shift(c, a), Shift(d, b))
  {
    hide Shift;
    ShiftTakesBit(c, a);
    ShiftTakesBit(d, b);
    ShiftTakesBit(Plus(c, d), a != b);
    ClockIsLinear(c, d);
  }

  /** The incoming bit adds the polynomial, or not. */
  lemma ShiftTakesBit(c: bv8, bit: bool)
    ensures Shift(c, bit) == Plus(Shift(c, false), if bit then 0x8C else 0)
  {
  }

  lemma ClockIsLinear(c: bv8, d: bv8)
    ensures Shift(Plus(c, d), false) == Plus(Shift(c, false), Shift(d, false))
  {
  }

  /** The register of a difference is the difference of the registers. */
  lemma {:induction false} RegisterIsLinear(a: seq<bool>, b: seq<bool>, c: bv8, d: bv8)
    requires |a| == |b|
    ensures Register(Differs(a, b), Plus(c, d)) == Plus(Register(a, c), Register(b, d))
  {
    hide Shift, Plus, Differs;
    if a != [] {
      ShiftIsLinear(c, d, a[0], b[0]);
      assert Differs(a, b)[1..] == Differs(a[1..], b[1..]);
      RegisterIsLinear(a[1..], b[1..], Shift(c, a[0]), Shift(d, b[0]));
    }
  }

  function Xor(a: seq<bv8>, b: seq<bv8>): (r: seq<bv8>)
    requires |a| == |b|
    ensures |r| == |a| && forall i :: 0 <= i < |r| ==> r[i] == Plus(a[i], b[i])
  {
    seq(|a|, i requires 0 <= i < |a| => Plus(a[i], b[i]))
  }

  lemma BitDiffers(a: bv8, b: bv8, i: nat)
    requires i < 8
    ensures Bit(Plus(a, b), i) == (Bit(a, i) != Bit(b, i))
  {
    match i
    case 0 =>
    case 1 =>
    case 2 =>
    case 3 =>
    case 4 =>
    case 5 =>
    case 6 =>
    case _ =>
  }

  lemma ByteDiffers(a: bv8, b: bv8)
    ensures Bits(Plus(a, b)) == Differs(Bits(a), Bits(b))
  {
    hide Bit, Plus;
    forall i: nat | i < 8 ensures Bits(Plus(a, b))[i] == Differs(Bits(a), Bits(b))[i] { BitDiffers(a, b, i); }
  }

  lemma {:induction false} WireDiffers(a: seq<bv8>, b: seq<bv8>)
    requires |a| == |b|
    ensures Wire(Xor(a, b)) == Differs(Wire(a), Wire(b))
  {
    hide Plus, Bit, Differs, Xor;
    if a == [] {
      assert Differs(Wire(a), Wire(b)) == [];
    } else {
      ByteDiffers(a[0], b[0]);
      assert Xor(a, b)[1..] == Xor(a[1..], b[1..]);
      WireDiffers(a[1..], b[1..]);
      DiffersConcat(Bits(a[0]), Bits(b[0]), Wire(a[1..]), Wire(b[1..]));
    }
  }

  lemma DiffersConcat(a: seq<bool>, b: seq<bool>, c: seq<bool>, d: seq<bool>)
    requires |a| == |b| && |c| == |d|
    ensures Differs(a + c, b + d) == Differs(a, b) + Differs(c, d)
  {
  }

  lemma NoDifference(c: bv8)
    ensures Plus(c, c) == 0 && Plus(c, 0) == c
  {
  }

  /** XOR-linearity on messages of equal length. */
  lemma CrcIsLinear(a: seq<bv8>, b: seq<bv8>)
    requires |a| == |b|
    ensures Crc(Xor(a, b)) == Plus(Crc(a), Crc(b))
    ensures Plus(Crc(a), Crc(b)) == Register(Differs(Wire(a), Wire(b)), 0)
  {
    hide Shift, Mixed, Plus;
    CrcIsRegister(a, 0);
    CrcIsRegister(b, 0);
    CrcIsRegister(Xor(a, b), 0);
    WireDiffers(a, b);
    RegisterIsLinear(Wire(a), Wire(b), 0, 0);
    NoDifference(0);
  }

  lemma SameCrc(a: seq<bv8>, b: seq<bv8>)
    requires |a| == |b|
    ensures Crc(a) == Crc(b) <==> Register(Differs(Wire(a), Wire(b)), 0) == 0
  {
    hide *;
    CrcIsLinear(a, b);
    EqualIffNoDifference(Crc(a), Crc(b));
  }

  lemma EqualIffNoDifference(a: bv8, b: bv8)
    ensures a == b <==> Plus(a, b) == 0
  {
  }
}

/** Which corruptions of a message the CRC cannot miss. */
module Crc8Detection {
  import opened Division
  import opened ByteBits
  import opened Crc8

  /** The bits in which two messages of equal length differ on the wire. */
  function Damage(a: seq<bv8>, b: seq<bv8>): (d: seq<bool>)
    requires |a| == |b|
    ensures |d| == 8 * |a|
  {
    Differs(Wire(a), Wire(b))
  }

  function Ones(bits: seq<bool>): nat {
    if bits == [] then 0 else (if bits[0] then 1 else 0) + Ones(bits[1..])
  }

  predicate AllFalse(bits: seq<bool>) { forall i :: 0 <= i < |bits| ==> !bits[i] }

  // ---- An odd number of flipped bits ------------------------------------------------

  predicate Odd(c: bv8) {
    ((Bit(c, 0) != Bit(c, 1)) != (Bit(c, 2) != Bit(c, 3))) != ((Bit(c, 4) != Bit(c, 5)) != (Bit(c, 6) != Bit(c, 7)))
  }

  /** The generator has an even number of terms, so the register carries the parity of its input. */
  lemma ShiftKeepsParity(c: bv8, bit: bool)
    ensures Odd(Shift(c, bit)) == (Odd(c) != bit)
  {
  }

  lemma {:induction false} RegisterParity(bits: seq<bool>, c: bv8)
    ensures Odd(Register(bits, c)) == (Odd(c) != (Ones(bits) % 2 == 1))
  {
    hide Odd, Shift;
    if bits != [] {
      ShiftKeepsParity(c, bits[0]);
      RegisterParity(bits[1..], Shift(c, bits[0]));
    }
  }

  lemma ZeroIsEven()
    ensures !Odd(0)
  {
  }

  /** Any odd number of flipped bits changes the CRC. */
  lemma OddErrorsAreDetected(a: seq<bv8>, b: seq<bv8>)
    requires |a| == |b| && Ones(Damage(a, b)) % 2 == 1
    ensures Crc(a) != Crc(b)
  {
    hide Odd, Shift;
    SameCrc(a, b);
    RegisterParity(Damage(a, b), 0);
    ZeroIsEven();
  }

  // ---- A burst of at most eight bits --------------------------------------------------

  lemma ShiftKeepsNonzero(c: bv8)
    ensures Shift(c, false) == 0 <==> c == 0
  {
  }

  lemma {:induction false} ZerosKeepNonzero(bits: seq<bool>, c: bv8)
    requires AllFalse(bits)
    ensures Register(bits, c) == Clock(c, |bits|) && (Register(bits, c) == 0 <==> c == 0)
  {
    hide Shift;
    if bits != [] {
      ShiftKeepsNonzero(c);
      ZerosKeepNonzero(bits[1..], Shift(c, false));
    }
  }

  /** Feeding a stretch of zero bits only clocks the register. */
  lemma ZeroStretch(d: seq<bool>, from: nat, to: nat, c: bv8)
    requires from <= to <= |d| && forall i :: from <= i < to ==> !d[i]
    ensures Register(d[from..], c) == Register(d[to..], Clock(c, to - from))
    ensures Clock(c, to - from) == 0 <==> c == 0
  {
    hide Shift;
    assert d[from..] == d[from..to] + d[to..];
    RegisterConcat(d[from..to], d[to..], c);
    ZerosKeepNonzero(d[from..to], c);
  }

  lemma ZeroTail(d: seq<bool>, from: nat, c: bv8)
    requires from <= |d| && forall i :: from <= i < |d| ==> !d[i]
    ensures Register(d[from..], c) == 0 <==> c == 0
  {
    hide Shift;
    ZerosKeepNonzero(d[from..], c);
  }

  lemma OneBit(d: seq<bool>, i: nat, c: bv8)
    requires i < |d|
    ensures Register(d[i..], c) == Register(d[i + 1..], Shift(c, d[i]))
  {
    hide Shift;
    assert d[i..][1..] == d[i + 1..];
  }

  function ByteOf(w: seq<bool>): bv8
    requires |w| == 8
  {
    When(w[0], 0x01) | When(w[1], 0x02) | When(w[2], 0x04) | When(w[3], 0x08)
    | When(w[4], 0x10) | When(w[5], 0x20) | When(w[6], 0x40) | When(w[7], 0x80)
  }

  lemma BitsOfByte(w: seq<bool>)
    requires |w| == 8
    ensures Bits(ByteOf(w)) == w
  {
    forall i: nat | i < 8 ensures Bit(ByteOf(w), i) == w[i] {
      match i
      case 0 =>
      case 1 =>
      case 2 =>
      case 3 =>
      case 4 =>
      case 5 =>
      case 6 =>
      case _ =>
    }
  }

  lemma MixedIsZero(x: bv8)
    ensures Mixed(x) == 0 <==> x == 0
  {
    hide Mixed, Shift;
    EightClocks(x);
    ShiftKeepsNonzero(x);
    var x1 := Shift(x, false);
    ShiftKeepsNonzero(x1);
    var x2 := Shift(x1, false);
    ShiftKeepsNonzero(x2);
    var x3 := Shift(x2, false);
    ShiftKeepsNonzero(x3);
    var x4 := Shift(x3, false);
    ShiftKeepsNonzero(x4);
    var x5 := Shift(x4, false);
    ShiftKeepsNonzero(x5);
    var x6 := Shift(x5, false);
    ShiftKeepsNonzero(x6);
    ShiftKeepsNonzero(Shift(x6, false));
  }

  lemma BitsOfZero()
    ensures AllFalse(Bits(0))
  {
  }

  lemma WindowIsSeen(w: seq<bool>)
    requires |w| == 8 && !AllFalse(w)
    ensures Register(w, 0) != 0
  {
    hide ByteOf, Mixed, Shift, Bit, Plus;
    BitsOfByte(w);
    BitsOfZero();
    RegisterByte(ByteOf(w), 0);
    NoDifference(ByteOf(w));
    MixedIsZero(ByteOf(w));
  }

  lemma BurstIsSeen(d: seq<bool>, p: nat)
    requires |d| >= 8 && !AllFalse(d)
    requires forall i :: 0 <= i < |d| && !(p <= i < p + 8) ==> !d[i]
    ensures Register(d, 0) != 0
  {
    hide Shift;
    var q := if p + 8 <= |d| then p else |d| - 8;
    var w := d[q..q + 8];
    var i :| 0 <= i < |d| && d[i];
    assert w[i - q];
    WindowIsSeen(w);
    assert d[0..] == d && d[|d|..] == [];
    ZeroStretch(d, 0, q, 0);
    assert d[q..] == w + d[q + 8..];
    RegisterConcat(w, d[q + 8..], 0);
    ZeroStretch(d, q + 8, |d|, Register(w, 0));
  }

  lemma {:induction false} BitsAreInjective(a: bv8, b: bv8)
    requires Bits(a) == Bits(b)
    ensures a == b
  {
    assert Bits(a)[0] == Bits(b)[0] && Bits(a)[1] == Bits(b)[1] && Bits(a)[2] == Bits(b)[2] && Bits(a)[3] == Bits(b)[3];
    assert Bits(a)[4] == Bits(b)[4] && Bits(a)[5] == Bits(b)[5] && Bits(a)[6] == Bits(b)[6] && Bits(a)[7] == Bits(b)[7];
  }

  lemma {:induction false} WireIsInjective(a: seq<bv8>, b: seq<bv8>)
    requires |a| == |b| && Wire(a) == Wire(b)
    ensures a == b
  {
    hide Bits;
    if a != [] {
      assert Wire(a)[..8] == Bits(a[0]) && Wire(b)[..8] == Bits(b[0]);
      assert Wire(a)[8..] == Wire(a[1..]) && Wire(b)[8..] == Wire(b[1..]);
      BitsAreInjective(a[0], b[0]);
      WireIsInjective(a[1..], b[1..]);
      assert a == [a[0]] + a[1..] && b == [b[0]] + b[1..];
    }
  }

  /** Two different messages whose difference fits into eight consecutive bits have different CRCs. */
  lemma BurstsAreDetected(a: seq<bv8>, b: seq<bv8>, p: nat)
    requires |a| == |b| && a != b
    requires forall i :: 0 <= i < 8 * |a| && !(p <= i < p + 8) ==> Wire(a)[i] == Wire(b)[i]
    ensures Crc(a) != Crc(b)
  {
    hide Shift, Bits;
    if AllFalse(Damage(a, b)) {
      forall i | 0 <= i < 8 * |a| ensures Wire(a)[i] == Wire(b)[i] { assert !Damage(a, b)[i]; }
      WireIsInjective(a, b);
    } else {
      BurstIsSeen(Damage(a, b), p);
      SameCrc(a, b);
    }
  }

  // ---- The appended check byte ----------------------------------------------------------

  lemma {:induction false} CrcOfAppended(m: seq<bv8>, b: bv8, c: bv8)
    ensures CrcFrom(m + [b], c) == Mixed(Plus(b, CrcFrom(m, c)))
  {
    hide Mixed, Plus;
    if m == [] {
      assert m + [b] == [b] && [b][1..] == [];
    } else {
      assert (m + [b])[1..] == m[1..] + [b];
      CrcOfAppended(m[1..], b, Mixed(Plus(m[0], c)));
    }
  }

  /** A message followed by one byte checks to zero exactly when that byte is its CRC. */
  lemma CheckByte(m: seq<bv8>, c: bv8)
    ensures Crc(m + [c]) == 0 <==> c == Crc(m)
  {
    hide Mixed, Plus;
    CrcOfAppended(m, c, 0);
    MixedIsZero(Plus(c, Crc(m)));
    EqualIffNoDifference(c, Crc(m));
  }

  // ---- Two flipped bits -------------------------------------------------------------------

  lemma {:induction false} ClockAdds(c: bv8, a: nat, b: nat)
    ensures Clock(c, a + b) == Clock(Clock(c, a), b)
    decreases a
  {
    hide Shift;
    if a > 0 { ClockAdds(Shift(c, false), a - 1, b); }
  }

  lemma ClockByte(c: bv8)
    ensures Clock(c, 8) == Mixed(c)
  {
    hide Shift, Mixed;
    EightClocks(c);
    ClockFour(c);
    ClockFour(Shift(Shift(Shift(Shift(c, false), false), false), false));
    ClockAdds(c, 4, 4);
  }

  lemma ClockFour(c: bv8)
    ensures Clock(c, 4) == Shift(Shift(Shift(Shift(c, false), false), false), false)
  {
    hide Shift;
    var c1 := Shift(c, false);
    var c2 := Shift(c1, false);
    assert Clock(c2, 2) == Shift(Shift(c2, false), false);
    assert Clock(c1, 3) == Clock(c2, 2);
  }

  lemma ShiftIsInjective(c: bv8, d: bv8)
    requires Shift(c, false) == Shift(d, false)
    ensures c == d
  {
  }

  lemma {:induction false} ClockIsInjective(c: bv8, d: bv8, n: nat)
    requires Clock(c, n) == Clock(d, n)
    ensures c == d
    decreases n
  {
    hide Shift;
    if n > 0 {
      ClockIsInjective(Shift(c, false), Shift(d, false), n - 1);
      ShiftIsInjective(c, d);
    }
  }

  lemma Sixteen(c: bv8, d: bv8, n: nat)
    requires Clock(c, n) == d
    ensures Clock(c, n + 8) == Mixed(d)
  {
    hide Mixed, Shift;
    ClockAdds(c, n, 8);
    ClockByte(d);
  }

  /** The register runs through 127 states before it repeats. */
  lemma FullPeriod()
    ensures Clock(0x8C, 127) == 0x8C && Clock(0x8C, 1) != 0x8C
  {
    hide Shift;
    Sixteen(0x8C, 0x8C, 0);
    Sixteen(0x8C, 0x2F, 8);
    Sixteen(0x8C, 0x62, 16);
    Sixteen(0x8C, 0xD9, 24);
    Sixteen(0x8C, 0xCB, 32);
    Sixteen(0x8C, 0xEA, 40);
    Sixteen(0x8C, 0x97, 48);
    Sixteen(0x8C, 0x92, 56);
    Sixteen(0x8C, 0xAD, 64);
    Sixteen(0x8C, 0x52, 72);
    Sixteen(0x8C, 0x67, 80);
    Sixteen(0x8C, 0xE6, 88);
    Sixteen(0x8C, 0x34, 96);
    Sixteen(0x8C, 0xDF, 104);
    Sixteen(0x8C, 0x16, 112);
    Sixteen(0x8C, 0x40, 120);
    assert Clock(0x8C, 128) == 0x46;
    FirstClock();
    ClockAdds(0x8C, 127, 1);
    ClockIsInjective(Clock(0x8C, 127), 0x8C, 1);
  }

  lemma FirstClock()
    ensures Clock(0x8C, 1) == 0x46
  {
    assert Shift(0x8C, false) == 0x46;
  }

  lemma PrimePeriod(r: nat)
    requires 1 < r < 127
    ensures 127 % r != 0
  {
    var q := 127 / r;
    assert 127 == r * q + 127 % r;
    if r <= 11 {
      assert r == 2 || r == 3 || r == 4 || r == 5 || r == 6 || r == 7 || r == 8 || r == 9 || r == 10 || r == 11;
    } else {
      Ordered(12, r, q);
      NotAProduct(r, q);
    }
  }

  lemma NotAProduct(r: nat, q: nat)
    requires 12 <= r < 127 && q <= 10
    ensures r * q != 127
  {
    assert q == 0 || q == 1 || q == 2 || q == 3 || q == 4 || q == 5 || q == 6 || q == 7 || q == 8 || q == 9 || q == 10;
  }

  lemma {:induction false} ClockMultiple(c: bv8, n: nat, k: nat)
    requires Clock(c, n) == c
    ensures Clock(c, n * k) == c
    decreases k
  {
    hide Shift;
    if k > 0 {
      ClockMultiple(c, n, k - 1);
      assert n * k == n + n * (k - 1);
      ClockAdds(c, n, n * (k - 1));
    }
  }

  lemma ClockRemainder(c: bv8, n: nat, period: nat)
    requires period > 0 && Clock(c, period) == c
    ensures Clock(c, n) == Clock(c, n % period)
  {
    hide Shift;
    ClockMultiple(c, period, n / period);
    assert n == period * (n / period) + n % period;
    ClockAdds(c, period * (n / period), n % period);
  }

  /** No shorter period: 127 is prime. */
  lemma {:induction false} NoShorterPeriod(r: nat)
    requires 0 < r < 127
    ensures Clock(0x8C, r) != 0x8C
  {
    hide Shift;
    FullPeriod();
    if r > 1 && Clock(0x8C, r) == 0x8C {
      PrimePeriod(r);
      ClockRemainder(0x8C, 127, r);
      NoShorterPeriod(127 % r);
    }
  }

  lemma PeriodIs127(k: nat)
    ensures Clock(0x8C, k) == 0x8C <==> k % 127 == 0
  {
    hide Shift;
    FullPeriod();
    ClockRemainder(0x8C, k, 127);
    if k % 127 != 0 { NoShorterPeriod(k % 127); }
  }

  lemma FeedOne(c: bv8)
    ensures Shift(c, true) == 0 <==> Shift(c, false) == 0x8C
    ensures Shift(0, true) == 0x8C
  {
  }

  lemma ClockOneMore(c: bv8, n: nat)
    ensures Clock(c, n + 1) == Shift(Clock(c, n), false)
  {
    hide Shift;
    ClockAdds(c, n, 1);
  }

  lemma TwoBitsAreSeen(d: seq<bool>, i: nat, j: nat)
    requires i < j < |d| && d[i] && d[j] && forall k :: 0 <= k < |d| && k != i && k != j ==> !d[k]
    ensures Register(d, 0) == 0 <==> (j - i) % 127 == 0
  {
    hide *;
    assert d[0..] == d;
    ZeroStretch(d, 0, i, 0);
    OneBit(d, i, 0);
    FeedOne(0);
    ZeroStretch(d, i + 1, j, 0x8C);
    var c := Clock(0x8C, j - i - 1);
    OneBit(d, j, c);
    FeedOne(c);
    ZeroTail(d, j + 1, Shift(c, true));
    ClockOneMore(0x8C, j - i - 1);
    PeriodIs127(j - i);
  }

  /** Two flipped bits go unnoticed exactly when a multiple of 127 bits lies between them. */
  lemma DoubleErrors(a: seq<bv8>, b: seq<bv8>, i: nat, j: nat)
    requires |a| == |b| && i < j < 8 * |a|
    requires forall k :: 0 <= k < 8 * |a| ==> ((Wire(a)[k] != Wire(b)[k]) <==> k == i || k == j)
    ensures Crc(a) == Crc(b) <==> (j - i) % 127 == 0
  {
    hide Shift, Bits;
    TwoBitsAreSeen(Damage(a, b), i, j);
    SameCrc(a, b);
  }

  lemma {:induction false} TwoOnes(d: seq<bool>) returns (i: nat, j: nat)
    requires Ones(d) == 2
    ensures i < j < |d| && d[i] && d[j] && forall k :: 0 <= k < |d| && k != i && k != j ==> !d[k]
  {
    if d[0] {
      i := 0;
      j := OneOne(d[1..]);
      j := j + 1;
    } else {
      i, j := TwoOnes(d[1..]);
      i, j := i + 1, j + 1;
    }
  }

  lemma {:induction false} OneOne(d: seq<bool>) returns (i: nat)
    requires Ones(d) == 1
    ensures i < |d| && d[i] && forall k :: 0 <= k < |d| && k != i ==> !d[k]
  {
    if d[0] {
      i := 0;
      NoOnes(d[1..]);
    } else {
      i := OneOne(d[1..]);
      i := i + 1;
    }
  }

  lemma {:induction false} NoOnes(d: seq<bool>)
    requires Ones(d) == 0
    ensures AllFalse(d)
  {
    if d != [] { NoOnes(d[1..]); }
  }

  /** Up to 15 bytes, and so for the 8-byte ROM code of a device, one to three flipped bits never go unnoticed. */
  lemma ThreeErrorsAreDetected(a: seq<bv8>, b: seq<bv8>)
    requires |a| == |b| <= 15 && 1 <= Ones(Damage(a, b)) <= 3
    ensures Crc(a) != Crc(b)
  {
    hide Shift, Bits;
    if Ones(Damage(a, b)) == 2 {
      var i, j := TwoOnes(Damage(a, b));
      TwoBitsAreSeen(Damage(a, b), i, j);
      SameCrc(a, b);
    } else {
      OddErrorsAreDetected(a, b);
    }
  }
}
