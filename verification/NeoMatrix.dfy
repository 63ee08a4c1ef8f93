/** The LED strip: three bytes a pixel, `uint16_t` pixel numbers. */
module NeoPixel {
  import opened MachineInts

  datatype Rgb = Rgb(r: byte, g: byte, b: byte)

  const BLACK := Rgb(0, 0, 0)

  /** `(r << 16) | (g << 8) | b` */
  function Packed(c: Rgb): int { c.r * 0x10000 + c.g * 0x100 + c.b }

  function Unpacked(c: nat): Rgb {
    Rgb(c / 0x10000 % 0x100, c / 0x100 % 0x100, c % 0x100)
  }

  lemma UnpackPacked(c: Rgb)
    ensures Unpacked(Packed(c)) == c
  {
  }

  /** The colours held by `num` pixels of a byte buffer. */
  function Leds(num: nat, pixels: seq<byte>): (r: seq<Rgb>)
    requires |pixels| == 3 * num
    ensures |r| == num
  {
    seq(num, i requires 0 <= i < num => Rgb(pixels[3 * i], pixels[3 * i + 1], pixels[3 * i + 2]))
  }

  class Strip {
    var num: uint16
    var pixels: seq<byte>

    ghost predicate Valid()
      reads this
    {
      |pixels| == 3 * num
    }

    ghost function Colors(): (r: seq<Rgb>)
      reads this
      requires Valid()
    {
      Leds(num, pixels)
    }

    constructor (n: uint16)
      ensures Valid() && num == n && Colors() == seq(n, _ => BLACK)
    {
      num := n;
      pixels := seq(3 * n, _ => 0);
    }

    method SetPixelColor(n: uint16, r: byte, g: byte, b: byte)
      requires Valid()
      modifies this
      ensures Valid() && num == old(num)
      ensures Colors() == if n < num then old(Colors())[n := Rgb(r, g, b)] else old(Colors())
      ensures n < num ==> pixels[3 * n] == r && pixels[3 * n + 1] == g && pixels[3 * n + 2] == b
    {
      if n >= num { return; }
      pixels := pixels[3 * n := r];
      pixels := pixels[3 * n + 1 := g];
      pixels := pixels[3 * n + 2 := b];
    }

    method SetPixelPacked(n: uint16, c: nat)
      requires Valid()
      modifies this
      ensures Valid() && num == old(num)
      ensures Colors() == if n < num then old(Colors())[n := Unpacked(c)] else old(Colors())
    {
      SetPixelColor(n, c / 0x10000 % 0x100, c / 0x100 % 0x100, c % 0x100);
    }

    method GetPixelColor(n: uint16) returns (c: int)
      requires Valid()
      ensures c == if n < num then Packed(Colors()[n]) else 0
    {
      if n >= num { return 0; }
      c := pixels[3 * n] as int * 0x10000 + pixels[3 * n + 1] as int * 0x100 + pixels[3 * n + 2];
    }

    /** `count == 0` means to the end; the subtraction is done in `uint16_t`. */
    method Fill(c: nat, first: uint16, count: uint16)
      requires Valid()
      modifies this
      ensures Valid() && num == old(num)
      ensures var n := if count == 0 then U16(num - first) else count;
              forall i :: 0 <= i < num ==>
                Colors()[i] == if first <= i < first + n then Unpacked(c) else old(Colors())[i]
    {
      var n := if count == 0 then U16(num as int - first) else count;
      var i: int := first;
      while i < first as int + n && i < num
        invariant Valid() && num == old(num) && first <= i
        invariant forall k :: 0 <= k < num ==>
          Colors()[k] == if first <= k < i && k < first as int + n then Unpacked(c) else old(Colors())[k]
        decreases num - i
      {
        SetPixelPacked(i, c);
        i := i + 1;
      }
    }

    method Clear()
      requires Valid()
      modifies this
      ensures Valid() && num == old(num) && Colors() == seq(num, _ => BLACK)
    {
      pixels := seq(|pixels|, _ => 0);
    }

    /** Growing appends black pixels, shrinking drops the last ones. */
    method UpdateLength(n: uint16)
      requires Valid()
      modifies this
      ensures Valid() && num == n
      ensures forall i :: 0 <= i < n ==> Colors()[i] == if i < old(num) then old(Colors())[i] else BLACK
    {
      pixels := if n <= num then pixels[..3 * n] else pixels + seq(3 * (n - num), _ => 0);
      num := n;
    }
  }
}

/** Where a matrix coordinate sits on the strip. */
module MatrixLayout {
  import opened Division

  /** A grid of `tilesX` by `tilesY` panels of `matW` by `matH` pixels, and how a panel is wired. */
  datatype Layout = Layout(matW: nat, matH: nat, tilesX: nat, tilesY: nat,
                           bottom: bool, right: bool, columns: bool, zigzag: bool)
  {
    function Panel(): nat { matW * matH }
    function Width(): nat { matW * tilesX }
    function Height(): nat { matH * tilesY }
    function Count(): nat { Panel() * (tilesX * tilesY) }
    function Lines(): nat { if columns then matW else matH }
    function LineLength(): nat { if columns then matH else matW }
    predicate Inside(x: int, y: int) { 0 <= x < Width() && 0 <= y < Height() }
  }

  /** The flag byte of the constructor. */
  function FromFlags(matW: nat, matH: nat, tilesX: nat, tilesY: nat, flags: bv8): Layout {
    Layout(matW, matH, tilesX, tilesY, flags & 0x01 != 0, flags & 0x02 != 0, flags & 0x04 != 0, flags & 0x08 != 0)
  }

  function Flip(on: bool, n: nat, size: nat): nat
    requires n < size
  {
    if on then size - 1 - n else n
  }

  /** The number of a pixel within its panel. */
  function LocalIndex(l: Layout, x: nat, y: nat): nat
    requires x < l.matW && y < l.matH
  {
    var ly := Flip(l.bottom, y, l.matH);
    var lx := Flip(l.right, x, l.matW);
    if l.columns then lx * l.matH + Flip(l.zigzag && lx % 2 == 1, ly, l.matH)
    else ly * l.matW + Flip(l.zigzag && ly % 2 == 1, lx, l.matW)
  }

  function PixelIndex(l: Layout, x: int, y: int): int {
    if !l.Inside(x, y) then -1
    else
      CoordinateParts(l, x, y);
      var tileX, tileY := x / l.matW, y / l.matH;
      (tileY * l.tilesX + tileX) * l.Panel() + LocalIndex(l, x % l.matW, y % l.matH)
  }

  // ---- The way back -----------------------------------------------------------------

  datatype Coordinate = Coordinate(x: int, y: int)

  /** The place `place` of line `line`, where a line is a column or a row of the panel. */
  function FromLine(l: Layout, line: nat, place: nat): Coordinate
    requires line < l.Lines() && place < l.LineLength()
  {
    var at := Flip(l.zigzag && line % 2 == 1, place, l.LineLength());
    if l.columns then Coordinate(Flip(l.right, line, l.matW), Flip(l.bottom, at, l.matH))
    else Coordinate(Flip(l.right, at, l.matW), Flip(l.bottom, line, l.matH))
  }

  function LocalPixel(l: Layout, p: nat): Coordinate
    requires p < l.Panel()
  {
    PanelLines(l, p);
    FromLine(l, p / l.LineLength(), p % l.LineLength())
  }

  lemma PanelLines(l: Layout, p: nat)
    requires p < l.Panel()
    ensures l.LineLength() > 0 && p / l.LineLength() < l.Lines()
  {
    Nonempty(l.matW, l.matH, p);
    Quotient(p, l.LineLength(), l.Lines());
  }

  /** The coordinate whose colour pixel `i` of the strip shows. */
  function PixelAt(l: Layout, i: nat): Coordinate
    requires i < l.Count()
  {
    Nonempty(l.Panel(), l.tilesX * l.tilesY, i);
    var tile := i / l.Panel();
    Quotient(i, l.Panel(), l.tilesX * l.tilesY);
    Nonempty(l.tilesX, l.tilesY, tile);
    var p := LocalPixel(l, i % l.Panel());
    Coordinate(tile % l.tilesX * l.matW + p.x, tile / l.tilesX * l.matH + p.y)
  }

  lemma CoordinateParts(l: Layout, x: nat, y: nat)
    requires l.Inside(x, y)
    ensures l.matW > 0 && l.matH > 0
    ensures x / l.matW < l.tilesX && y / l.matH < l.tilesY
  {
    Nonempty(l.matW, l.tilesX, x);
    Nonempty(l.matH, l.tilesY, y);
    Quotient(x, l.matW, l.tilesX);
    Quotient(y, l.matH, l.tilesY);
  }

  // ---- The layout is a bijection ------------------------------------------------------

  lemma LocalThere(l: Layout, x: nat, y: nat)
    requires x < l.matW && y < l.matH
    ensures LocalIndex(l, x, y) < l.Panel() && LocalPixel(l, LocalIndex(l, x, y)) == Coordinate(x, y)
  {
    var ly := Flip(l.bottom, y, l.matH);
    var lx := Flip(l.right, x, l.matW);
    if l.columns {
      var r := Flip(l.zigzag && lx % 2 == 1, ly, l.matH);
      Fits(lx, r, l.matH, l.matW);
      Parts(lx, r, l.matH);
    } else {
      var r := Flip(l.zigzag && ly % 2 == 1, lx, l.matW);
      Fits(ly, r, l.matW, l.matH);
      Parts(ly, r, l.matW);
    }
  }

  lemma LineBack(l: Layout, line: nat, place: nat)
    requires line < l.Lines() && place < l.LineLength()
    ensures var c := FromLine(l, line, place);
      0 <= c.x < l.matW && 0 <= c.y < l.matH && LocalIndex(l, c.x, c.y) == line * l.LineLength() + place
  {
  }

  lemma LocalBack(l: Layout, p: nat)
    requires p < l.Panel()
    ensures var c := LocalPixel(l, p);
            0 <= c.x < l.matW && 0 <= c.y < l.matH && LocalIndex(l, c.x, c.y) == p
  {
    hide FromLine, LocalIndex;
    PanelLines(l, p);
    LineBack(l, p / l.LineLength(), p % l.LineLength());
  }

  /** Every coordinate of the grid has a pixel, and that pixel shows this coordinate. */
  lemma CoordinateThere(l: Layout, x: int, y: int)
    requires l.Inside(x, y)
    ensures 0 <= PixelIndex(l, x, y) < l.Count()
    ensures PixelAt(l, PixelIndex(l, x, y)) == Coordinate(x, y)
  {
    hide LocalIndex, LocalPixel;
    CoordinateParts(l, x, y);
    var tx, ty := x / l.matW, y / l.matH;
    var lx, ly := x % l.matW, y % l.matH;
    LocalThere(l, lx, ly);
    var tile, p := ty * l.tilesX + tx, LocalIndex(l, lx, ly);
    Fits(ty, tx, l.tilesX, l.tilesY);
    Fits(tile, p, l.Panel(), l.tilesX * l.tilesY);
    Parts(tile, p, l.Panel());
    Parts(ty, tx, l.tilesX);
    assert x == tx * l.matW + lx && y == ty * l.matH + ly;
  }

  /** Every pixel of the strip shows a coordinate, and is that coordinate's pixel. */
  lemma PixelBack(l: Layout, i: nat)
    requires i < l.Count()
    ensures var c := PixelAt(l, i); l.Inside(c.x, c.y) && PixelIndex(l, c.x, c.y) == i
  {
    hide LocalIndex, LocalPixel;
    Nonempty(l.Panel(), l.tilesX * l.tilesY, i);
    var tile, p := i / l.Panel(), i % l.Panel();
    Quotient(i, l.Panel(), l.tilesX * l.tilesY);
    Nonempty(l.tilesX, l.tilesY, tile);
    Quotient(tile, l.tilesX, l.tilesY);
    LocalBack(l, p);
    var c := LocalPixel(l, p);
    var tx, ty := tile % l.tilesX, tile / l.tilesX;
    Fits(tx, c.x, l.matW, l.tilesX);
    Fits(ty, c.y, l.matH, l.tilesY);
    Parts(tx, c.x, l.matW);
    Parts(ty, c.y, l.matH);
    assert tile == ty * l.tilesX + tx;
    assert i == tile * l.Panel() + p;
  }

  // ---- Serpentine order ---------------------------------------------------------------

  function Distance(a: Coordinate, b: Coordinate): nat {
    (if a.x < b.x then b.x - a.x else a.x - b.x) + (if a.y < b.y then b.y - a.y else a.y - b.y)
  }

  /** The next number is in the same line, or first in the next one. */
  lemma NextParts(p: nat, size: nat)
    requires size > 0
    ensures if p % size + 1 < size then (p + 1) / size == p / size && (p + 1) % size == p % size + 1
            else (p + 1) / size == p / size + 1 && (p + 1) % size == 0
  {
    assert p == p / size * size + p % size;
    if p % size + 1 < size {
      Parts(p / size, p % size + 1, size);
    } else {
      assert (p / size + 1) * size == p / size * size + size;
      Parts(p / size + 1, 0, size);
    }
  }

  lemma AlongLine(l: Layout, line: nat, place: nat)
    requires line < l.Lines() && place + 1 < l.LineLength()
    ensures Distance(FromLine(l, line, place), FromLine(l, line, place + 1)) == 1
  {
  }

  lemma AroundTheBend(l: Layout, line: nat)
    requires l.zigzag && line + 1 < l.Lines() && l.LineLength() > 0
    ensures Distance(FromLine(l, line, l.LineLength() - 1), FromLine(l, line + 1, 0)) == 1
  {
    assert (line + 1) % 2 == 1 <==> line % 2 == 0;
  }

  lemma LocalNeighbours(l: Layout, p: nat)
    requires l.zigzag && p + 1 < l.Panel()
    ensures Distance(LocalPixel(l, p), LocalPixel(l, p + 1)) == 1
  {
    hide FromLine, Distance;
    PanelLines(l, p);
    PanelLines(l, p + 1);
    NextParts(p, l.LineLength());
    var line, place := p / l.LineLength(), p % l.LineLength();
    if place + 1 < l.LineLength() { AlongLine(l, line, place); } else { AroundTheBend(l, line); }
  }

  /** With zigzag wiring, consecutive pixels of a panel are neighbours on the grid. */
  lemma ZigzagIsContinuous(l: Layout, i: nat)
    requires l.zigzag && i + 1 < l.Count() && (i + 1) % l.Panel() != 0
    ensures Distance(PixelAt(l, i), PixelAt(l, i + 1)) == 1
  {
    hide LocalPixel;
    Nonempty(l.Panel(), l.tilesX * l.tilesY, i);
    NextParts(i, l.Panel());
    LocalNeighbours(l, i % l.Panel());
  }
}

/** The matrix over its strip. */
module NeoMatrix {
  import opened MachineInts
  import opened NeoPixel
  import opened MatrixLayout
  import opened Wrappers

  /** RGB565 to eight bits a channel. */
  function Expanded(color: uint16): Rgb {
    Rgb(color / 0x800 % 0x20 * 8, color / 0x20 % 0x40 * 4, color % 0x20 * 8)
  }

  /** `width()` and `height()`: swapped by the odd rotations, and kept in an `int16_t`. */
  function ShownWidth(l: Layout, rotation: nat): int16 { I16(if rotation % 2 == 1 then l.Height() else l.Width()) }
  function ShownHeight(l: Layout, rotation: nat): int16 { I16(if rotation % 2 == 1 then l.Width() else l.Height()) }

  /** The strip is told its length, and the pixel number, as `uint16_t`. */
  function StripLength(l: Layout): uint16 { U16(l.Count()) }

  /** The LED that `drawPixel` writes for a coordinate, if any. */
  function Reached(l: Layout, rotation: nat, x: int16, y: int16): Option<nat> {
    if x < 0 || y < 0 || x >= ShownWidth(l, rotation) || y >= ShownHeight(l, rotation) || !l.Inside(x, y) then None
    else
      CoordinateThere(l, x, y);
      var n := U16(PixelIndex(l, x, y));
      if n < StripLength(l) then Some(n) else None
  }

  function Drawn(l: Layout, rotation: nat, leds: seq<Rgb>, x: int16, y: int16, color: uint16): (r: seq<Rgb>)
    requires |leds| == StripLength(l)
    ensures |r| == |leds|
  {
    match Reached(l, rotation, x, y)
    case Some(n) => leds[n := Expanded(color)]
    case None => leds
  }

  class Matrix {
    const layout: Layout
    const strip: Strip
    var rotation: nat

    ghost predicate Valid()
      reads this, strip
    {
      strip.Valid() && strip.num == StripLength(layout)
    }

    constructor (matW: nat, matH: nat, tilesX: nat, tilesY: nat, flags: bv8)
      ensures Valid() && layout == FromFlags(matW, matH, tilesX, tilesY, flags) && rotation == 0 && fresh(strip)
      ensures strip.Colors() == seq(StripLength(layout), _ => BLACK)
    {
      var l := FromFlags(matW, matH, tilesX, tilesY, flags);
      layout := l;
      strip := new Strip(StripLength(l));
      rotation := 0;
    }

    method DrawPixel(x: int16, y: int16, color: uint16)
      requires Valid()
      modifies strip
      ensures Valid()
      ensures strip.Colors() == Drawn(layout, rotation, old(strip.Colors()), x, y, color)
    {
      if x < 0 || y < 0 || x >= ShownWidth(layout, rotation) || y >= ShownHeight(layout, rotation) { return; }
      var idx := PixelIndex(layout, x, y);
      if layout.Inside(x, y) { CoordinateThere(layout, x, y); }
      if idx >= 0 {
        var r, g, b := color / 0x800 % 0x20 * 8, color / 0x20 % 0x40 * 4, color % 0x20 * 8;
        strip.SetPixelColor(U16(idx), r, g, b);
      }
    }

    method FillScreen(color: uint16)
      requires Valid()
      modifies strip
      ensures Valid()
      ensures strip.Colors() == seq(|old(strip.Colors())|, _ => Expanded(color))
    {
      var r, g, b := color / 0x800 % 0x20 * 8, color / 0x20 % 0x40 * 4, color % 0x20 * 8;
      for i := 0 to strip.num
        invariant Valid() && strip.num == old(strip.num)
        invariant forall k :: 0 <= k < i ==> strip.Colors()[k] == Expanded(color)
      {
        strip.SetPixelColor(i, r, g, b);
      }
    }
  }

  // ---- When the whole grid can be drawn -----------------------------------------------

  ghost predicate Drawable(l: Layout, x: int, y: int) {
    && FitsI16(x) && FitsI16(y)
    && Reached(l, 0, x, y) == Some(PixelIndex(l, x, y))
  }

  /** Every coordinate of an unrotated grid reaches its own LED exactly when the
      LEDs can be counted in 16 bits and the sides measured in 15. */
  lemma WholeGridIsDrawable(l: Layout)
    requires l.Count() > 0
    ensures (forall x, y :: l.Inside(x, y) ==> Drawable(l, x, y))
       <==> l.Count() <= 0xFFFF && l.Width() <= 0x7FFF && l.Height() <= 0x7FFF
  {
    hide Drawable;
    SidesNonempty(l);
    if l.Count() <= 0xFFFF && l.Width() <= 0x7FFF && l.Height() <= 0x7FFF {
      forall x, y | l.Inside(x, y) ensures Drawable(l, x, y) { SmallIsDrawable(l, x, y); }
    } else if l.Width() > 0x7FFF {
      LongSideIsNot(l, l.Width() - 1, 0);
    } else if l.Height() > 0x7FFF {
      LongSideIsNot(l, 0, l.Height() - 1);
    } else {
      LastLedIsNot(l);
    }
  }

  lemma SmallIsDrawable(l: Layout, x: int, y: int)
    requires l.Count() <= 0xFFFF && l.Width() <= 0x7FFF && l.Height() <= 0x7FFF && l.Inside(x, y)
    ensures Drawable(l, x, y)
  {
    hide PixelIndex, PixelAt, U16;
    CoordinateThere(l, x, y);
    Untruncated(PixelIndex(l, x, y));
    Untruncated(l.Count());
  }

  lemma Untruncated(n: nat)
    requires n <= 0xFFFF
    ensures U16(n) == n
  {
  }

  lemma LongSideIsNot(l: Layout, x: int, y: int)
    requires (l.Width() > 0x7FFF && x == l.Width() - 1) || (l.Height() > 0x7FFF && y == l.Height() - 1)
    ensures !Drawable(l, x, y)
  {
    hide PixelIndex, PixelAt;
  }

  /** The LED whose number is the truncated strip length has no place on the strip. */
  lemma LastLedIsNot(l: Layout)
    requires l.Count() > 0xFFFF
    ensures exists x, y :: l.Inside(x, y) && !Drawable(l, x, y)
  {
    hide PixelIndex, PixelAt;
    var n: nat := StripLength(l);
    PixelBack(l, n);
    var c := PixelAt(l, n);
    assert l.Inside(c.x, c.y) && !Drawable(l, c.x, c.y);
  }

  lemma SidesNonempty(l: Layout)
    requires l.Count() > 0
    ensures l.Width() > 0 && l.Height() > 0
  {
    PixelBack(l, 0);
  }

  // ---- Drawing everything is filling ----------------------------------------------------

  /** A coordinate as `drawPixel` takes it. */
  datatype Dot = Dot(x: int16, y: int16)

  function DrawnAll(l: Layout, leds: seq<Rgb>, dots: seq<Dot>, color: uint16): (r: seq<Rgb>)
    requires |leds| == StripLength(l)
    ensures |r| == |leds|
    decreases |dots|
  {
    if dots == [] then leds
    else DrawnAll(l, Drawn(l, 0, leds, dots[0].x, dots[0].y, color), dots[1..], color)
  }

  lemma {:induction false} DrawnStays(l: Layout, leds: seq<Rgb>, dots: seq<Dot>, color: uint16, n: nat)
    requires |leds| == StripLength(l) && n < |leds|
    requires leds[n] == Expanded(color) || exists i :: 0 <= i < |dots| && Reached(l, 0, dots[i].x, dots[i].y) == Some(n)
    ensures DrawnAll(l, leds, dots, color)[n] == Expanded(color)
    decreases |dots|
  {
    hide Expanded, Reached;
    if dots != [] {
      var next := Drawn(l, 0, leds, dots[0].x, dots[0].y, color);
      if next[n] != Expanded(color) {
        var i :| 0 <= i < |dots| && Reached(l, 0, dots[i].x, dots[i].y) == Some(n);
        assert dots[1..][i - 1] == dots[i];
      }
      DrawnStays(l, next, dots[1..], color, n);
    }
  }

  /** The coordinate that lights a given LED. */
  lemma LedIsReached(l: Layout, n: nat) returns (d: Dot)
    requires n < l.Count() <= 0xFFFF && l.Width() <= 0x7FFF && l.Height() <= 0x7FFF
    ensures l.Inside(d.x, d.y) && Reached(l, 0, d.x, d.y) == Some(n)
  {
    hide PixelIndex, PixelAt, Reached;
    PixelBack(l, n);
    d := Dot(PixelAt(l, n).x, PixelAt(l, n).y);
    ReachedWithin(l, 0, d.x, d.y);
  }

  /** Drawing all coordinates in one colour, in any order and however often, is `fillScreen`. */
  lemma DrawingAllIsFilling(l: Layout, leds: seq<Rgb>, dots: seq<Dot>, color: uint16)
    requires |leds| == l.Count() <= 0xFFFF && l.Width() <= 0x7FFF && l.Height() <= 0x7FFF
    requires forall d: Dot :: l.Inside(d.x, d.y) ==> d in dots
    ensures DrawnAll(l, leds, dots, color) == seq(|leds|, _ => Expanded(color))
  {
    hide Expanded, Reached;
    forall n: nat | n < |leds| ensures DrawnAll(l, leds, dots, color)[n] == Expanded(color) {
      var d := LedIsReached(l, n);
      var i :| 0 <= i < |dots| && dots[i] == d;
      DrawnStays(l, leds, dots, color, n);
    }
  }

  /** Rotating only swaps the bounds that are checked first. */
  lemma ReachedWithin(l: Layout, rotation: nat, x: int16, y: int16)
    requires l.Count() <= 0xFFFF && l.Width() <= 0x7FFF && l.Height() <= 0x7FFF && l.Inside(x, y)
    ensures var w, h := if rotation % 2 == 1 then l.Height() else l.Width(),
                        if rotation % 2 == 1 then l.Width() else l.Height();
            Reached(l, rotation, x, y) == if x < w && y < h then Some(PixelIndex(l, x, y)) else None
  {
    hide PixelIndex, PixelAt, U16;
    CoordinateThere(l, x, y);
    Untruncated(PixelIndex(l, x, y));
    Untruncated(l.Count());
  }

  /** So a turned grid is drawable throughout exactly when it is square. */
  lemma TurnedGrid(l: Layout, rotation: nat)
    requires 0 < l.Count() <= 0xFFFF && l.Width() <= 0x7FFF && l.Height() <= 0x7FFF
    requires rotation % 2 == 1
    ensures (forall x: int16, y: int16 :: l.Inside(x, y) ==> Reached(l, rotation, x, y) == Some(PixelIndex(l, x, y)))
       <==> l.Width() == l.Height()
  {
    hide PixelIndex, Reached;
    SidesNonempty(l);
    forall x: int16, y: int16 | l.Inside(x, y)
      ensures Reached(l, rotation, x, y)
           == if x < l.Height() && y < l.Width() then Some(PixelIndex(l, x, y)) else None
    {
      ReachedWithin(l, rotation, x, y);
    }
    if l.Width() > l.Height() {
      var x: int16 := l.Width() - 1;
      assert l.Inside(x, 0) && Reached(l, rotation, x, 0) == None;
    } else if l.Width() < l.Height() {
      var y: int16 := l.Height() - 1;
      assert l.Inside(0, y) && Reached(l, rotation, 0, y) == None;
    }
  }
}
