/** Buffers that pack eight one-bit pixels into a byte. */
module PackedBits {
  import opened ByteBits

  /** One bit of a byte buffer. */
  datatype Cell = Cell(idx: nat, bit: nat)

  ghost function AllCells(): iset<Cell> { iset c: Cell | c.bit < 8 }

  predicate OnScreen(w: int, h: int, x: int, y: int) { 0 <= x < w && 0 <= y < h }

  predicate IsOn(buf: seq<bv8>, c: Cell)
    requires c.idx < |buf|
  {
    Bit(buf[c.idx], c.bit)
  }

  /** `after` is `before` with every cell of `cells` set to `on`, and no other bit changed. */
  ghost predicate Painted(before: seq<bv8>, after: seq<bv8>, cells: iset<Cell>, on: bool) {
    && |after| == |before|
    && forall c: Cell :: c.idx < |before| && c.bit < 8 ==>
         IsOn(after, c) == if c in cells then on else IsOn(before, c)
  }

  lemma PaintedTwice(a: seq<bv8>, b: seq<bv8>, c: seq<bv8>, s: iset<Cell>, t: iset<Cell>, on: bool)
    requires Painted(a, b, s, on) && Painted(b, c, t, on)
    ensures Painted(a, c, s + t, on)
  {
  }

  lemma PaintedNothing(buf: seq<bv8>, on: bool)
    ensures Painted(buf, buf, iset{}, on)
  {
  }

  lemma SetCell(buf: seq<bv8>, c: Cell)
    requires c.idx < |buf| && c.bit < 8
    ensures Painted(buf, buf[c.idx := buf[c.idx] | Mask(c.bit)], iset{c}, true)
  {
    hide Bit, Mask;
    forall d: Cell | d.idx == c.idx && d.bit < 8
      ensures Bit(buf[c.idx] | Mask(c.bit), d.bit) == (d == c || Bit(buf[c.idx], d.bit))
    {
      SetsBit(buf[c.idx], c.bit, d.bit);
    }
  }

  lemma ClearCell(buf: seq<bv8>, c: Cell)
    requires c.idx < |buf| && c.bit < 8
    ensures Painted(buf, buf[c.idx := buf[c.idx] & !Mask(c.bit)], iset{c}, false)
  {
    hide Bit, Mask;
    forall d: Cell | d.idx == c.idx && d.bit < 8
      ensures Bit(buf[c.idx] & !Mask(c.bit), d.bit) == (d != c && Bit(buf[c.idx], d.bit))
    {
      ClearsBit(buf[c.idx], c.bit, d.bit);
    }
  }

}

/** The e-paper buffer: rows one after the other, the leftmost pixel in the highest bit. */
module GxEpd2 {
  import opened MachineInts
  import opened Division
  import opened ByteBits
  import opened PackedBits

  /** Where pixel (x, y) lies when rows are `w` pixels long. */
  function CellOf(w: nat, x: nat, y: nat): Cell { Cell((y * w + x) / 8, 7 - x % 8) }

  /** No two pixels of a `w` by `h` screen share a bit. */
  ghost predicate Separate(w: nat, h: nat) {
    forall x, y, u, v ::
      OnScreen(w, h, x, y) && OnScreen(w, h, u, v) && CellOf(w, x, y) == CellOf(w, u, v) ==> x == u && y == v
  }

  lemma CellInBuffer(w: nat, h: nat, x: nat, y: nat)
    requires OnScreen(w, h, x, y)
    ensures CellOf(w, x, y).idx < w * h / 8 + 1
  {
    Fits(y, x, w, h);
  }

  lemma WholeByteRows(q: nat, x: nat, y: nat)
    requires x < 8 * q
    ensures CellOf(8 * q, x, y) == Cell(y * q + x / 8, 7 - x % 8)
  {
    assert y * (8 * q) + x == (y * q + x / 8) * 8 + x % 8;
    Parts(y * q + x / 8, x % 8, 8);
  }

  /** Pixels have bits of their own exactly when rows fill whole bytes (or there is only one row). */
  lemma SeparateRows(w: nat, h: nat)
    requires w > 0
    ensures Separate(w, h) <==> w % 8 == 0 || h <= 1
  {
    var q := w / 8;
    if w % 8 != 0 && h >= 2 {
      var x := 8 * q;
      assert OnScreen(w, h, x, 0) && OnScreen(w, h, 0, 1);
      assert CellOf(w, x, 0) == CellOf(w, 0, 1) by { assert 0 * w + x == x && 1 * w + 0 == w; }
    }
    if w % 8 == 0 {
      forall x, y, u, v | OnScreen(w, h, x, y) && OnScreen(w, h, u, v) && CellOf(w, x, y) == CellOf(w, u, v)
        ensures x == u && y == v
      {
        WholeByteRows(q, x, y);
        WholeByteRows(q, u, v);
        Parts(y, x / 8, q);
        Parts(v, u / 8, q);
      }
    }
    if h <= 1 {
      forall x, y, u, v | OnScreen(w, h, x, y) && OnScreen(w, h, u, v) && CellOf(w, x, y) == CellOf(w, u, v)
        ensures x == u && y == v
      {
        assert y * w == 0 && v * w == 0;
      }
    }
  }

  /** The 2.13 inch panel, 250 pixels wide, is one where they do not. */
  lemma Panel213Aliases()
    ensures CellOf(250, 248, 0) == CellOf(250, 0, 1)
  {
  }

  datatype Pixel = Pixel(x: int, y: int)

  /** The cells of those pixels of a shape that are on the screen. */
  ghost function Cells(w: nat, h: nat, shape: iset<Pixel>): iset<Cell> {
    iset p | p in shape && OnScreen(w, h, p.x, p.y) :: CellOf(w, p.x, p.y)
  }

  ghost predicate Shows(buf: seq<bv8>, w: nat, h: nat, x: int, y: int)
    requires |buf| == w * h / 8 + 1
  {
    OnScreen(w, h, x, y) && (CellInBuffer(w, h, x, y); IsOn(buf, CellOf(w, x, y)))
  }

  /** Where pixels are separate, painting cells is painting the picture: the shape, clipped, and nothing else. */
  lemma PictureIsPainted(w: nat, h: nat, before: seq<bv8>, after: seq<bv8>, shape: iset<Pixel>, on: bool)
    requires Separate(w, h) && |before| == w * h / 8 + 1 && Painted(before, after, Cells(w, h, shape), on)
    ensures forall x, y :: 0 <= x < w && 0 <= y < h ==>
      Shows(after, w, h, x, y) == if Pixel(x, y) in shape then on else Shows(before, w, h, x, y)
  {
    forall x, y | 0 <= x < w && 0 <= y < h
      ensures Shows(after, w, h, x, y) == if Pixel(x, y) in shape then on else Shows(before, w, h, x, y)
    {
      CellInBuffer(w, h, x, y);
      var c := CellOf(w, x, y);
      if Pixel(x, y) in shape {
        assert CellOf(w, Pixel(x, y).x, Pixel(x, y).y) in Cells(w, h, shape);
      }
      if c in Cells(w, h, shape) {
        var p :| p in shape && OnScreen(w, h, p.x, p.y) && CellOf(w, p.x, p.y) == c;
        assert p == Pixel(x, y);
      }
    }
  }

  ghost function Box(x: int, y: int, w: int, h: int): iset<Pixel> {
    iset p: Pixel | x <= p.x < x + w && y <= p.y < y + h
  }

  ghost function Rows(from: int, to: int, y: int, y2: int): iset<Pixel> {
    iset p: Pixel | from <= p.x < to && (p.y == y || p.y == y2)
  }

  ghost function Columns(from: int, to: int, x: int, x2: int): iset<Pixel> {
    iset p: Pixel | from <= p.y < to && (p.x == x || p.x == x2)
  }

  /** Two rows and two columns; where one pair is empty the other still is drawn. */
  ghost function Outline(x: int, y: int, w: int, h: int): iset<Pixel> {
    Rows(x, x + w, y, I16(y + h - 1)) + Columns(y, y + h, x, I16(x + w - 1))
  }

  lemma OnePixel(w: nat, h: nat, p: Pixel)
    ensures Cells(w, h, iset{p}) == if OnScreen(w, h, p.x, p.y) then iset{CellOf(w, p.x, p.y)} else iset{}
  {
  }

  lemma NoPixel(w: nat, h: nat)
    ensures Cells(w, h, iset{}) == iset{}
  {
  }

  lemma MorePixels(w: nat, h: nat, a: seq<bv8>, b: seq<bv8>, c: seq<bv8>, s: iset<Pixel>, t: iset<Pixel>, on: bool)
    requires Painted(a, b, Cells(w, h, s), on) && Painted(b, c, Cells(w, h, t), on)
    ensures Painted(a, c, Cells(w, h, s + t), on)
  {
    PaintedTwice(a, b, c, Cells(w, h, s), Cells(w, h, t), on);
    assert Cells(w, h, s) + Cells(w, h, t) == Cells(w, h, s + t);
  }

  const BLACK: uint16 := 0

  class Epd {
    const width: nat
    const height: nat
    const buffer: array<bv8>
    var rotation: nat

    ghost predicate Valid()
      reads this
    {
      buffer.Length == width * height / 8 + 1
    }

    constructor (w: nat, h: nat)
      ensures Valid() && width == w && height == h && rotation == 0 && fresh(buffer)
    {
      width, height, rotation := w, h, 0;
      buffer := new bv8[w * h / 8 + 1](_ => 0);
    }

    function Width(): nat
      reads this
    {
      if rotation % 2 == 1 then height else width
    }

    function Height(): nat
      reads this
    {
      if rotation % 2 == 1 then width else height
    }

    /** A quarter turn swaps the sides. */
    lemma Turned()
      ensures Width() == (if rotation % 2 == 1 then height else width)
      ensures Height() == (if rotation % 2 == 1 then width else height)
    {
    }

    lemma RotatedSize()
      requires Valid()
      ensures buffer.Length == Width() * Height() / 8 + 1
    {
      assert width * height == height * width;
    }

    method FillScreen(color: uint16)
      modifies buffer
      ensures Painted(old(buffer[..]), buffer[..], AllCells(), color != 0x0000)
    {
      hide Bit;
      forall i | 0 <= i < buffer.Length { buffer[i] := if color == BLACK then 0x00 else 0xFF; }
      forall c: Cell | c.idx < buffer.Length && c.bit < 8 ensures IsOn(buffer[..], c) == (color != BLACK) {
        AllOrNothing(c.bit);
      }
    }

    method DrawPixel(x: int16, y: int16, color: uint16)
      requires Valid()
      modifies buffer
      ensures Painted(old(buffer[..]), buffer[..], Cells(Width(), Height(), iset{Pixel(x, y)}), color != 0x0000)
    {
      hide Bit, Mask, Painted, Cells;
      OnePixel(Width(), Height(), Pixel(x, y));
      PaintedNothing(buffer[..], color != BLACK);
      if x < 0 || x >= Width() || y < 0 || y >= Height() { return; }
      RotatedSize();
      CellInBuffer(Width(), Height(), x, y);
      var idx := (y * Width() + x) / 8;
      var bit := 7 - x % 8;
      if idx < buffer.Length { Apply(Cell(idx, bit), color); }
    }

    /** The bit operation of `DrawPixel`. */
    method Apply(c: Cell, color: uint16)
      requires c.idx < buffer.Length && c.bit < 8
      modifies buffer
      ensures Painted(old(buffer[..]), buffer[..], iset{c}, color != 0x0000)
    {
      hide *;
      ghost var before := buffer[..];
      var b := Inked(buffer[c.idx], c.bit, color);
      buffer[c.idx] := b;
      InkedCell(before, c, color);
      assert buffer[..] == before[c.idx := b];
    }

    method TestGetPixel(x: int16, y: int16) returns (on: bool)
      requires Valid()
      ensures |buffer[..]| == Width() * Height() / 8 + 1
      ensures on == Shows(buffer[..], Width(), Height(), x, y)
    {
      hide Bit;
      RotatedSize();
      if x < 0 || x >= Width() || y < 0 || y >= Height() { return false; }
      CellInBuffer(Width(), Height(), x, y);
      on := Bit(buffer[(y * Width() + x) / 8], 7 - x % 8);
    }

    /** The loops end, by Counters.LoopEnds, just for the boxes admitted here. */
    method FillRect(x: int16, y: int16, w: int16, h: int16, color: uint16)
      requires Valid() && (h > 0 ==> FitsI16(y + h)) && (h > 0 && w > 0 ==> FitsI16(x + w))
      modifies buffer
      ensures Painted(old(buffer[..]), buffer[..], Cells(Width(), Height(), Box(x, y, w, h)), color != 0x0000)
    {
      hide Bit, Painted, Cells;
      ghost var before, W, H, on := buffer[..], Width(), Height(), color != BLACK;
      StartPainting(W, H, before, on);
      var j: int := y;
      assert Box(x, y, w, 0) == iset{};
      while j < y as int + h
        invariant j == y || y < j <= y as int + h
        invariant Painted(before, buffer[..], Cells(W, H, Box(x, y, w, j - y)), on)
      {
        var i: int := x;
        ghost var rows := Box(x, y, w, j - y);
        assert rows + Box(x, j, 0, 1) == rows;
        while i < x as int + w
          invariant i == x || x < i <= x as int + w
          invariant Painted(before, buffer[..], Cells(W, H, rows + Box(x, j, i - x, 1)), on)
        {
          ghost var now := buffer[..];
          DrawPixel(i, j, color);
          MorePixels(W, H, before, now, buffer[..], rows + Box(x, j, i - x, 1), iset{Pixel(i, j)}, on);
          assert rows + Box(x, j, i - x, 1) + iset{Pixel(i, j)} == rows + Box(x, j, i + 1 - x, 1);
          i := i + 1;
        }
        assert rows + Box(x, j, i - x, 1) == Box(x, y, w, j + 1 - y);
        j := j + 1;
      }
      assert Box(x, y, w, j - y) == Box(x, y, w, h);
    }

    method DrawRect(x: int16, y: int16, w: int16, h: int16, color: uint16)
      requires Valid() && (w > 0 ==> FitsI16(x + w)) && (h > 0 ==> FitsI16(y + h))
      modifies buffer
      ensures Painted(old(buffer[..]), buffer[..], Cells(Width(), Height(), Outline(x, y, w, h)), color != 0x0000)
    {
      hide Bit, Painted, Cells;
      ghost var before := buffer[..];
      var y2 := I16(y as int + h - 1);
      var x2 := I16(x as int + w - 1);
      DrawRows(x, x as int + w, y, y2, color);
      ghost var between := buffer[..];
      DrawColumns(y, y as int + h, x, x2, color);
      MorePixels(Width(), Height(), before, between, buffer[..],
                 Rows(x, x as int + w, y, y2), Columns(y, y as int + h, x, x2), color != BLACK);
    }

    /** The first loop of `drawRect`. */
    method DrawRows(from: int16, to: int, y: int16, y2: int16, color: uint16)
      requires Valid() && (from < to ==> FitsI16(to))
      modifies buffer
      ensures Painted(old(buffer[..]), buffer[..], Cells(Width(), Height(), Rows(from, to, y, y2)), color != 0x0000)
    {
      hide Bit, Painted, Cells;
      ghost var before, W, H, on := buffer[..], Width(), Height(), color != BLACK;
      StartPainting(W, H, before, on);
      var i: int := from;
      assert Rows(from, i, y, y2) == iset{};
      while i < to
        invariant i == from || from < i <= to
        invariant Painted(before, buffer[..], Cells(W, H, Rows(from, i, y, y2)), on)
      {
        ghost var now := buffer[..];
        DrawTwo(i, y, i, y2, color);
        MorePixels(W, H, before, now, buffer[..], Rows(from, i, y, y2), iset{Pixel(i, y)} + iset{Pixel(i, y2)}, on);
        assert Rows(from, i, y, y2) + (iset{Pixel(i, y)} + iset{Pixel(i, y2)}) == Rows(from, i + 1, y, y2);
        i := i + 1;
      }
      assert Rows(from, i, y, y2) == Rows(from, to, y, y2);
    }

    /** The second loop of `drawRect`. */
    method DrawColumns(from: int16, to: int, x: int16, x2: int16, color: uint16)
      requires Valid() && (from < to ==> FitsI16(to))
      modifies buffer
      ensures Painted(old(buffer[..]), buffer[..], Cells(Width(), Height(), Columns(from, to, x, x2)), color != 0x0000)
    {
      hide Bit, Painted, Cells;
      ghost var before, W, H, on := buffer[..], Width(), Height(), color != BLACK;
      StartPainting(W, H, before, on);
      var j: int := from;
      assert Columns(from, j, x, x2) == iset{};
      while j < to
        invariant j == from || from < j <= to
        invariant Painted(before, buffer[..], Cells(W, H, Columns(from, j, x, x2)), on)
      {
        ghost var now := buffer[..];
        DrawTwo(x, j, x2, j, color);
        MorePixels(W, H, before, now, buffer[..], Columns(from, j, x, x2), iset{Pixel(x, j)} + iset{Pixel(x2, j)}, on);
        assert Columns(from, j, x, x2) + (iset{Pixel(x, j)} + iset{Pixel(x2, j)}) == Columns(from, j + 1, x, x2);
        j := j + 1;
      }
      assert Columns(from, j, x, x2) == Columns(from, to, x, x2);
    }

    method DrawTwo(x: int16, y: int16, u: int16, v: int16, color: uint16)
      requires Valid()
      modifies buffer
      ensures Painted(old(buffer[..]), buffer[..],
                      Cells(Width(), Height(), iset{Pixel(x, y)} + iset{Pixel(u, v)}), color != 0x0000)
    {
      hide Bit, Painted, Cells;
      ghost var before := buffer[..];
      DrawPixel(x, y, color);
      ghost var between := buffer[..];
      DrawPixel(u, v, color);
      MorePixels(Width(), Height(), before, between, buffer[..], iset{Pixel(x, y)}, iset{Pixel(u, v)}, color != BLACK);
    }
  }

  /** `&= ~(1 << bit)` for black, `|= 1 << bit` otherwise. */
  function Inked(b: bv8, bit: nat, color: uint16): bv8 {
    if color == BLACK then b & !Mask(bit) else b | Mask(bit)
  }

  lemma InkedCell(buf: seq<bv8>, c: Cell, color: uint16)
    requires c.idx < |buf| && c.bit < 8
    ensures Painted(buf, buf[c.idx := Inked(buf[c.idx], c.bit, color)], iset{c}, color != 0x0000)
  {
    hide Painted, Mask;
    if color == BLACK { ClearCell(buf, c); } else { SetCell(buf, c); }
  }

  // ---- What is seen ---------------------------------------------------------------------

  /** After `fillRect`, with pixels that are separate: the clipped rectangle and nothing else. */
  lemma RectIsSeen(w: nat, h: nat, before: seq<bv8>, after: seq<bv8>, x: int, y: int, rw: int, rh: int, color: uint16)
    requires w > 0 && (w % 8 == 0 || h <= 1) && |before| == w * h / 8 + 1
    requires Painted(before, after, Cells(w, h, Box(x, y, rw, rh)), color != 0x0000)
    ensures forall u, v :: 0 <= u < w && 0 <= v < h ==>
      Shows(after, w, h, u, v)
        == if x <= u < x + rw && y <= v < y + rh then color != 0x0000 else Shows(before, w, h, u, v)
  {
    hide Painted, Cells, Shows;
    SeparateRows(w, h);
    PictureIsPainted(w, h, before, after, Box(x, y, rw, rh), color != 0x0000);
    assert forall u, v :: 0 <= u < w && 0 <= v < h ==> OnScreen(w, h, u, v);
  }

  /** After `drawRect`: its four sides, clipped. */
  lemma OutlineIsSeen(w: nat, h: nat, before: seq<bv8>, after: seq<bv8>, x: int, y: int, rw: int, rh: int, color: uint16)
    requires w > 0 && (w % 8 == 0 || h <= 1) && |before| == w * h / 8 + 1
    requires Painted(before, after, Cells(w, h, Outline(x, y, rw, rh)), color != 0x0000)
    ensures forall u, v :: 0 <= u < w && 0 <= v < h ==>
      Shows(after, w, h, u, v)
        == if || (x <= u < x + rw && (v == y || v == I16(y + rh - 1)))
              || (y <= v < y + rh && (u == x || u == I16(x + rw - 1)))
           then color != 0x0000 else Shows(before, w, h, u, v)
  {
    hide Painted, Cells, Shows;
    SeparateRows(w, h);
    PictureIsPainted(w, h, before, after, Outline(x, y, rw, rh), color != 0x0000);
    assert forall u, v :: 0 <= u < w && 0 <= v < h ==> OnScreen(w, h, u, v);
  }

  /** After `fillScreen`: every pixel has the colour, separate or not. */
  lemma FillIsSeen(w: nat, h: nat, before: seq<bv8>, after: seq<bv8>, color: uint16)
    requires |before| == w * h / 8 + 1 && Painted(before, after, AllCells(), color != 0x0000)
    ensures forall u, v :: 0 <= u < w && 0 <= v < h ==> Shows(after, w, h, u, v) == (color != 0x0000)
  {
    forall u, v | 0 <= u < w && 0 <= v < h ensures Shows(after, w, h, u, v) == (color != 0x0000) {
      CellInBuffer(w, h, u, v);
    }
  }

  /** In the buffer the first pixel is the highest bit of the first byte, set for white. */
  lemma FirstBit(w: nat, b: bv8)
    ensures CellOf(w, 0, 0) == Cell(0, 7)
    ensures Inked(b, 7, 0xFFFF) == b | 0x80 && Inked(b, 7, 0x0000) == b & 0x7F
  {
  }

  lemma StartPainting(w: nat, h: nat, buf: seq<bv8>, on: bool)
    ensures Painted(buf, buf, Cells(w, h, iset{}), on)
  {
    NoPixel(w, h);
  }
}

/** The OLED buffer: pages of eight rows, a byte for each column of a page. */
module Ssd1306 {
  import opened MachineInts
  import opened Division
  import opened ByteBits
  import opened PackedBits

  function CellOf(w: nat, x: nat, y: nat): Cell { Cell(x + y / 8 * w, y % 8) }

  /** Pages of `w` bytes, a byte for eight rows of a column, the uppermost in the lowest bit. */
  lemma PageOfPixel(w: nat, x: nat, page: nat, row: nat)
    requires row < 8
    ensures CellOf(w, x, 8 * page + row) == Cell(page * w + x, row)
  {
  }

  /** Is there a byte behind the pixel? */
  predicate Backed(w: nat, h: nat, x: nat, y: nat) { CellOf(w, x, y).idx < w * h / 8 }

  /** Distinct pixels never share a bit, whatever the size. */
  lemma CellsAreDistinct(w: nat, h: nat, x: nat, y: nat, u: nat, v: nat)
    requires OnScreen(w, h, x, y) && OnScreen(w, h, u, v) && CellOf(w, x, y) == CellOf(w, u, v)
    ensures x == u && y == v
  {
    Parts(y / 8, x, w);
    Parts(v / 8, u, w);
  }

  /** Every pixel has a bit exactly when the height is a whole number of pages. */
  lemma WholePages(w: nat, h: nat)
    requires w > 0
    ensures (forall x, y :: OnScreen(w, h, x, y) ==> Backed(w, h, x, y)) <==> h % 8 == 0
    ensures forall x: nat, y: nat :: Backed(w, h, x, y) <==> x + y / 8 * w < w * h / 8
  {
    var pages := h / 8;
    assert w * h == w * pages * 8 + w * (h % 8);
    if h % 8 == 0 {
      forall x, y | OnScreen(w, h, x, y) ensures Backed(w, h, x, y) {
        Fits(y / 8, x, w, pages);
        assert w * h / 8 == w * pages;
      }
    } else {
      var x, y := w - 1, h - 1;
      assert OnScreen(w, h, x, y) && y / 8 == pages;
      assert pages * w == w * pages;
      Ordered(h % 8, 7, w);
      assert w * h < w * pages * 8 + 8 * w;
      assert !Backed(w, h, x, y);
    }
  }

  ghost predicate Shows(buf: seq<bv8>, w: nat, h: nat, x: int, y: int)
    requires |buf| == w * h / 8
  {
    OnScreen(w, h, x, y) && Backed(w, h, x, y) && IsOn(buf, CellOf(w, x, y))
  }

  const BLACK: uint16 := 0
  const WHITE: uint16 := 1

  /** White sets, black clears, any other colour inverts. */
  function Value(color: uint16, was: bool): bool {
    if color == WHITE then true else if color == BLACK then false else !was
  }

  /** One `drawPixel`: the cell of the pixel, if there is one, takes its value. */
  ghost predicate Drawn(w: nat, h: nat, before: seq<bv8>, after: seq<bv8>, x: int, y: int, color: uint16)
    requires |before| == w * h / 8
  {
    if OnScreen(w, h, x, y) && Backed(w, h, x, y)
    then Painted(before, after, iset{CellOf(w, x, y)}, Value(color, IsOn(before, CellOf(w, x, y))))
    else after == before
  }

  /** The byte after one of the three assignments of `drawPixel`. */
  function Recoloured(b: bv8, bit: nat, color: uint16): bv8 {
    if color == WHITE then b | Mask(bit) else if color == BLACK then b & !Mask(bit) else b ^ Mask(bit)
  }

  lemma RecolouredBits(b: bv8, bit: nat, color: uint16)
    requires bit < 8
    ensures forall j: nat :: j < 8 ==>
      Bit(Recoloured(b, bit, color), j) == if j == bit then Value(color, Bit(b, bit)) else Bit(b, j)
  {
    hide Bit, Mask;
    forall j: nat | j < 8
      ensures Bit(Recoloured(b, bit, color), j) == if j == bit then Value(color, Bit(b, bit)) else Bit(b, j)
    {
      if color == WHITE { SetsBit(b, bit, j); }
      else if color == BLACK { ClearsBit(b, bit, j); }
      else { FlipsBit(b, bit, j); }
    }
  }

  /** After `clearDisplay` nothing is seen. */
  lemma ClearIsSeen(w: nat, h: nat, before: seq<bv8>, after: seq<bv8>, u: int, v: int)
    requires |before| == w * h / 8 && Painted(before, after, AllCells(), false)
    ensures !Shows(after, w, h, u, v)
  {
  }

  /** White, black and inverse in the lowest bit of a byte. */
  lemma FirstBit(b: bv8)
    ensures Recoloured(b, 0, 1) == b | 0x01 && Recoloured(b, 0, 0) == b & 0xFE && Recoloured(b, 0, 2) == b ^ 0x01
  {
  }

  class Oled {
    const width: nat
    const height: nat
    const buffer: array<bv8>

    ghost predicate Valid()
      reads this
    {
      buffer.Length == width * height / 8
    }

    constructor (w: nat, h: nat)
      ensures Valid() && width == w && height == h && fresh(buffer)
    {
      width, height := w, h;
      buffer := new bv8[w * h / 8](_ => 0);
    }

    method ClearDisplay()
      modifies buffer
      ensures Painted(old(buffer[..]), buffer[..], AllCells(), false)
    {
      hide Bit;
      forall i | 0 <= i < buffer.Length { buffer[i] := 0x00; }
      forall c: Cell | c.idx < buffer.Length && c.bit < 8 ensures !IsOn(buffer[..], c) { AllOrNothing(c.bit); }
    }

    method DrawPixel(x: int16, y: int16, color: uint16)
      requires Valid()
      modifies buffer
      ensures Drawn(width, height, old(buffer[..]), buffer[..], x, y, color)
    {
      hide Bit, Painted;
      if x < 0 || x >= width || y < 0 || y >= height { return; }
      var idx := x as int + y / 8 * width;
      if idx >= buffer.Length { return; }
      Apply(Cell(idx, y % 8), color);
    }

    method Apply(c: Cell, color: uint16)
      requires c.idx < buffer.Length && c.bit < 8
      modifies buffer
      ensures Painted(old(buffer[..]), buffer[..], iset{c}, Value(color, IsOn(old(buffer[..]), c)))
    {
      hide Bit, Mask;
      buffer[c.idx] := Recoloured(buffer[c.idx], c.bit, color);
      RecolouredBits(old(buffer[c.idx]), c.bit, color);
    }

    method GetPixel(x: int16, y: int16) returns (on: bool)
      requires Valid()
      ensures on == Shows(buffer[..], width, height, x, y)
    {
      hide Bit;
      if x < 0 || x >= width || y < 0 || y >= height { return false; }
      var idx := x as int + y / 8 * width;
      if idx >= buffer.Length { return false; }
      on := Bit(buffer[idx], y % 8);
    }
  }

  /** A draw is seen at its own pixel, if that has a byte, and nowhere else. */
  lemma DrawIsSeen(w: nat, h: nat, before: seq<bv8>, after: seq<bv8>, x: int, y: int, color: uint16)
    requires |before| == w * h / 8 && Drawn(w, h, before, after, x, y, color)
    ensures forall u, v :: 0 <= u < w && 0 <= v < h ==>
      Shows(after, w, h, u, v)
        == if u != x || v != y || !Backed(w, h, u, v) then Shows(before, w, h, u, v)
           else if color == 1 then true
           else if color == 0 then false
           else !Shows(before, w, h, u, v)
  {
    hide Bit;
    forall u, v | OnScreen(w, h, u, v)
      ensures Shows(after, w, h, u, v)
        == if u == x && v == y && Backed(w, h, u, v) then Value(color, Shows(before, w, h, u, v))
           else Shows(before, w, h, u, v)
    {
      if OnScreen(w, h, x, y) && CellOf(w, u, v) == CellOf(w, x, y) { CellsAreDistinct(w, h, x, y, u, v); }
    }
  }
}
