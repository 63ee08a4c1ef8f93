/** How the flag byte of the matrix wires a panel, LED by LED. */
module NeoWiring {
  import opened Division
  import opened MachineInts
  import opened NeoPixel
  import opened MatrixLayout
  import opened NeoMatrix

  /** A panel of a grid, with the flag byte it was made with. */
  datatype Panel = Panel(matW: nat, matH: nat, tilesX: nat, tilesY: nat, flags: bv8, tx: nat, ty: nat) {
    predicate Valid() { matW > 0 && matH > 0 && tx < tilesX && ty < tilesY }
    function Grid(): Layout { FromFlags(matW, matH, tilesX, tilesY, flags) }

    function Lines(): nat { if flags & 0x04 != 0 then matW else matH }
    function Length(): nat { if flags & 0x04 != 0 then matH else matW }

    /** The number of an LED, counted from the start of the strip. */
    function Led(line: nat, place: nat): nat { (ty * tilesX + tx) * (matW * matH) + (line * Length() + place) }
  }

  /** The coordinate of an LED: `dx` and `dy` are its distances from the corner the wiring starts at. */
  function Place(p: Panel, dx: nat, dy: nat): Coordinate {
    Coordinate(p.tx * p.matW + (if p.flags & 0x02 != 0 then p.matW - 1 - dx else dx),
               p.ty * p.matH + (if p.flags & 0x01 != 0 then p.matH - 1 - dy else dy))
  }

  /** The distance from the corner's side, along its line, of an LED. */
  function Along(p: Panel, line: nat, place: nat): int {
    if p.flags & 0x08 != 0 && line % 2 == 1 then p.Length() - 1 - place else place
  }

  lemma InPanel(size: nat, tile: nat, local: nat, tiles: nat)
    requires local < size && tile < tiles
    ensures (tile * size + local) / size == tile && (tile * size + local) % size == local
    ensures tile * size + local < size * tiles
  {
    Parts(tile, local, size);
    Fits(tile, local, size, tiles);
  }

  /** Every LED of every panel, for every size and flag byte: which coordinate has its number. */
  lemma LedOfPanel(p: Panel, line: nat, place: nat)
    requires p.Valid() && line < p.Lines() && place < p.Length()
    ensures var along := Along(p, line, place);
            var c := if p.flags & 0x04 != 0 then Place(p, line, along) else Place(p, along, line);
            PixelIndex(p.Grid(), c.x, c.y) == p.Led(line, place)
  {
    var along := Along(p, line, place);
    var c := if p.flags & 0x04 != 0 then Place(p, line, along) else Place(p, along, line);
    var lx, ly := c.x - p.tx * p.matW, c.y - p.ty * p.matH;
    InPanel(p.matW, p.tx, lx, p.tilesX);
    InPanel(p.matH, p.ty, ly, p.tilesY);
    LocalLed(p, line, place, lx, ly);
  }

  lemma LocalLed(p: Panel, line: nat, place: nat, lx: nat, ly: nat)
    requires p.Valid() && line < p.Lines() && place < p.Length() && lx < p.matW && ly < p.matH
    requires var along := Along(p, line, place);
             var dx, dy := if p.flags & 0x04 != 0 then line else along, if p.flags & 0x04 != 0 then along else line;
             && lx == (if p.flags & 0x02 != 0 then p.matW - 1 - dx else dx)
             && ly == (if p.flags & 0x01 != 0 then p.matH - 1 - dy else dy)
    ensures LocalIndex(p.Grid(), lx, ly) == line * p.Length() + place
  {
  }

  lemma CoordinateOfLed(p: Panel, line: nat, place: nat)
    requires p.Valid() && line < p.Lines() && place < p.Length()
    ensures p.Led(line, place) < p.Grid().Count()
    ensures var along := Along(p, line, place);
            PixelAt(p.Grid(), p.Led(line, place))
            == if p.flags & 0x04 != 0 then Place(p, line, along) else Place(p, along, line)
  {
    hide PixelAt, PixelIndex;
    var along := Along(p, line, place);
    var c := if p.flags & 0x04 != 0 then Place(p, line, along) else Place(p, along, line);
    InPanel(p.matW, p.tx, c.x - p.tx * p.matW, p.tilesX);
    InPanel(p.matH, p.ty, c.y - p.ty * p.matH, p.tilesY);
    LedOfPanel(p, line, place);
    CoordinateThere(p.Grid(), c.x, c.y);
  }

  // ---- The same, flag by flag ---------------------------------------------------------

  /** Bits 0x01 and 0x02 name the corner of the first LED: bottom or top, right or left. */
  lemma FirstLedIsCorner(p: Panel)
    requires p.Valid()
    ensures p.Led(0, 0) < p.Grid().Count()
    ensures var c := PixelAt(p.Grid(), p.Led(0, 0));
      && c.x == p.tx * p.matW + (if p.flags & 0x02 != 0 then p.matW - 1 else 0)
      && c.y == p.ty * p.matH + (if p.flags & 0x01 != 0 then p.matH - 1 else 0)
  {
    hide PixelAt;
    CoordinateOfLed(p, 0, 0);
  }

  /** Bit 0x04: without it consecutive LEDs of a line are neighbours along x, with it along y. */
  lemma LinesRunAlong(p: Panel, line: nat, place: nat)
    requires p.Valid() && line < p.Lines() && place + 1 < p.Length()
    ensures p.Led(line, place + 1) == p.Led(line, place) + 1 < p.Grid().Count()
    ensures var c, d := PixelAt(p.Grid(), p.Led(line, place)), PixelAt(p.Grid(), p.Led(line, place) + 1);
      if p.flags & 0x04 == 0 then c.y == d.y && (d.x == c.x + 1 || d.x == c.x - 1)
      else c.x == d.x && (d.y == c.y + 1 || d.y == c.y - 1)
  {
    hide PixelAt;
    CoordinateOfLed(p, line, place);
    CoordinateOfLed(p, line, place + 1);
  }

  /** Each line lies one further from the corner than the one before. */
  lemma LinesMoveAway(p: Panel, line: nat, a: nat, b: nat)
    requires p.Valid() && line + 1 < p.Lines() && a < p.Length() && b < p.Length()
    ensures p.Led(line, a) < p.Grid().Count() && p.Led(line + 1, b) < p.Grid().Count()
    ensures var c, d := PixelAt(p.Grid(), p.Led(line, a)), PixelAt(p.Grid(), p.Led(line + 1, b));
      if p.flags & 0x04 == 0 then d.y == c.y + (if p.flags & 0x01 != 0 then -1 else 1)
      else d.x == c.x + (if p.flags & 0x02 != 0 then -1 else 1)
  {
    hide PixelAt;
    CoordinateOfLed(p, line, a);
    CoordinateOfLed(p, line + 1, b);
  }

  /** Bit 0x08: without it every line starts on the corner's side, with it the odd ones start on the other. */
  lemma LineStarts(p: Panel, line: nat)
    requires p.Valid() && line < p.Lines()
    ensures p.Led(line, 0) < p.Grid().Count()
    ensures var c, other := PixelAt(p.Grid(), p.Led(line, 0)), p.flags & 0x08 != 0 && line % 2 == 1;
      if p.flags & 0x04 == 0 then c.x == p.tx * p.matW + (if (p.flags & 0x02 != 0) != other then p.matW - 1 else 0)
      else c.y == p.ty * p.matH + (if (p.flags & 0x01 != 0) != other then p.matH - 1 else 0)
  {
    hide PixelAt;
    CoordinateOfLed(p, line, 0);
  }

  /** `test_neomatrix.cpp`: the default 8 by 8 matrix, and two by two tiles of 4 by 4. */
  lemma DefaultMatrix()
    ensures var l := FromFlags(8, 8, 1, 1, 0);
      && PixelIndex(l, 0, 0) == 0 && PixelIndex(l, 1, 0) == 1 && PixelIndex(l, 0, 1) == 8
      && PixelIndex(l, -1, 0) == -1 && PixelIndex(l, 8, 0) == -1
    ensures var l := FromFlags(4, 4, 2, 2, 0);
      l.Width() == 8 && l.Height() == 8 && PixelIndex(l, 4, 0) == 16 && PixelIndex(l, 0, 4) == 32
  {
  }

  // ---- Colours ------------------------------------------------------------------------

  /** RGB565: red in the upper five bits, then six bits of green and five of blue. */
  lemma ChannelsAreExpanded(red: nat, green: nat, blue: nat)
    requires red < 32 && green < 64 && blue < 32
    ensures Expanded(red * 0x800 + green * 0x20 + blue) == Rgb(8 * red, 4 * green, 8 * blue)
  {
    var color := red * 0x800 + green * 0x20 + blue;
    Parts(red, green * 0x20 + blue, 0x800);
    Parts(red * 0x40 + green, blue, 0x20);
    Parts(red, green, 0x40);
    Small(red);
    assert color / 0x800 == red && color / 0x20 == red * 0x40 + green && color % 0x20 == blue;
  }

  lemma Small(n: nat)
    requires n < 32
    ensures n % 0x20 == n
  {
  }

  /** `setPixelColor` with a packed colour takes red from the highest of three bytes and blue from the lowest. */
  lemma BytesOfColor(r: byte, g: byte, b: byte, more: nat)
    ensures Packed(Rgb(r, g, b)) == (r * 0x100 + g) * 0x100 + b
    ensures Unpacked(more * 0x100_0000 + (r * 0x100 + g) * 0x100 + b) == Rgb(r, g, b)
  {
    var c := more * 0x100_0000 + (r * 0x100 + g) * 0x100 + b;
    Parts(more * 0x100 + r, g * 0x100 + b, 0x10000);
    Parts(more, r, 0x100);
    Parts((more * 0x100 + r) * 0x100 + g, b, 0x100);
    Parts(more * 0x100 + r, g, 0x100);
    assert c == (more * 0x100 + r) * 0x10000 + (g * 0x100 + b);
    assert c == ((more * 0x100 + r) * 0x100 + g) * 0x100 + b;
  }
}
