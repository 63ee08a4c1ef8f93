# Verified models of the esp32emu headers

esp32emu replaces the Arduino libraries of an ESP32 sketch by header-only stand-ins that run on a
host. Most of them only store what they are given; a few contain real algorithms. This project
models those algorithms in Dafny and proves what they are meant to do. Where the code does not do
it, the project proves for which inputs it does.

Code that changes objects in place is modelled by classes and methods with the loops of the
original, each proved against a specification function; the laws are then proved about that
function. `std::map<std::string, V>` is an ascending sequence of entries (`OrderedMap.dfy`), and
fixed-width integers are plain integers whose conversions are written out (`MachineInts.dfy`).

| files | what they model |
|---|---|
| `JsonTree`, `JsonParser`, `JsonReader` | the JSON tree, its printer and the recursive-descent parser over a moving cursor |
| `JsonNumbers`, `JsonGrammar`, `JsonLanguage`, `JsonRoundTrip`, `JsonTheorems` | the parser's language: numbers by their parts, texts as concrete syntax trees, neither described by the parser's loops; completeness, soundness, round trips |
| `JsonDetails` | the tables and constants of the JSON header, character by character |
| `JsonFailures` | the texts on which the parser steps over its terminator or throws, as concrete syntax trees of their own |
| `Ili9341`, `LineLimits`, `CircleLoop`, `Screen` | Bresenham lines, midpoint circles, discs and rectangles on an `int16_t` display; for which lines and radii the 16 bits suffice; what is then seen, pixel by pixel |
| `Crc8` | the 1-Wire CRC as a bit-serial shift register, and the errors it detects |
| `NeoMatrix`, `NeoWiring` | the LED strip's byte buffer, the matrix layout over it, and how each flag wires a panel |
| `Calendar` | the weekday formula against day counting, and the fields of a time span |
| `SdMmc` | the in-memory file system: files as byte sequences, directories as exact listings |
| `Preferences` | the flat key store against one map per namespace, and typed integers as bytes |
| `RunningMedian` | the sliding window and its order statistics |
| `Framebuffers` | the row-packed e-paper buffer and the page-packed OLED buffer against a picture of pixels |
| `NeoPixelBus` | rotating and shifting a strip |
| `PubSub` | MQTT topic filters and the client's state over a run of calls |

Results where the code falls short of what one would expect:

- A JSON key is printed raw, so it comes back only when it holds no quote, backslash or NUL
  (`OneMemberObject`). A text that ends in a backslash inside a string makes the parser step over
  its terminator, and a number without digits or outside `long` makes it throw; `ParserGetsStuck`
  says exactly when.
- `drawLine` keeps its error term in `int16_t`. With g the greatest common divisor of the deltas,
  a line with DX >= DY is drawn exactly when 2(DX−DY) + 2g⌊DX/2g⌋ is at most 32767, a steeper one
  when 2(DY−DX) + 2g⌊DY/2g⌋ is at most 32768 (`DrawnLinesFit`); for (0,0)-(16384,0) the loop never
  stops (`LongLineNeverEnds`).
- `drawCircle` draws the circle for radii up to 16556 and for 16642 and 16643, and for no others
  (`CirclesDrawn`).
- A matrix with more than 65535 LEDs, or a side of more than 32767, cannot be drawn throughout
  (`WholeGridIsDrawable`), nor can one that is not square after a quarter turn (`TurnedGrid`).
- `DateTime` keeps the year in one byte, so weekdays are wrong from 2256 on (`WeekdayIsRight`).
- Renaming a file onto itself deletes it (`RenameMoves`), and a write past the end of a file lands
  at its end (`WriteLands`).
- Namespaces with a slash can share keys (`SharedKeys`).
- The e-paper buffer separates the pixels only when the width is a multiple of eight
  (`SeparateRows`, `Panel213Aliases`), the OLED buffer holds every row only when the height is
  (`WholePages`).
- `ShiftLeft` by more than the length of the strip only rotates (`LeftShiftIsRight`).
- The MQTT client gives `+` no meaning, does not let `x/#` take `x`, and lets `#` take topics that
  start with `$` (`ClientAgainstStandard`).

## Model

| member | source | states |
|---|---|---|
| JsonTheorems.ParserAcceptsTheLanguage | include/ArduinoJson.h:266-349 | for every text and depth: `parseValue` answers a value and a rest exactly when the text is blanks, a spelling of that value nested at most 32 deep that cannot be continued, and the rest (or a string left open at the terminator) |
| JsonTheorems.RoundTrip | include/ArduinoJson.h:197-233 | printing a tree without floats and parsing the text returns exactly that tree when its height is at most 32, and InvalidInput otherwise |
| JsonTheorems.BlanksAreIgnored | include/ArduinoJson.h:267 | blanks put before, between and after the tokens of a printed tree change nothing in what deserializing answers |
| JsonTheorems.ReprintedTextIsStable | include/ArduinoJson.h:300-358 | whatever clean tree any accepted text stands for, printing it gives a text that is read back as the same tree |
| JsonTheorems.KeyComesBack | include/ArduinoJson.h:227 | a key printed raw is read back as itself if and only if it holds no quote, backslash or NUL |
| JsonTheorems.OneMemberObject | include/ArduinoJson.h:223-230 | an object with one member survives the round trip if and only if its key needs no escape |
| JsonTheorems.StringOverrun | include/ArduinoJson.h:275-279 | `parseString` steps over the terminator if and only if the text is an open string that ends in a dangling backslash |
| JsonTheorems.NoOverrun | include/ArduinoJson.h:267-348 | on a text whose last character is no backslash the cursor never passes the terminator, at any depth |
| JsonCompleteness.ValueIsRead | include/ArduinoJson.h:300-348 | any valid spelling, after any blanks and before any text that cannot prolong it, is consumed exactly and answered with its meaning, or refused when nested too deep |
| JsonCompleteness.StringIsRead | include/ArduinoJson.h:271-284 | a string body written with any mixture of plain and escaped characters is read to its closing quote as the characters it stands for |
| JsonCompleteness.PairsAreRead | include/ArduinoJson.h:310-324 | the member loop stores the members one after the other, a later equal key replacing an earlier one |
| JsonSoundness.SpellingOf | include/ArduinoJson.h:300-348 | every accepted text has a spelling: its tokens, blanks and nesting can be read off it, and its meaning is the answer |
| JsonSoundness.NumberOf | include/ArduinoJson.h:286-298 | what `parseNumber` consumes is a lexeme of the number grammar that the text cannot prolong, and its value is the answer |
| JsonNumbers.LexemesAreScanned | include/ArduinoJson.h:289-292 | the digit loops leave nothing over exactly of the texts that are an integer part, a fraction part and an exponent part in a row |
| JsonNumbers.MaximalMunch | include/ArduinoJson.h:289-293 | at the front of any text they take a lexeme, and no longer beginning of the text is one |
| JsonNumbers.ReadExactly | include/ArduinoJson.h:289-293 | a lexeme is taken, and nothing more, exactly when the text cannot prolong it |
| JsonNumbers.FloatsArePointed | include/ArduinoJson.h:288-292 | a number is marked as a float exactly when it holds a point or an exponent letter |
| JsonFailures.ParserGetsStuck | include/ArduinoJson.h:271-348 | the parser steps over the terminator, or throws, exactly on the texts made of complete values in open brackets and then an open string that ends in a backslash, or an unconvertible number |
| JsonFailures.DeserializingGetsStuck | include/ArduinoJson.h:351-358 | so does `deserializeJson`, and on no other text |
| JsonFailures.StuckFails | include/ArduinoJson.h:300-348 | each such text, after any blanks and at any depth that allows it, fails for the stated cause |
| JsonFailures.ShortestFailures | include/ArduinoJson.h:275-296 | a quote and a backslash pass the terminator, a lone minus throws |
| JsonPrinted.StolOfPrinted | include/ArduinoJson.h:202 | a printed integer is read back by `stol` if and only if it fits a 64-bit `long` |
| JsonPrinted.PrintIsSpelling | include/ArduinoJson.h:197-233 | the printer's text of every printable tree is the blank-free spelling of that tree |
| JsonPrinted.PrintedMeaning | include/ArduinoJson.h:197-233 | the spelling a printable tree is printed as is valid, means that tree and nests as deep as the tree is high |
| JsonReader.ReadValue | include/ArduinoJson.h:300-348 | the cursor-moving parser terminates and answers, and leaves the cursor at, what the functional parser says |
| JsonReader.ReadString | include/ArduinoJson.h:271-284 | the character loop appends exactly the decoded characters and stops behind the closing quote or at the terminator |
| JsonDetails.UnitsMean | include/ArduinoJson.h:276-277 | a string has one character for each unit: behind a backslash t is a tab and n a newline, every other character is itself |
| JsonDetails.EscapedTextComesBack | include/ArduinoJson.h:271-284 | any string without NUL, written with its quotes, backslashes, newlines and tabs escaped, is deserialized to itself |
| JsonDetails.PrintedUnits | include/ArduinoJson.h:206-211 | the printer escapes quotes, backslashes and newlines, and no other character |
| JsonDetails.FourBlanks | include/ArduinoJson.h:267 | a space, tab, newline or carriage return in front changes nothing, any other character is no blank |
| JsonDetails.BlanksEverywhere | include/ArduinoJson.h:302-338 | any blanks around the text, behind brackets and around values, commas, keys and colons change nothing |
| JsonDetails.BracketsNest | include/ArduinoJson.h:301 | 33 pairs of nested brackets are accepted, any more are not |
| JsonDetails.NumberComesFromText | include/ArduinoJson.h:293-297 | a text that is a number is deserialized to its integer, or to the library's double if it has a point or an exponent, or throws |
| JsonDetails.SomeLexemes | include/ArduinoJson.h:289-292 | some texts that are numbers of the grammar and some that are not |
| JsonDetails.SomeIntegers | include/ArduinoJson.h:202-296 | some integers printed and read |
| JsonDetails.LeadingZero | include/ArduinoJson.h:296 | a leading zero does not change the number read |
| JsonDetails.EmptyInputIsEmpty | include/ArduinoJson.h:352 | EmptyInput is answered exactly for a text without a first character |
| JsonDetails.LessIsLexicographic | include/ArduinoJson.h:225 | members are in the order of the first character that differs, a proper beginning first |
| JsonDetails.ThreeNumbers | test/test_arduinojson.cpp:59-66 | an array of three numbers is printed and read as the test expects |
| JsonDetails.TwoMembers | test/test_arduinojson.cpp:77-83 | an object of two members is printed in map order and read back |
| JsonDetails.Words | include/ArduinoJson.h:200-201 | the three words are printed and read |
| JsonDetails.Invalid | test/test_arduinojson.cpp:68-75 | the empty text and a key without quotes are refused as the test expects |
| JsonReader.ScanNumber | include/ArduinoJson.h:286-298 | the digit loops leave the cursor behind the longest number and tell a float by its dot or exponent |
| JsonReader.JsonDocument.DeserializeJson | include/ArduinoJson.h:351-358 | the document is replaced on success and untouched on empty or invalid input |
| JsonSerializer.SerializeNode | include/ArduinoJson.h:197-233 | the stream grows by exactly the printed text of the tree |
| JsonSerializer.SerializeString | include/ArduinoJson.h:205-213 | the stream grows by the quoted text with the three escapes |
| Lines.LineEnds | include/Adafruit_ILI9341.h:63-75 | the first dot of the ideal line is its first end point, and dot max(DX,DY) its last |
| Lines.LineIsConnected | include/Adafruit_ILI9341.h:72-73 | consecutive dots are 8-neighbours and each advances by one along the longer axis |
| Lines.DotsAreDistinct | include/Adafruit_ILI9341.h:63-75 | the max(DX,DY)+1 dots are all different |
| Lines.DotsAreClose | include/Adafruit_ILI9341.h:63-75 | after a and b steps, 2·abs(a·DY−b·DX) is at most max(DX,DY) |
| Lines.HalvesGoUp | include/Adafruit_ILI9341.h:71-73 | a dot half a unit off lies beyond the true line, never before it |
| Lines.ErrBounds | include/Adafruit_ILI9341.h:71 | the doubled error term stays within three times the longer delta, and within the tighter bounds of its octant |
| LineLoop.DrawsTheLine | include/Adafruit_ILI9341.h:65-74 | for any two `int16_t` end points the loop passes through the dots of the line exactly when both tests of every turn come out as on unbounded integers; `DrawnLinesFit` gives the condition in closed form |
| LineLoop.TestsHoldWithoutOverflow | include/Adafruit_ILI9341.h:71-73 | when the deltas fit `int16_t` that is exactly when no doubled error term overflows |
| LineLimits.DrawnLinesFit | include/Adafruit_ILI9341.h:65-74 | for deltas that fit `int16_t`: a line is drawn exactly when a bound computed from the deltas and their greatest common divisor holds |
| LineLimits.PeakBounds | include/Adafruit_ILI9341.h:71-73 | no doubled error term exceeds that peak |
| LineLimits.PeakIsReached | include/Adafruit_ILI9341.h:71-73 | some turn of the line attains it |
| LineLimits.LongerLinesFit | include/Adafruit_ILI9341.h:71 | on level lines and on slope one third the limit is met exactly, beyond the bound for all slopes |
| LineLoop.ShortLinesAreDrawn | include/Adafruit_ILI9341.h:71 | lines with three times the longer delta at most 32767 are always drawn |
| LineLoop.AxisLinesAreDrawn | include/Adafruit_ILI9341.h:63-75 | the exact lengths for which level and plumb lines are drawn |
| LineLoop.LongLineNeverEnds | include/Adafruit_ILI9341.h:68-74 | the loop for (0,0)-(16384,0) is never at its end point, however long it runs |
| LineLoop.TurnOnce | include/Adafruit_ILI9341.h:71-73 | the two conditional updates, with their `int16_t` conversions, are one turn of the state machine |
| Display.Ili9341.DrawLine | include/Adafruit_ILI9341.h:63-75 | whenever the tests hold the loop stops, and exactly the dots of the line that are on the screen have the colour |
| Display.Ili9341.DrawPixel | include/Adafruit_ILI9341.h:50-54 | one pixel inside the screen changes, none outside |
| Canvas.PaintedAt | include/Adafruit_ILI9341.h:50-61 | of a painted frame buffer, cell y·240+x has the colour if (x, y) is a dot of the shape, and is as it was otherwise |
| Display.Ili9341.ReadPixel | include/Adafruit_ILI9341.h:56-61 | answers cell y·240+x of the screen, 0 off it |
| Screen.LineIsSeen | include/Adafruit_ILI9341.h:63-75 | after a line is drawn, exactly its dots on the screen read as the colour, all else as before |
| Screen.RectIsSeen | include/Adafruit_ILI9341.h:84-88 | after a rectangle is filled, exactly its pixels on the screen do |
| Screen.FrameIsSeen | include/Adafruit_ILI9341.h:77-82 | after a rectangle is drawn, exactly its border pixels do |
| Screen.DiscIsSeen | include/Adafruit_ILI9341.h:104-108 | after a circle is filled, exactly the pixels within the radius of the centre do |
| Screen.CircleIsSeen | include/Adafruit_ILI9341.h:90-102 | after a circle is drawn, exactly the pixels half a unit around the radius do |
| Display.Ili9341.DrawRect | include/Adafruit_ILI9341.h:77-82 | paints the four lines between the corners |
| Display.SidesOfRect | include/Adafruit_ILI9341.h:77-82 | those four lines are the sides of the rectangle the corners span, also for negative sizes |
| Display.RectIsFrame | include/Adafruit_ILI9341.h:77-82 | for positive sizes they are the one-pixel frame of the box |
| Display.Ili9341.FillRect | include/Adafruit_ILI9341.h:84-88 | paints exactly the clipped box, and nothing for an empty one |
| Display.Ili9341.DrawCircle | include/Adafruit_ILI9341.h:90-102 | terminates for every radius and paints what the loop on `int16_t` plots, which is the midpoint circle for the radii that fit |
| CircleLoop.CirclesDrawn | include/Adafruit_ILI9341.h:90-102 | the plotted offsets are the midpoint circle if and only if the radius is at most 16556, or 16642 or 16643 |
| CircleLoop.PlotsTheCircle | include/Adafruit_ILI9341.h:94-100 | they are exactly when no column's error term leaves `int16_t`, whatever ddF_x and ddF_y wrap to |
| CircleLoop.GoesAstray | include/Adafruit_ILI9341.h:95 | an error term that does not fit makes the loop plot an offset that is not on the circle |
| CircleLoop.FirstFailure | include/Adafruit_ILI9341.h:95-96 | radius 16557 reaches the error term −32769 in column 129 and is not drawn |
| Circles.CircleIsSymmetric | include/Adafruit_ILI9341.h:97-100 | the circle is closed under the eight symmetries of its centre |
| Circles.CircleIsClose | include/Adafruit_ILI9341.h:90-102 | abs(x²+y²−r²) is at most max(abs x, abs y) for every dot |
| Circles.NextColumn | include/Adafruit_ILI9341.h:95-96 | with f = (x+1)²+y²−y−r² the sign of f decides the nearest row of the next column, and f stays between −2y and 2x |
| Circles.ColumnDots | include/Adafruit_ILI9341.h:97-100 | the eight pixels of a turn are exactly the dots the circle gains with that column |
| Circles.CircleIsComplete | include/Adafruit_ILI9341.h:94 | when x meets y no dot of the circle is missing |
| CircleLoop.ColumnIsNearest | include/Adafruit_ILI9341.h:94-96 | no other lattice point of its column comes closer to the radius than the dot |
| CircleLoop.EveryColumnHasOne | include/Adafruit_ILI9341.h:94-96 | every column of the octant has a dot |
| CircleLoop.TurnTracks | include/Adafruit_ILI9341.h:94-96 | a turn keeps f, ddF_x = 2x+1 and ddF_y = −2y, reduced to `int16_t`, tied to the next column |
| CircleLoop.TurnOnce | include/Adafruit_ILI9341.h:95-96 | the increments with their `int16_t` conversions are one turn of the state machine |
| Counters.LoopEnds | include/Adafruit_ILI9341.h:85-86 | a loop over an `int16_t` counter reaches its bound exactly when that is at most 32767 |
| MachineInts.ConversionsAreModular | include/Adafruit_ILI9341.h:65-67 | the conversions to 16 bits keep the value modulo 2^16 |
| Display.StampTranslates | include/Adafruit_ILI9341.h:97-100 | as long as no coordinate wraps, the painted shape is the shape moved to the centre |
| Display.Ili9341.FillCircle | include/Adafruit_ILI9341.h:104-108 | paints exactly the offsets with x²+y² at most r² |
| Crc8.CrcIsRegister | include/OneWire.h:38-53 | over every message the eight XOR constants equal bit-serial division by the reflected x^8+x^5+x^4+1 |
| Crc8.RomCode | include/OneWire.h:38-53 | the worked example of Maxim Application Note 27 has the CRC printed there |
| Crc8.ComputeCrc8 | include/OneWire.h:38-53 | the loop computes the shift register's content after the bits of the array |
| Crc8.CrcIsLinear | include/OneWire.h:38-53 | the CRC of the XOR of two equally long messages is the XOR of their CRCs |
| Crc8Detection.OddErrorsAreDetected | include/OneWire.h:38-53 | messages that differ in an odd number of bits have different CRCs |
| Crc8Detection.BurstsAreDetected | include/OneWire.h:38-53 | different messages that differ only within eight consecutive bits have different CRCs |
| Crc8Detection.CheckByte | include/OneWire.h:38-53 | a message followed by c has CRC 0 exactly when c is the message's CRC |
| Crc8Detection.DoubleErrors | include/OneWire.h:38-53 | two flipped bits go unnoticed exactly when their distance is a multiple of 127 |
| Crc8Detection.ThreeErrorsAreDetected | include/OneWire.h:38-53 | up to three flipped bits in at most 15 bytes are always noticed |
| Crc8Detection.PeriodIs127 | include/OneWire.h:38-53 | a lone bit returns to its pattern in the register after 127 clocks and no fewer |
| MatrixLayout.CoordinateThere | include/Adafruit_NeoMatrix.h:96-126 | for all sizes, tiles and flags a coordinate's index is within the strip and leads back to the coordinate |
| MatrixLayout.PixelBack | include/Adafruit_NeoMatrix.h:96-126 | every index of the strip comes from a coordinate of the grid, so the map is a bijection |
| MatrixLayout.ZigzagIsContinuous | include/Adafruit_NeoMatrix.h:115-121 | with zigzag, consecutive indices within a tile are grid neighbours |
| NeoWiring.LedOfPanel | include/Adafruit_NeoMatrix.h:96-126 | for every size, tile and flag byte, which coordinate has the number of the given place of the given line |
| NeoWiring.FirstLedIsCorner | include/Adafruit_NeoMatrix.h:108-112 | bits 0x01 and 0x02 name the corner of a panel's first LED |
| NeoWiring.LinesRunAlong | include/Adafruit_NeoMatrix.h:107-121 | lines run along x without bit 0x04 and along y with it |
| NeoWiring.LinesMoveAway | include/Adafruit_NeoMatrix.h:111-121 | each line lies one further from that corner than the one before |
| NeoWiring.LineStarts | include/Adafruit_NeoMatrix.h:116-119 | without bit 0x08 every line starts on the corner's side, with it the odd ones start on the other |
| NeoWiring.DefaultMatrix | test/test_neomatrix.cpp:8-51 | the indices the test asks for, single and tiled |
| NeoWiring.ChannelsAreExpanded | include/Adafruit_NeoMatrix.h:61-63 | red, green and blue of an RGB565 colour, from the top, shifted to eight bits |
| NeoMatrix.Matrix.constructor | include/Adafruit_NeoMatrix.h:35-50 | the layout is read off the sizes and the flag byte, and the strip is as long as 16 bits tell, all black |
| NeoMatrix.Matrix.DrawPixel | include/Adafruit_NeoMatrix.h:56-66 | one LED, the one the coordinate reaches, takes the expanded colour, or none does |
| NeoMatrix.Matrix.FillScreen | include/Adafruit_NeoMatrix.h:68-75 | every LED takes the expanded colour |
| NeoMatrix.WholeGridIsDrawable | include/Adafruit_NeoMatrix.h:56-66 | every coordinate reaches its own LED exactly when the LEDs are countable in 16 bits and the sides in 15 |
| NeoMatrix.DrawingAllIsFilling | include/Adafruit_NeoMatrix.h:56-75 | drawing all coordinates in one colour, in any order and with repetitions, equals `fillScreen` |
| NeoMatrix.TurnedGrid | include/Adafruit_NeoMatrix.h:57-58 | at an odd rotation every coordinate is still reached exactly when the grid is square |
| NeoPixel.Strip.SetPixelColor | include/Adafruit_NeoPixel.h:38-43 | of the byte triples exactly the addressed pixel's changes |
| NeoPixel.Strip.Fill | include/Adafruit_NeoPixel.h:89-93 | exactly the pixels of the range take the colour; a zero count means to the end, computed in 16 bits |
| NeoPixel.Strip.GetPixelColor | include/Adafruit_NeoPixel.h:49-54 | the packed colour of the addressed pixel, 0 past the end |
| NeoPixel.UnpackPacked | include/Adafruit_NeoPixel.h:45-59 | packing a colour and taking it apart again loses nothing |
| NeoWiring.BytesOfColor | include/Adafruit_NeoPixel.h:45-59 | red is the highest of the three bytes of a packed colour, blue the lowest, more bytes are ignored |
| NeoPixel.Strip.UpdateLength | include/Adafruit_NeoPixel.h:95-98 | the common pixels stay, new ones are black |
| RtcLib.WeekdayAdvances | include/RTClib.h:54-61 | across month ends, leap days and century rules the next day has the next weekday |
| RtcLib.SakamotoCounts | include/RTClib.h:54-61 | for every date from 2000 on the formula is (6 + days elapsed since 2000-01-01) mod 7 |
| RtcLib.KnownDays | test/test_rtclib.cpp:16-17 | the test's Monday, and weekdays around leap days and a century |
| RtcLib.LeapYears | include/RTClib.h:60 | every fourth year has a 29 February, a century only if its number divides by four |
| RtcLib.WeekdayIsRight | include/RTClib.h:26-61 | with the year kept in a byte the weekday is right exactly up to 2255, among the years to 2511 |
| RtcLib.WeekdayOfAnyYear | include/RTClib.h:26-61 | for every year the constructor takes from 2000 on, it is right exactly when the lost years make whole weeks |
| RtcLib.ShortYears | include/RTClib.h:28 | years below 2000 are taken modulo 256 as years of this century |
| RtcLib.FieldsAddUp | include/RTClib.h:102-110 | the fields of any span, negative ones included, add up to it, stay in range and share its sign |
| RtcLib.FieldsComeBack | include/RTClib.h:105-110 | for any arguments: days, hours, minutes and seconds come back exactly when the last three are in range, no two have opposite signs and the total fits `int32_t` |
| SdModel.NormalIsGood | include/SD_MMC.h:32-37 | normalised paths start with a slash, end in none but the root's, and are fixed points |
| SdModel.NormalPathIs | include/SD_MMC.h:32-37 | the normal path is the path, with a slash put before it if it has none, without the slashes at its end |
| SdMmc.NormPath | include/SD_MMC.h:32-37 | the trimming loop computes the normal path |
| SdModel.WriteLands | include/SD_MMC.h:97-109 | a write puts its bytes at the position and keeps all others exactly when the position is within the file |
| SdModel.RunAgrees | include/SD_MMC.h:79-117 | over every run of writes, reads and seeks, the vector is a map from positions to bytes at every step exactly when no byte is written past the end |
| SdModel.ChunksConcatenate | include/SD_MMC.h:86-95 | reading in any chunks concatenates to the stored bytes from the position on |
| SdModel.WriteUses | include/SD_MMC.h:97-109 | used bytes change by the growth of the file written, and no other file changes |
| SdModel.RenameMoves | include/SD_MMC.h:193-202 | the content moves if and only if the paths differ, nothing else changes, and only what was overwritten is released |
| SdModel.ChildLiesIn | include/SD_MMC.h:127-133 | the string test for a child holds exactly for directory, slash and a slash-free name |
| SdModel.OneParent | include/SD_MMC.h:127-133 | no path is a child of two directories |
| SdModel.ListingIsExact | include/SD_MMC.h:124-142 | a listing holds exactly the stored paths directly in the directory, each once, ascending |
| SdModel.NewFileIsListed | include/SD_MMC.h:124-142 | whatever is stored under a directory, a slash and a name is in that directory's listing |
| SdModel.MyDirectory | test/test_sd_mmc.cpp:74-92 | the test's directory lists its two files |
| SdMmc.ListDirectory | include/SD_MMC.h:124-142 | calling `openNextFile` until it fails yields the listing, and from then on it fails for ever |
| SdMmc.MakeFile | include/SD_MMC.h:124-172 | what is opened for writing in a directory is listed there |
| SdMmc.SdmmcFile.OpenNextFile | include/SD_MMC.h:124-142 | the scan answers the child at the handle's index and moves on, or an invalid file |
| SdMmc.SdmmcFile.Write | include/SD_MMC.h:97-109 | a write changes its own file by splicing; a read-only handle changes nothing |
| SdMmc.SdmmcFile.ReadInto | include/SD_MMC.h:86-95 | answers the bytes from the position, as many as there are, and moves past them |
| SdMmc.SdmmcFile.ReadByte | include/SD_MMC.h:79-84 | answers the byte at the position and moves on, or −1 |
| SdMmc.SdMmcClass.Open | include/SD_MMC.h:167-172 | reading changes nothing, appending keeps the content, writing empties it, and stored paths stay normal |
| SdMmc.SdMmcClass.Mkdir | include/SD_MMC.h:179-184 | the entry becomes a directory, keeping what it held |
| SdMmc.SdMmcClass.Remove | include/SD_MMC.h:186-189 | the entry is gone and the answer says whether it was there |
| SdMmc.SdMmcClass.Rename | include/SD_MMC.h:193-202 | fails on a missing source and otherwise renames |
| SdMmc.SdMmcClass.UsedBytes | include/SD_MMC.h:205-210 | the sum of all file sizes |
| PrefsModel.SharedKeys | include/Preferences.h:105 | two namespaces can name the same key exactly when one, with its slash, starts the other with its slash |
| PrefsModel.FqnIsInjective | include/Preferences.h:105 | slash-free namespaces never alias |
| PrefsModel.StepRefines | include/Preferences.h:11-97 | every operation on the flat store answers and changes what it does on one map per namespace |
| PrefsModel.RunRefines | include/Preferences.h:11-97 | so does every interleaving of calls on any number of handles |
| PrefsModel.ReadOnlyChangesNothing | include/Preferences.h:11-61 | a handle only ever begun read-only leaves no trace in any run: without its calls the store and every other handle's answers are the same |
| PrefsModel.TypedRoundTrip | include/Preferences.h:113-127 | an integer comes back as itself from its own type, modulo 2^bits from another of its width, and as the default from any other width |
| PrefsModel.ByteAt | include/Preferences.h:116 | byte i of a stored number is its digit i to the base 256, the lowest first |
| PrefsModel.IntTypes | include/Preferences.h:37-46 | the ranges of the integer types |
| PrefsModel.SomeBytes | include/Preferences.h:116 | two stored numbers, byte by byte |
| Preferences.Preferences.ClearAll | include/Preferences.h:19-29 | the erasing loop leaves exactly the keys without the prefix |
| Preferences.Preferences.PutInt | include/Preferences.h:113-118 | stores the value's bytes under the qualified key, unless read-only |
| Preferences.Preferences.PutRaw | include/Preferences.h:51-64 | stores the bytes under the namespace, a slash and the key, unless read-only |
| PrefsModel.LoadedIsStored | include/Preferences.h:124-126 | any bytes of a type's width are the bytes of exactly one of its values, the one that is read |
| Preferences.Preferences.GetTyped | include/Preferences.h:120-127 | the default for a missing key or another width; otherwise the one value of the type whose bytes are stored |
| Preferences.Preferences.RemoveKey | include/Preferences.h:31-34 | erases one key and says whether it was there |
| MedianModel.SortLaws | include/RunningMedian.h:22-23 | sorting gives an ascending sequence with as many elements of every property |
| MedianModel.WindowIsTheLast | include/RunningMedian.h:13-18 | after any run of `add` calls the window is the last samples in order |
| MedianModel.LastSamples | include/RunningMedian.h:13-18 | the window of the last samples, sample by sample |
| MedianModel.MedianIsRobust | include/RunningMedian.h:20-27 | while fewer than half of the samples are corrupted the median lies between the good ones |
| MedianModel.MiddleIsMedian | include/RunningMedian.h:20-27 | a value that more than half of the samples do not exceed and more than half are not below is the median |
| MedianModel.MeanOfMiddleIsMedian | include/RunningMedian.h:26 | of two samples that split the window in halves the median is the mean |
| MedianModel.MedianIsInTheMiddle | include/RunningMedian.h:20-27 | every window is of one of these two kinds |
| MedianModel.MedianOfNegated | include/RunningMedian.h:20-27 | negating all samples negates the median |
| MedianModel.TwoSamples | include/RunningMedian.h:26 | the median of 1 and 2 is 1.5 |
| MedianModel.HalfIsTooMany | include/RunningMedian.h:20-27 | no window size and no set of at least half the positions has that guarantee |
| MedianModel.QuantilesRise | include/RunningMedian.h:64-70 | a larger argument never gives a smaller quantile |
| MedianModel.QuantileIsRanked | include/RunningMedian.h:64-70 | a quantile is at most a value exactly when more samples are than its rank, cut off, counts |
| MedianModel.RankedAtMost | include/RunningMedian.h:57-62 | the sorted element k is at most a value exactly when more than k samples are |
| MedianModel.QuantileEnds | include/RunningMedian.h:36-70 | the quantiles at 0 and 1 are the lowest and the highest sample |
| RunningMedian.RunningMedian.Add | include/RunningMedian.h:13-18 | the window of the last samples becomes that of the samples and the new one |
| RunningMedian.RunningMedian.GetMedian | include/RunningMedian.h:20-27 | sorts a copy and answers the median, 0 for an empty window |
| RunningMedian.RunningMedian.GetHighest | include/RunningMedian.h:36-39 | the scan finds the quantile at 1 |
| RunningMedian.RunningMedian.GetLowest | include/RunningMedian.h:41-44 | the scan finds the quantile at 0 |
| GxEpd2.SeparateRows | include/GxEPD2.h:48-56 | distinct pixels never share a bit exactly when the width is a multiple of eight or there is one row |
| GxEpd2.Panel213Aliases | include/GxEPD2.h:50-51 | on a panel 250 wide two different pixels share a bit |
| GxEpd2.PictureIsPainted | include/GxEPD2.h:44-67 | where pixels are separate, what was painted shows as the clipped shape in the colour and nothing else |
| GxEpd2.RectIsSeen | include/GxEPD2.h:63-67 | after a fill exactly the clipped rectangle reads as the colour |
| GxEpd2.OutlineIsSeen | include/GxEPD2.h:58-61 | after a draw exactly its four clipped sides do |
| GxEpd2.FillIsSeen | include/GxEPD2.h:44-46 | after `fillScreen` every pixel does |
| GxEpd2.FirstBit | include/GxEPD2.h:50-54 | the first pixel is the highest bit of the first byte, set for white and cleared for black |
| GxEpd2.Epd.DrawPixel | include/GxEPD2.h:48-56 | the bit of the pixel is cleared for black, set for any other colour, all others stay |
| GxEpd2.Epd.FillRect | include/GxEPD2.h:63-67 | the nested loops paint exactly the cells of the clipped box |
| GxEpd2.Epd.DrawRect | include/GxEPD2.h:58-61 | the two loops paint exactly the cells of the clipped outline |
| GxEpd2.Epd.TestGetPixel | include/GxEPD2.h:105-110 | reads the picture |
| Ssd1306.CellsAreDistinct | include/Adafruit_SSD1306.h:46-56 | distinct pixels never share a bit |
| Ssd1306.PageOfPixel | include/Adafruit_SSD1306.h:48-51 | a byte holds eight rows of a column, the uppermost in its lowest bit |
| Ssd1306.FirstBit | include/Adafruit_SSD1306.h:50-55 | colour 1 sets the bit, 0 clears it, any other inverts it |
| Ssd1306.ClearIsSeen | include/Adafruit_SSD1306.h:32-36 | after `clearDisplay` no pixel is seen |
| Ssd1306.WholePages | include/Adafruit_SSD1306.h:22-49 | every pixel has a bit in the buffer exactly when the height is a multiple of eight |
| Ssd1306.DrawIsSeen | include/Adafruit_SSD1306.h:46-56 | a draw sets, clears or toggles the pixel drawn, if it has a bit, and no other |
| Ssd1306.Oled.DrawPixel | include/Adafruit_SSD1306.h:46-56 | the bit operations have that effect on the buffer |
| Ssd1306.Oled.GetPixel | include/Adafruit_SSD1306.h:122-127 | reads the picture, off outside it |
| StripMoves.RightUndoesLeft | include/NeoPixelBus.h:90-102 | rotating right by k undoes rotating left by k, and the other way round |
| StripMoves.LeftAt | include/NeoPixelBus.h:93 | after a rotation left by k pixel i has the colour of pixel i+k, around the end |
| StripMoves.ShiftedAt | include/NeoPixelBus.h:104-114 | the shifted strips, pixel by pixel |
| StripMoves.RotationKeepsColours | include/NeoPixelBus.h:90-102 | rotations keep the multiset of colours |
| StripMoves.MovesAddUp | include/NeoPixelBus.h:90-102 | any run of rotations in both directions is one rotation by the net count modulo the length |
| StripMoves.LeftShiftIsRight | include/NeoPixelBus.h:104-108 | `ShiftLeft` drops and pads exactly when the count is within the length or the strip is all black |
| NeoPixelBus.Bus.RotateLeft | include/NeoPixelBus.h:90-95 | the strip is turned by the count modulo its length |
| StripMoves.Right | include/NeoPixelBus.h:100 | a left rotation of the reversed strip, reversed again, moves the last pixels before the others |
| NeoPixelBus.Bus.RotateRight | include/NeoPixelBus.h:97-102 | rotating from the far end turns the strip to the right by the count modulo its length |
| NeoPixelBus.Bus.ShiftLeft | include/NeoPixelBus.h:104-108 | for any count up to 65535: the dropped and padded strip, or the turned one past the length |
| NeoPixelBus.Bus.ShiftRight | include/NeoPixelBus.h:110-114 | for any count: the strip with that many dropped at the end and black in front |
| TopicFilters.ClientAgainstStandard | include/PubSubClient.h:150-159 | for every filter and every topic name without wildcards, in which cases `topicMatch` and the level-by-level matching of section 4.7 of MQTT 3.1.1 agree |
| TopicFilters.AcceptedIsMatch | include/PubSubClient.h:150-159 | what is accepted is a match under section 4.7 except for `#` on a topic starting with `$` |
| TopicFilters.AcceptedIsWellFormed | include/PubSubClient.h:150-159 | only filters with their wildcards in legal places ever accept a topic |
| TopicFilters.LevelsArePieces | include/PubSubClient.h:150-159 | the levels hold no slash and joined by slashes give back the text |
| TopicFilters.MatchedLevels | include/PubSubClient.h:150-159 | level-by-level matching: each level equal or taken by `+`, any number behind a last `#` |
| TopicFilters.SensorTopics | test/test_mqtt.cpp:33-44 | which of the test's filters take its topic |
| TopicFilters.SensorMatches | include/PubSubClient.h:150-159 | which of them the standard would deliver |
| PubSubModel.StateIsHistory | include/PubSubClient.h:59-122 | after any run of calls the connection, the callback, the subscriptions, the log and the deliveries are what the history of calls says: live filters in order, each connected publish once in the log and once per live matching filter at the callback |
| PubSubModel.TakersAreCounted | include/PubSubClient.h:97-98 | as many entries take a topic as there are places in the list whose filter matches it |
| PubSubModel.OfflineIsEmpty | include/PubSubClient.h:71-75 | a disconnected client never holds a subscription |
| PubSubClient.PubSubClient.Publish | include/PubSubClient.h:85-105 | the delivering loop appends one log entry and one delivery per matching entry, or refuses |
| PubSubClient.PubSubClient.Subscribe | include/PubSubClient.h:107-114 | appends the filter, or refuses |
| PubSubClient.PubSubClient.Unsubscribe | include/PubSubClient.h:116-122 | removes every equal filter and keeps the order, or refuses |
| PubSubClient.PubSubClient.Disconnect | include/PubSubClient.h:71-75 | drops the connection and all subscriptions |

## Left out

- JSON floats: the two conversions between text and double belong to the C++ library and are parameters (`FloatLib`); `RoundTrip` is therefore about trees without floats.
- JSON null pointers as nodes, the fixed-buffer overload of `serializeJson` and the variant accessors: single assignments.
- `long` is 64 bits wide, as on the hosts the emulator runs on.
- JsonFailures.ParserGetsStuck: what the code does after stepping over the terminator is undefined and ends the model's run.
- Display.Ili9341.DrawLine: requires that the line's tests hold; otherwise the loop leaves the line (`DrawsTheLine`) and may run for ever, and what it paints then is not described.
- LineLimits.DrawnLinesFit: for deltas up to 32767; beyond, the condition is known in closed form along the axes (`AxisLinesAreDrawn`) and turn by turn elsewhere.
- Display.Ili9341.DrawRect: requires the same of its four sides, through the exact condition for level and plumb lines.
- Display.Ili9341.FillRect: requires that the loop counters need not pass 32767, where the original does not stop (`LoopEnds`); likewise the rectangle routines of the e-paper class.
- Display.Ili9341.FillCircle: radius 32767, whose counters never pass it (`LoopEnds`), and −32768, whose squares overflow `int`, are excluded.
- Crc8Detection.ThreeErrorsAreDetected: at most 15 bytes, because two bits 127 apart already cancel in 16.
- Tile order flags: the original's `_pixelIndex` ignores them, and so does the model. Matrix sizes are natural numbers.
- NeoPixel brightness, `show` and HSV conversion: output, and single expressions.
- RtcLib.WeekdayIsRight: stated for years up to 2511; `WeekdayOfAnyYear` covers the rest with a condition on the years lost.
- `unixtime`, `DateTime(uint32_t)`, `operator+` and parsing of compile dates: they rest on the host's C library.
- SdMmc.SdmmcFile.ReadInto: requires a position within the file, because the original's subtraction wraps otherwise and reads outside the vector.
- SdModel.RunAgrees: for runs without a bulk read from past the end, which is undefined in the original.
- SD mount flags, `close` and card sizes: stored flags and constants.
- Preferences floats and booleans as typed values; a null namespace or string is the empty one.
- MedianModel.MedianIsRobust: on real numbers, as all of the median model; rounding and NaN are not modelled, nor is `getAverage`; on floats the sum of the two middle samples of an even window overflows near the largest float, and the median is then infinite.
- RunningMedian.RunningMedian.Add: a window of size 0 is excluded because the original erases from an empty vector.
- `std::sort`, `std::rotate`, `std::remove` and `std::map` are given by their specifications.
- The OLED's line, rectangle and circle routines only count calls, so there is nothing to draw.
- E-paper rotation is fixed while a picture is built; `PictureIsPainted` is about one rotation.
- MQTT callbacks are a log of what they were handed; a callback that calls the client again would block on the mutex and is not modelled.
- MQTT topic names with wildcards, which no topic name may hold.
- Files on the host, sockets, serial output and logging.
