# ST7565 serial LCD driver, modelled in Dafny

This project models the core of a Linux kernel driver for an ST7565 graphic
LCD controller. The driver talks to the controller over five GPIO lines:
chip select (CS), reset (RST), command/data select (A0), serial clock (CLK)
and serial data in (SI).

Each driver routine becomes a pure function. It maps the routine's arguments
to the sequence of `gpio_set_value` events the routine emits (`seq<Event>`):

- `lcd_byte` shifts a byte out MSB first, pulsing CLK low then high once per
  bit (`Serial.LcdByte`).
- `lcd_transfer_data` frames one byte with CS and drives A0 from its flag
  (`Serial.Transfer`).
- `lcd_set_page` sends three address commands (`Protocol.SetPage`).
- `lcd_clear` blanks eight pages of 129 columns (`Protocol.ClearTrace`).
- `st7565_init_lcd` pulses reset, sends twelve power-up commands and clears
  (`Protocol.InitTrace`).
- `lcd_ascii5x7` draws one 5x7 glyph from the font table (`Text.Glyph`).
- `lcd_ascii5x7_string` draws a string (`Text.RenderString`).

Each trace is checked against a partner: a model of the controller's serial
receiver (`Receiver`). The receiver samples SI on every rising CLK edge while
CS is low and RST is high. On the eighth edge it takes the register as one
word, a command when A0 is low and display data when A0 is high. The central
property is `Emits(t, ws)`: from every receiver state between words, trace
`t` delivers exactly the words `ws` and leaves the receiver between words
again. The round-trip lemmas prove this for each routine, layer by layer. The
content lemmas then state what those words are:

- page and column numbers read back;
- zero data bytes for the clear;
- the twelve power-up commands, in order;
- the five font bytes of each glyph.

C integer types are modelled explicitly:

- `unsigned char` is `bv8`.
- `unsigned int` is `bv32`, so column arithmetic wraps modulo 2^32.
- An `unsigned int` passed as an `unsigned char` keeps its low eight bits
  (`Text.Narrow`).
- The glyph number `c - 32` is taken modulo 256.

The font table is a parameter: any byte sequence, five bytes per glyph.

`lcd_set_page` ORs the page number into 0xB0 without masking it
(st7565.c:294). `Protocol.AddressRoundTrip` shows the consequence: the
controller reads the page back exactly when it is below 16.

For a string whose `strlen` is 0, `strlen(str) - 1` wraps as a `size_t`, and
the loop then reads far past the string. So the model makes a non-empty
string a precondition (`Text.Renderable`).

## Model

| member | source | states |
|---|---|---|
| Lines.GpioToPin | st7565.c:26 | A pin number encodes its bank and offset: for an offset below 32, dividing the pin by 32 gives the bank back and the remainder gives the offset. |
| Lines.Pin | st7565.c:29-33 | The five control macros: CS is bank 1 offset 13, RST bank 1 offset 12, A0 bank 0 offset 26, CLK bank 1 offset 15, SI bank 1 offset 14, each through `GPIO_TO_PIN`. Its values and injectivity are stated by `Lines.PinAssignment`. |
| Lines.LineOfPin | st7565.c:29-33 | Looking up a pin number yields only a line actually wired to that pin. |
| Lines.PinRoundTrip | st7565.c:29-33 | Every line is found again from its pin number. |
| Lines.PinAssignment | st7565.c:26-33 | CS, RST, A0, CLK and SI sit on pins 45, 44, 26, 47 and 46, and no two lines share a pin. |
| Serial.ShiftedBitsAreMsbFirst | st7565.c:318-331 | Testing `tmp & 0x80` and then shifting `tmp` left, eight times, visits the bits of the byte from most to least significant. |
| Serial.ShiftOut | st7565.c:320-333 | The loop of `lcd_byte` with `k` iterations left: CLK low, SI from `tmp & 0x80`, `tmp <<= 1` on an `unsigned char`, CLK high. Its contract gives three events per iteration. |
| Serial.LcdByte | st7565.c:316-334 | `lcd_byte(bits)`: the loop run eight times from `tmp = bits`. `Serial.LcdByteCells` states its content. |
| Serial.LcdByteCells | st7565.c:316-334 | `lcd_byte` emits the bit cells of its byte MSB first, and so exactly eight rising CLK edges, whatever level CLK started at. |
| Serial.TransferRisingEdges | st7565.c:300-314 | A transfer clocks exactly eight edges when CLK idles high. When CLK starts low, its `CLK := 1` after `CS := 0` is a ninth edge. CLK is high afterwards either way. |
| Serial.Transfer | st7565.c:300-314 | `lcd_transfer_data(value, A0)`: CS low, CLK high, A0 high exactly when the `A0` argument is nonzero, `lcd_byte(value)`, CS high; 28 line events in all. `Receiver.TransferRoundTrip` states what the controller receives. |
| Receiver.LcdByteRoundTrip | st7565.c:316-334 | A selected receiver between words takes the output of `lcd_byte(v)` as exactly one word carrying `v`, tagged by A0, and stays selected between words. |
| Receiver.TransferRoundTrip | st7565.c:300-314 | `lcd_transfer_data(value, a0)` delivers exactly one word `value`: data when `a0` is nonzero, a command otherwise. An idle receiver decodes exactly that word. |
| Protocol.SetPageRoundTrip | st7565.c:288-298 | `lcd_set_page` delivers three commands, in order: `page OR 0xB0`, `((column & 0xF0) >> 4) OR 0x10` and `column & 0x0F`. |
| Protocol.SetPage | st7565.c:288-298 | `lcd_set_page(page, column)`: three command transfers, `page OR 0xB0` with the page unmasked, `((column & 0xF0) >> 4) OR 0x10` and `column & 0x0F`; 84 line events in all. |
| Protocol.AddressRoundTrip | st7565.c:288-298 | The controller parses back exactly the page and the low byte of the column if and only if the page is below 16. Nothing masks the page. |
| Protocol.NibblesRoundTrip | st7565.c:290-294 | The column's two nibbles reassemble into its low byte. The page-set command keeps its 0xB upper nibble iff bit 6 of the page is clear, and carries the page iff the page is below 16. |
| Protocol.ColumnHighBitsIgnored | st7565.c:290-293 | Column bits above bit 7 never reach the lines. |
| Protocol.ClearRoundTrip | st7565.c:272-286 | The clear, inside its outer CS bracket, delivers exactly the clear's words from every ready receiver, and an idle receiver decodes exactly those. |
| Protocol.ClearContents | st7565.c:272-286 | The clear delivers 8 blocks of 132 words: for pages 0 to 7 in order, the address of column 0 of that page, then 129 zero data bytes. That is 1032 zero data bytes and 24 command bytes in all. |
| Protocol.ClearTwice | st7565.c:272-286 | The clear leaves the receiver ready, so two clears in a row deliver the clear's words twice. |
| Protocol.ClearTrace | st7565.c:272-286 | `lcd_clear`: CS low, then for pages 0 to 7 `lcd_set_page(page, 0)` followed by 129 `lcd_transfer_data(0, 1)`, then CS high. `Protocol.ClearContents` states what it delivers. |
| Protocol.CommandsRoundTrip | st7565.c:206-245 | A run of command transfers delivers its bytes as commands, in order. |
| Protocol.ResetPulseReadies | st7565.c:203-205 | With CLK high, the reset pulse with CS high delivers nothing and leaves the receiver between words, even one caught mid-word. |
| Protocol.InitRoundTrip | st7565.c:201-247 | A receiver whose CLK idles high, in any other state, receives the twelve power-up commands E2 A2 A0 C8 A4 A7 2F 60 27 81 30 AF in order, then exactly what one clear delivers. Its command bytes are those twelve followed by the clear's. |
| Protocol.InitTrace | st7565.c:201-247 | `st7565_init_lcd`: CS high, RST low then high, the twelve command transfers in source order, then `lcd_clear`. `Protocol.InitRoundTrip` states what it delivers. |
| Protocol.StrayTransfer | st7565.c:300-314 | A transfer that starts with CS high and CLK and SI low clocks in a stray zero bit. Its word is then `value >> 1`, and bit 0 is lost when CS rises. |
| Protocol.PowerOnStrayBit | st7565.c:158-172 | After the module drives every line low, initialisation's first word arrives as 0x71 instead of the internal-reset command 0xE2. Every later word arrives intact. A receiver starting idle with CLK high receives 0xE2. |
| Text.GlyphIndexWraps | st7565.c:263 | `c -= 32` on an `unsigned char`: characters from 0x20 up are glyphs `c - 32`, control characters wrap to glyphs 224 to 255. |
| Text.GlyphIndex | st7565.c:263 | The glyph number `c - 32` of an `unsigned char` `c`, taken modulo 256. `Text.GlyphIndexWraps` states its range. |
| Text.Narrow | st7565.c:264 | The `unsigned int` `xPos` passed to the `unsigned char` page parameter of `lcd_set_page` keeps its low eight bits. |
| Text.PrintableInFont | st7565.c:263-268 | A printable character can be drawn exactly when the font holds at least `c - 31` glyphs of five bytes. |
| Text.GlyphColumnsRoundTrip | st7565.c:265-269 | The column loop delivers the remaining font bytes of the glyph as data, in order. |
| Text.GlyphRoundTrip | st7565.c:261-270 | `lcd_ascii5x7` delivers the address of its page and column, then the five font bytes of the glyph as data. An idle receiver decodes exactly that. |
| Text.GlyphContents | st7565.c:261-270 | A glyph carries 3 command bytes and 5 data bytes. Data byte `i` is `font[i + c' * 5]`, where `c'` is `c - 32` modulo 256. The controller reads back the page, narrowed to a byte, and the column's low byte iff that page is below 16. |
| Text.Glyph | st7565.c:261-270 | `lcd_ascii5x7(xPos, yPos, c)`: `lcd_set_page` of the narrowed page and the column, then `lcd_transfer_data(font[i + c' * 5], 1)` for `i` from 0 to 4. It requires those five reads to be inside the font. |
| Text.Strlen | st7565.c:254 | `strlen` finds the first zero byte: the byte at the result is zero and every byte before it is nonzero. |
| Text.ColumnAt | st7565.c:256 | The column `yPos + (i * 6)` of iteration `i`: six columns past the previous one, in `unsigned int` arithmetic that wraps modulo 2^32. |
| Text.RenderRoundTrip | st7565.c:249-259 | A null string delivers nothing. Otherwise the glyphs' words arrive in order and nothing else, from every ready receiver, and an idle receiver decodes exactly that. |
| Text.RenderLayout | st7565.c:249-259 | A string delivers `strlen - 1` blocks of eight words. Block `k` is the glyph for `str[k]` on the same page at column `ColumnAt(column, k)`: six columns past the previous glyph, in 32-bit arithmetic, as `yPos + (i * 6)` steps. |
| Text.RenderString | st7565.c:249-259 | `lcd_ascii5x7_string(xPos, yPos, str)`: nothing for a null pointer, otherwise iteration `k` of the loop draws `str[k]` at `ColumnAt(yPos, k)` for `k` below `strlen(str) - 1`. `Text.RenderRoundTrip` and `Text.RenderLayout` state what it delivers. |
| Text.LastCharacterDropped | st7565.c:254 | The loop bound `strlen(str) - 1` skips the last character: "AB" draws only the glyph for 'A'. |

## Left out

- Kernel module lifecycle (st7565.c:127-199): character device registration, GPIO requests and the buffer allocation. This is operating-system plumbing. Only its effect on the lines is kept: every line starts driven low (`Protocol.PowerOn`).
- File operations (st7565.c:85-125). They copy user data into a 64-byte buffer and call `lcd_ascii5x7_string(0, 1, rx_buffer)`, drawing at page 0, column 1 (st7565.c:112). The copy is a foreign call. A write that fills the buffer leaves it unterminated, which is outside the string model's precondition.
- The font table contents (`font.h`) are not part of this model. The font is an arbitrary byte sequence.
- Timing and electrical behaviour are not modelled: GPIO call latency, setup and hold times, and what the controller does with each command beyond receiving it.
- Text.RenderString: a read past the end of the font table, or a string without a terminator, is undefined behaviour in C. Both are preconditions (`InFont`, `Renderable`) rather than modelled outcomes.
- Text.Renderable: an empty string (`strlen` 0) makes `strlen(str) - 1` wrap as a `size_t`, after which the loop reads out of bounds. This is a precondition. So is the absence of `int` overflow in `i * 6`.
- Text.ColumnAt: column `k` is modelled as `k` additions of 6 in `bv32`. Its equality with `column + 6 * k` modulo 2^32 is not proved, because of the cost of converting between integers and bit-vectors in the solver.
- The receiver is the part of the controller the driver relies on: the serial shift register and the A0 tag. Command semantics, display RAM and the controller's page and column counters are out of scope.
