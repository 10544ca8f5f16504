/** Text output: one 5x7 glyph (`lcd_ascii5x7`) and a string of them
    (`lcd_ascii5x7_string`). The font table is a parameter: any sequence of
    bytes, five per glyph, glyph 0 being the character 0x20 (space). */
module Text {
  import opened Seqs
  import opened Lines
  import opened Serial
  import opened Receiver
  import opened Protocol

  /** `c -= 32` on an `unsigned char`: the glyph number of character `c`,
      the difference taken modulo 256. */
  function GlyphIndex(c: Byte): nat
  {
    (c as int - 32) % 256
  }

  /** The glyph number is what the `unsigned char` subtraction leaves: the
      printable characters from 0x20 on count from glyph 0, and the control
      characters below 0x20 wrap round to glyphs 224 to 255. */
  lemma GlyphIndexWraps(c: Byte)
    ensures GlyphIndex(c) == (c - 32) as int
    ensures GlyphIndex(c) < 256
    ensures 32 <= c ==> GlyphIndex(c) == c as int - 32
    ensures c < 32 ==> GlyphIndex(c) == c as int + 224
  {
  }

  /** The offset of the first column of the glyph for `c` in the font. */
  function GlyphBase(c: Byte): nat
  {
    GlyphIndex(c) * 5
  }

  /** All five reads `font[i + c * 5]` of the glyph for `c` are inside the
      font table. */
  predicate InFont(font: seq<Byte>, c: Byte)
  {
    GlyphBase(c) + 4 < |font|
  }

  /** The glyph loop of `lcd_ascii5x7` from column `i` on: one data
      transfer per font byte. */
  function GlyphColumns(font: seq<Byte>, base: nat, i: nat): (r: seq<Event>)
    requires i <= 5 && base + 5 <= |font|
    ensures |r| == 28 * (5 - i)
    decreases 5 - i
  {
    if i == 5 then [] else Transfer(font[base + i], 1) + GlyphColumns(font, base, i + 1)
  }

  /** `lcd_ascii5x7(page, column, c)`: address the page (narrowed to the
      `unsigned char` of `lcd_set_page`) and column, then send the five
      columns of the glyph as display data. */
  function Glyph(font: seq<Byte>, page: Uint, column: Uint, c: Byte): seq<Event>
    requires InFont(font, c)
  {
    SetPage(Narrow(page), column) + GlyphColumns(font, GlyphBase(c), 0)
  }

  /** An `unsigned int` passed where an `unsigned char` is expected keeps
      its low eight bits. */
  function Narrow(x: Uint): Byte
  {
    (x & 0xFF) as Byte
  }

  /** One data word per byte of `bs`, in order. */
  function DataWords(bs: seq<Byte>): (ws: seq<Word>)
    ensures |ws| == |bs|
    ensures forall k :: 0 <= k < |bs| ==> ws[k] == Data(bs[k])
  {
    if |bs| == 0 then [] else [Data(bs[0])] + DataWords(bs[1..])
  }

  /** What the controller receives for one glyph: the address, then the
      five font bytes of the glyph as display data. */
  function GlyphWords(font: seq<Byte>, page: Uint, column: Uint, c: Byte): (ws: seq<Word>)
    requires InFont(font, c)
    ensures |ws| == 8
  {
    AddressWords(Narrow(page), column) + DataWords(font[GlyphBase(c) .. GlyphBase(c) + 5])
  }

  lemma {:induction false} GlyphColumnsRoundTrip(font: seq<Byte>, base: nat, i: nat)
    requires i <= 5 && base + 5 <= |font|
    ensures Emits(GlyphColumns(font, base, i), DataWords(font[base + i .. base + 5]))
    decreases 5 - i
  {
    if i == 5 {
      assert font[base + i .. base + 5] == [];
      EmitsNothing();
    } else {
      GlyphColumnsRoundTrip(font, base, i + 1);
      GlyphColumnStep(font, base, i);
    }
  }

  lemma GlyphColumnStep(font: seq<Byte>, base: nat, i: nat)
    requires i < 5 && base + 5 <= |font|
    requires Emits(GlyphColumns(font, base, i + 1), DataWords(font[base + i + 1 .. base + 5]))
    ensures Emits(GlyphColumns(font, base, i), DataWords(font[base + i .. base + 5]))
  {
    TransferRoundTrip(font[base + i], 1);
    EmitsAppend(Transfer(font[base + i], 1), [Data(font[base + i])],
                GlyphColumns(font, base, i + 1), DataWords(font[base + i + 1 .. base + 5]));
    GlyphColumnsUnfold(font, base, i);
  }

  lemma GlyphColumnsUnfold(font: seq<Byte>, base: nat, i: nat)
    requires i < 5 && base + 5 <= |font|
    ensures GlyphColumns(font, base, i) == Transfer(font[base + i], 1) + GlyphColumns(font, base, i + 1)
    ensures DataWords(font[base + i .. base + 5])
         == [Data(font[base + i])] + DataWords(font[base + i + 1 .. base + 5])
  {
    assert font[base + i .. base + 5][1..] == font[base + i + 1 .. base + 5];
  }

  /** Glyph round trip: `lcd_ascii5x7` delivers the address of its page and
      column and then the five font bytes of the glyph, in order, as data. */
  lemma GlyphRoundTrip(font: seq<Byte>, page: Uint, column: Uint, c: Byte)
    requires InFont(font, c)
    ensures Emits(Glyph(font, page, column, c), GlyphWords(font, page, column, c))
    ensures Decode(Glyph(font, page, column, c)) == GlyphWords(font, page, column, c)
  {
    GlyphPartsRoundTrip(font, Narrow(page), column, GlyphBase(c));
    GlyphUnfold(font, page, column, c);
    EmitsDecode(Glyph(font, page, column, c), GlyphWords(font, page, column, c));
  }

  lemma GlyphUnfold(font: seq<Byte>, page: Uint, column: Uint, c: Byte)
    requires InFont(font, c)
    ensures Glyph(font, page, column, c) == SetPage(Narrow(page), column) + GlyphColumns(font, GlyphBase(c), 0)
    ensures GlyphWords(font, page, column, c)
         == AddressWords(Narrow(page), column) + DataWords(font[GlyphBase(c) .. GlyphBase(c) + 5])
  {
  }

  lemma GlyphPartsRoundTrip(font: seq<Byte>, page: Byte, column: Uint, base: nat)
    requires base + 5 <= |font|
    ensures Emits(SetPage(page, column) + GlyphColumns(font, base, 0),
                  AddressWords(page, column) + DataWords(font[base .. base + 5]))
  {
    SetPageRoundTrip(page, column);
    GlyphColumnsRoundTrip(font, base, 0);
    assert font[base + 0 .. base + 5] == font[base .. base + 5];
    EmitsAppend(SetPage(page, column), AddressWords(page, column),
                GlyphColumns(font, base, 0), DataWords(font[base .. base + 5]));
  }

  lemma {:induction false} DataWordsBytes(bs: seq<Byte>)
    ensures DataBytes(DataWords(bs)) == bs
    ensures CommandBytes(DataWords(bs)) == []
    decreases |bs|
  {
    if |bs| > 0 {
      DataWordsBytes(bs[1..]);
      assert DataWords(bs) == [Data(bs[0])] + DataWords(bs[1..]);
      DataBytesAppend([Data(bs[0])], DataWords(bs[1..]));
      CommandBytesAppend([Data(bs[0])], DataWords(bs[1..]));
    }
  }

  /** What a glyph carries: the controller reads back the page and column,
      provided the page fits its four-bit field, and the data bytes are
      exactly the five font entries `font[c' * 5 + i]`, `i` = 0 to 4, where
      `c'` is `c - 32` modulo 256. */
  lemma GlyphContents(font: seq<Byte>, page: Uint, column: Uint, c: Byte)
    requires InFont(font, c)
    ensures var ws := GlyphWords(font, page, column, c);
      && (ParseAddress(ws[..3]) == Some((Narrow(page), (column & 0xFF) as Byte))
          <==> page & 0xFF < 16)
      && |DataBytes(ws)| == 5
      && (forall i :: 0 <= i < 5 ==>
            DataBytes(ws)[i] == font[i + GlyphIndex(c) * 5])
      && |CommandBytes(ws)| == 3
  {
    var p: Byte := Narrow(page);
    var a, d := AddressWords(p, column), DataWords(font[GlyphBase(c) .. GlyphBase(c) + 5]);
    var ws := GlyphWords(font, page, column, c);
    assert ws[..3] == a;
    ParseAddressWords(p, column);
    assert p < 16 <==> page & 0xFF < 16;
    DataBytesAppend(a, d);
    CommandBytesAppend(a, d);
    AddressWordsBytes(p, column);
    DataWordsBytes(font[GlyphBase(c) .. GlyphBase(c) + 5]);
  }

  /** A printable character `c` (0x20 to 0x7F) is glyph `c - 32`, so it can
      be drawn exactly when the font holds at least `c - 31` glyphs. */
  lemma PrintableInFont(font: seq<Byte>, c: Byte)
    requires 32 <= c < 128
    ensures InFont(font, c) <==> 5 * (c as int - 31) <= |font|
  {
  }

  /** A C string in memory: somewhere a zero byte ends it. */
  predicate Terminated(buf: seq<Byte>)
  {
    exists k :: 0 <= k < |buf| && buf[k] == 0
  }

  /** `strlen`: the number of bytes before the first zero byte. */
  function Strlen(buf: seq<Byte>): (n: nat)
    requires Terminated(buf)
    ensures n < |buf| && buf[n] == 0
    ensures forall k :: 0 <= k < n ==> buf[k] != 0
  {
    if buf[0] == 0 then 0
    else
      assert Terminated(buf[1..]) by {
        var k :| 0 <= k < |buf| && buf[k] == 0;
        assert buf[1..][k - 1] == 0;
      }
      1 + Strlen(buf[1..])
  }

  /** `yPos + (i * 6)`: the column of the `i`th glyph, six columns past the
      one before it, wrapping modulo 2^32 as an `unsigned int`. */
  function ColumnAt(column: Uint, i: nat): Uint
  {
    if i == 0 then column else ColumnAt(column, i - 1) + 6
  }

  /** What `lcd_ascii5x7_string` asks of a non-null string: it is
      terminated, not empty (the loop bound `strlen(str) - 1` is a `size_t`),
      every glyph it draws is in the font, and no `int` product `i * 6`,
      `i` at most `strlen(str) - 2`, overflows. */
  predicate Renderable(font: seq<Byte>, buf: seq<Byte>)
  {
    && Terminated(buf)
    && Strlen(buf) >= 1
    && 6 * (Strlen(buf) - 2) <= 0x7FFF_FFFF
    && forall k :: 0 <= k < Strlen(buf) - 1 ==> InFont(font, buf[k])
  }

  /** The glyphs the loop of `lcd_ascii5x7_string` draws for the first `n`
      characters of `buf`, one trace per iteration: iteration `k` draws
      character `buf[k]` at column `ColumnAt(column, k)`. */
  function GlyphTraces(font: seq<Byte>, page: Uint, column: Uint, buf: seq<Byte>, n: nat): seq<seq<Event>>
    requires n <= |buf|
    requires forall k :: 0 <= k < n ==> InFont(font, buf[k])
  {
    seq(n, k requires 0 <= k < n => Glyph(font, page, ColumnAt(column, k), buf[k]))
  }

  /** The words each iteration of the loop delivers. */
  function GlyphWordLists(font: seq<Byte>, page: Uint, column: Uint, buf: seq<Byte>, n: nat): seq<seq<Word>>
    requires n <= |buf|
    requires forall k :: 0 <= k < n ==> InFont(font, buf[k])
  {
    seq(n, k requires 0 <= k < n => GlyphWords(font, page, ColumnAt(column, k), buf[k]))
  }

  /** `lcd_ascii5x7_string(page, column, str)`: nothing for a null pointer,
      otherwise the first `strlen(str) - 1` characters, the `k`th at column
      `ColumnAt(column, k)`; the last character before the terminator is not
      drawn. */
  function RenderString(font: seq<Byte>, page: Uint, column: Uint, str: Option<seq<Byte>>): seq<Event>
    requires str.Some? ==> Renderable(font, str.value)
  {
    match str
    case None => []
    case Some(buf) => Flatten(GlyphTraces(font, page, column, buf, Strlen(buf) - 1))
  }

  /** The words a string delivers. */
  function RenderWords(font: seq<Byte>, page: Uint, column: Uint, str: Option<seq<Byte>>): seq<Word>
    requires str.Some? ==> Renderable(font, str.value)
  {
    match str
    case None => []
    case Some(buf) => Flatten(GlyphWordLists(font, page, column, buf, Strlen(buf) - 1))
  }

  /** Every iteration of the loop delivers the words of its glyph. */
  lemma TracesEmit(font: seq<Byte>, page: Uint, column: Uint, buf: seq<Byte>, n: nat)
    requires n <= |buf|
    requires forall k :: 0 <= k < n ==> InFont(font, buf[k])
    ensures forall k :: 0 <= k < n ==>
      Emits(GlyphTraces(font, page, column, buf, n)[k], GlyphWordLists(font, page, column, buf, n)[k])
  {
    forall k | 0 <= k < n
      ensures Emits(GlyphTraces(font, page, column, buf, n)[k], GlyphWordLists(font, page, column, buf, n)[k])
    {
      GlyphRoundTrip(font, page, ColumnAt(column, k), buf[k]);
    }
  }

  /** String round trip: a null string delivers nothing; otherwise the
      controller receives the glyphs in order and nothing else. */
  lemma RenderRoundTrip(font: seq<Byte>, page: Uint, column: Uint, str: Option<seq<Byte>>)
    requires str.Some? ==> Renderable(font, str.value)
    ensures Emits(RenderString(font, page, column, str), RenderWords(font, page, column, str))
    ensures Decode(RenderString(font, page, column, str)) == RenderWords(font, page, column, str)
    ensures str.None? ==> RenderString(font, page, column, str) == []
  {
    match str
    case None =>
      EmitsNothing();
      EmitsDecode([], []);
    case Some(buf) =>
      TracesEmit(font, page, column, buf, Strlen(buf) - 1);
      EmitsFlatten(GlyphTraces(font, page, column, buf, Strlen(buf) - 1),
                   GlyphWordLists(font, page, column, buf, Strlen(buf) - 1));
      EmitsDecode(RenderString(font, page, column, str), RenderWords(font, page, column, str));
  }

  /** What a string delivers: `strlen(str) - 1` glyphs of eight words, the
      `k`th being character `str[k]` at column `column + 6 * k` (wrapping
      modulo 2^32) on the same page. */
  lemma RenderLayout(font: seq<Byte>, page: Uint, column: Uint, buf: seq<Byte>)
    requires Renderable(font, buf)
    ensures var ws := RenderWords(font, page, column, Some(buf));
      && |ws| == 8 * (Strlen(buf) - 1)
      && forall k :: 0 <= k < Strlen(buf) - 1 ==>
           ws[8 * k .. 8 * k + 8] == GlyphWords(font, page, ColumnAt(column, k), buf[k])
  {
    FlattenLength(GlyphWordLists(font, page, column, buf, Strlen(buf) - 1), 8);
    forall k | 0 <= k < Strlen(buf) - 1
      ensures RenderWords(font, page, column, Some(buf))[8 * k .. 8 * k + 8]
           == GlyphWords(font, page, ColumnAt(column, k), buf[k])
    {
      RenderBlock(font, page, column, buf, Strlen(buf) - 1, k);
    }
  }

  lemma RenderBlock(font: seq<Byte>, page: Uint, column: Uint, buf: seq<Byte>, n: nat, k: nat)
    requires k < n <= |buf|
    requires forall j :: 0 <= j < n ==> InFont(font, buf[j])
    ensures 8 * k + 8 <= |Flatten(GlyphWordLists(font, page, column, buf, n))|
    ensures Flatten(GlyphWordLists(font, page, column, buf, n))[8 * k .. 8 * k + 8]
         == GlyphWords(font, page, ColumnAt(column, k), buf[k])
  {
    WordListsWidth(font, page, column, buf, n);
    FlattenBlock(GlyphWordLists(font, page, column, buf, n), 8, k);
    WordListsAt(font, page, column, buf, n, k);
  }

  lemma WordListsWidth(font: seq<Byte>, page: Uint, column: Uint, buf: seq<Byte>, n: nat)
    requires n <= |buf|
    requires forall j :: 0 <= j < n ==> InFont(font, buf[j])
    ensures |GlyphWordLists(font, page, column, buf, n)| == n
    ensures forall j :: 0 <= j < n ==> |GlyphWordLists(font, page, column, buf, n)[j]| == 8
  {
  }

  lemma WordListsAt(font: seq<Byte>, page: Uint, column: Uint, buf: seq<Byte>, n: nat, k: nat)
    requires k < n <= |buf|
    requires forall j :: 0 <= j < n ==> InFont(font, buf[j])
    ensures GlyphWordLists(font, page, column, buf, n)[k] == GlyphWords(font, page, ColumnAt(column, k), buf[k])
  {
  }

  /** The character in front of the terminator is never drawn: "AB" with
      its terminator draws the glyph for 'A' alone, at the given column. */
  lemma LastCharacterDropped(font: seq<Byte>, page: Uint, column: Uint)
    requires InFont(font, 0x41)
    ensures Renderable(font, [0x41, 0x42, 0])
    ensures RenderString(font, page, column, Some([0x41, 0x42, 0])) == Glyph(font, page, column, 0x41)
  {
    StrlenAB();
    FlattenOne(GlyphTraces(font, page, column, [0x41, 0x42, 0], 1));
  }

  lemma StrlenAB()
    ensures Terminated([0x41, 0x42, 0]) && Strlen([0x41, 0x42, 0]) == 2
  {
    var buf: seq<Byte> := [0x41, 0x42, 0];
    assert buf[2] == 0;
    assert Strlen(buf[2..]) == 0;
    assert Strlen(buf[1..]) == 1 by { assert buf[1..][1..] == buf[2..]; }
  }
}
