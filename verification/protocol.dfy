/** The controller protocol: page/column addressing (`lcd_set_page`), the
    screen clear (`lcd_clear`) and the power-up sequence (`st7565_init_lcd`). */
module Protocol {
  import opened Seqs
  import opened Lines
  import opened Serial
  import opened Receiver

  /** The high half of a column address: `(column & 0xF0) >> 4`. */
  function ColumnHigh(column: Uint): Byte
  {
    ((column & 0xF0) >> 4) as Byte
  }

  /** The low half of a column address: `column & 0x0F`. */
  function ColumnLow(column: Uint): Byte
  {
    (column & 0x0F) as Byte
  }

  /** `lcd_set_page`: three command transfers, the page-set command
      `page | 0xB0` (the page is not masked), the column-high command
      `ColumnHigh | 0x10` and the column-low command `ColumnLow`. */
  function SetPage(page: Byte, column: Uint): (r: seq<Event>)
    ensures |r| == 3 * 28
  {
    Transfer(page | 0xB0, 0)
    + Transfer(ColumnHigh(column) | 0x10, 0)
    + Transfer(ColumnLow(column), 0)
  }

  /** The words `lcd_set_page(page, column)` delivers. */
  function AddressWords(page: Byte, column: Uint): (ws: seq<Word>)
    ensures |ws| == 3
  {
    [Command(page | 0xB0), Command(ColumnHigh(column) | 0x10), Command(ColumnLow(column))]
  }

  /** How the controller reads a page/column address: a page-set command
      (upper nibble 0xB), a column-high command (upper nibble 0x1) and a
      column-low command (upper nibble 0x0), each carrying four bits. */
  function ParseAddress(ws: seq<Word>): Option<(Byte, Byte)>
  {
    if |ws| == 3
       && ws[0].Command? && ws[0].b & 0xF0 == 0xB0
       && ws[1].Command? && ws[1].b & 0xF0 == 0x10
       && ws[2].Command? && ws[2].b & 0xF0 == 0x00
    then Some((ws[0].b & 0x0F, ((ws[1].b & 0x0F) << 4) | (ws[2].b & 0x0F)))
    else None
  }

  /** Three transfers in a row deliver their three words. */
  lemma SetPageRoundTrip(page: Byte, column: Uint)
    ensures Emits(SetPage(page, column), AddressWords(page, column))
    ensures Decode(SetPage(page, column)) == AddressWords(page, column)
  {
    var w := AddressWords(page, column);
    assert [w[0]] + [w[1]] + [w[2]] == w;
    TransferRoundTrip(page | 0xB0, 0);
    TransferRoundTrip(ColumnHigh(column) | 0x10, 0);
    TransferRoundTrip(ColumnLow(column), 0);
    EmitsAppend(Transfer(page | 0xB0, 0), [w[0]], Transfer(ColumnHigh(column) | 0x10, 0), [w[1]]);
    EmitsAppend(Transfer(page | 0xB0, 0) + Transfer(ColumnHigh(column) | 0x10, 0), [w[0]] + [w[1]],
                Transfer(ColumnLow(column), 0), [w[2]]);
    EmitsDecode(SetPage(page, column), w);
  }

  /** The controller reads back exactly the page and the low eight bits of
      the column, if and only if the page fits the four-bit page field;
      a larger page corrupts the page-set command, as nothing masks it. */
  lemma AddressRoundTrip(page: Byte, column: Uint)
    ensures ParseAddress(Decode(SetPage(page, column))) == Some((page, (column & 0xFF) as Byte))
            <==> page < 16
  {
    SetPageRoundTrip(page, column);
    ParseAddressWords(page, column);
  }

  lemma ParseAddressWords(page: Byte, column: Uint)
    ensures ParseAddress(AddressWords(page, column)) == Some((page, (column & 0xFF) as Byte))
            <==> page < 16
  {
    NibblesRoundTrip(page, column);
  }

  lemma NibblesRoundTrip(page: Byte, column: Uint)
    ensures (ColumnHigh(column) | 0x10) & 0xF0 == 0x10
    ensures ColumnLow(column) & 0xF0 == 0
    ensures (((ColumnHigh(column) | 0x10) & 0x0F) << 4) | (ColumnLow(column) & 0x0F)
            == (column & 0xFF) as Byte
    ensures (page | 0xB0) & 0xF0 == 0xB0 <==> page & 0x40 == 0
    ensures (page | 0xB0) & 0x0F == page <==> page < 16
  {
  }

  /** Column bits above bit 7 do not reach the controller. */
  lemma ColumnHighBitsIgnored(page: Byte, column: Uint)
    ensures SetPage(page, column) == SetPage(page, column & 0xFF)
  {
    assert ColumnHigh(column) == ColumnHigh(column & 0xFF);
    assert ColumnLow(column) == ColumnLow(column & 0xFF);
  }

  /** `n` zero data words. */
  function ZeroData(n: nat): (ws: seq<Word>)
    ensures |ws| == n
    ensures forall k :: 0 <= k < n ==> ws[k] == Data(0)
  {
    if n == 0 then [] else [Data(0)] + ZeroData(n - 1)
  }

  /** The 129 zero data transfers of one page of `lcd_clear`. */
  function Zeros(n: nat): (r: seq<Event>)
    ensures |r| == 28 * n
  {
    if n == 0 then [] else Transfer(0, 1) + Zeros(n - 1)
  }

  /** The page loop of `lcd_clear` from page `i` on. */
  function ClearPages(i: nat): (r: seq<Event>)
    requires i <= 8
    ensures |r| == (8 - i) * 132 * 28
    decreases 8 - i
  {
    if i == 8 then [] else SetPage(i as Byte, 0) + Zeros(129) + ClearPages(i + 1)
  }

  /** `lcd_clear`: an outer CS bracket around eight pages, each addressed at
      column 0 and filled with 129 zero data bytes. */
  function ClearTrace(): seq<Event>
  {
    [Event(CS, false)] + ClearPages(0) + [Event(CS, true)]
  }

  /** What one page of the clear delivers: the address of column 0 of the
      page, then 129 zero data bytes. */
  function PageWords(p: nat): (ws: seq<Word>)
    requires p < 8
    ensures |ws| == 132
  {
    AddressWords(p as Byte, 0) + ZeroData(129)
  }

  /** What pages `i` to 7 of the clear deliver. */
  function PagesWords(i: nat): (ws: seq<Word>)
    requires i <= 8
    ensures |ws| == (8 - i) * 132
    decreases 8 - i
  {
    if i == 8 then [] else PageWords(i) + PagesWords(i + 1)
  }

  /** The words the whole clear delivers. */
  function ClearWords(): seq<Word>
  {
    PagesWords(0)
  }

  /** A CS transition alone delivers nothing and keeps the receiver ready. */
  lemma ChipSelectEmitsNothing(high: bool)
    ensures Emits([Event(CS, high)], [])
  {
    forall s | Ready(s)
      ensures Ready(Run(s, [Event(CS, high)])) && Run(s, [Event(CS, high)]).out == s.out + []
    {
      RunSingle(s, Event(CS, high));
    }
  }

  lemma {:induction false} ZerosRoundTrip(n: nat)
    ensures Emits(Zeros(n), ZeroData(n))
    decreases n
  {
    if n == 0 {
      EmitsNothing();
    } else {
      ZerosRoundTrip(n - 1);
      ZerosStep(n);
    }
  }

  lemma ZerosStep(n: nat)
    requires n > 0
    requires Emits(Zeros(n - 1), ZeroData(n - 1))
    ensures Emits(Zeros(n), ZeroData(n))
  {
    var zero: Byte, data: Uint := 0, 1;
    var w := [WordOf(zero, data != 0)];
    assert Zeros(n) == Transfer(zero, data) + Zeros(n - 1);
    assert ZeroData(n) == w + ZeroData(n - 1);
    TransferRoundTrip(zero, data);
    EmitsAppend(Transfer(zero, data), w, Zeros(n - 1), ZeroData(n - 1));
  }

  lemma {:induction false} ClearPagesRoundTrip(i: nat)
    requires i <= 8
    ensures Emits(ClearPages(i), PagesWords(i))
    decreases 8 - i
  {
    if i == 8 {
      EmitsNothing();
    } else {
      ClearPagesRoundTrip(i + 1);
      ClearPageStep(i);
    }
  }

  lemma ClearPageStep(i: nat)
    requires i < 8
    requires Emits(ClearPages(i + 1), PagesWords(i + 1))
    ensures Emits(ClearPages(i), PagesWords(i))
  {
    var page: Byte, column: Uint := i as Byte, 0;
    assert ClearPages(i) == SetPage(page, column) + Zeros(129) + ClearPages(i + 1);
    assert PagesWords(i) == AddressWords(page, column) + ZeroData(129) + PagesWords(i + 1);
    SetPageRoundTrip(page, column);
    ZerosRoundTrip(129);
    EmitsAppend(SetPage(page, column), AddressWords(page, column), Zeros(129), ZeroData(129));
    EmitsAppend(SetPage(page, column) + Zeros(129), AddressWords(page, column) + ZeroData(129),
                ClearPages(i + 1), PagesWords(i + 1));
  }

  /** Page `p` of the clear occupies words `132 * p` to `132 * p + 131`. */
  lemma {:induction false} PagesWordsLayout(i: nat, p: nat)
    requires i <= p < 8
    ensures PagesWords(i)[132 * (p - i) .. 132 * (p - i) + 132] == PageWords(p)
    decreases p - i
  {
    if i < p {
      PagesWordsLayout(i + 1, p);
      var rest := PagesWords(i + 1);
      assert PagesWords(i)[132..] == rest;
      assert PagesWords(i)[132 * (p - i) .. 132 * (p - i) + 132]
          == rest[132 * (p - i - 1) .. 132 * (p - i - 1) + 132];
    }
  }

  /** An address carries three command bytes and no data. */
  lemma AddressWordsBytes(page: Byte, column: Uint)
    ensures DataBytes(AddressWords(page, column)) == []
    ensures |CommandBytes(AddressWords(page, column))| == 3
  {
    var a := AddressWords(page, column);
    assert a == [a[0]] + ([a[1]] + [a[2]]);
    DataBytesAppend([a[0]], [a[1]] + [a[2]]);
    DataBytesAppend([a[1]], [a[2]]);
    CommandBytesAppend([a[0]], [a[1]] + [a[2]]);
    CommandBytesAppend([a[1]], [a[2]]);
  }

  /** Every byte of `bs` is zero. */
  ghost predicate AllZero(bs: seq<Byte>)
  {
    forall k :: 0 <= k < |bs| ==> bs[k] == 0
  }

  lemma {:induction false} ZeroDataBytes(n: nat)
    ensures |DataBytes(ZeroData(n))| == n && AllZero(DataBytes(ZeroData(n)))
    ensures CommandBytes(ZeroData(n)) == []
    decreases n
  {
    if n > 0 {
      ZeroDataBytes(n - 1);
      assert ZeroData(n) == [Data(0)] + ZeroData(n - 1);
      DataBytesAppend([Data(0)], ZeroData(n - 1));
      CommandBytesAppend([Data(0)], ZeroData(n - 1));
    }
  }

  /** Pages `i` to 7 of the clear carry 129 zero data bytes and three
      command bytes each. */
  lemma {:induction false} PagesWordsBytes(i: nat)
    requires i <= 8
    ensures |DataBytes(PagesWords(i))| == (8 - i) * 129 && AllZero(DataBytes(PagesWords(i)))
    ensures |CommandBytes(PagesWords(i))| == (8 - i) * 3
    decreases 8 - i
  {
    if i < 8 {
      PagesWordsBytes(i + 1);
      PageDataStep(i);
      PageCommandStep(i);
    }
  }

  lemma PageDataStep(i: nat)
    requires i < 8
    requires |DataBytes(PagesWords(i + 1))| == (7 - i) * 129 && AllZero(DataBytes(PagesWords(i + 1)))
    ensures |DataBytes(PagesWords(i))| == (8 - i) * 129 && AllZero(DataBytes(PagesWords(i)))
  {
    var a, z, rest := AddressWords(i as Byte, 0), ZeroData(129), PagesWords(i + 1);
    AppendAssoc(a, z, rest);
    AddressWordsBytes(i as Byte, 0);
    PageDataBytes(a, z, rest);
    ZeroDataBytes(129);
    AllZeroAppend(DataBytes(z), DataBytes(rest));
    assert (8 - i) * 129 == 129 + (7 - i) * 129;
  }

  lemma AllZeroAppend(a: seq<Byte>, b: seq<Byte>)
    requires AllZero(a) && AllZero(b)
    ensures AllZero(a + b)
  {
    forall k | 0 <= k < |a + b|
      ensures (a + b)[k] == 0
    {
      if k >= |a| {
        assert (a + b)[k] == b[k - |a|];
      }
    }
  }

  lemma PageCommandStep(i: nat)
    requires i < 8
    requires |CommandBytes(PagesWords(i + 1))| == (7 - i) * 3
    ensures |CommandBytes(PagesWords(i))| == (8 - i) * 3
  {
    var a, z, rest := AddressWords(i as Byte, 0), ZeroData(129), PagesWords(i + 1);
    AppendAssoc(a, z, rest);
    PageCommandBytes(a, z, rest);
    AddressWordsBytes(i as Byte, 0);
    ZeroDataBytes(129);
    assert (8 - i) * 3 == 3 + (7 - i) * 3;
  }

  lemma PageDataBytes(a: seq<Word>, z: seq<Word>, rest: seq<Word>)
    requires DataBytes(a) == []
    ensures DataBytes(a + (z + rest)) == DataBytes(z) + DataBytes(rest)
  {
    DataBytesAppend(a, z + rest);
    DataBytesAppend(z, rest);
    assert [] + DataBytes(z + rest) == DataBytes(z + rest);
  }

  lemma PageCommandBytes(a: seq<Word>, z: seq<Word>, rest: seq<Word>)
    ensures CommandBytes(a + (z + rest)) == CommandBytes(a) + (CommandBytes(z) + CommandBytes(rest))
  {
    CommandBytesAppend(a, z + rest);
    CommandBytesAppend(z, rest);
  }

  /** The clear, with its outer CS bracket, delivers what its pages do. */
  lemma ClearTraceEmits()
    ensures Emits(ClearTrace(), ClearWords())
  {
    ChipSelectEmitsNothing(false);
    ChipSelectEmitsNothing(true);
    ClearPagesRoundTrip(0);
    EmitsFramed([Event(CS, false)], ClearPages(0), PagesWords(0), [Event(CS, true)]);
  }

  /** `lcd_clear` round trip: from any ready receiver it delivers exactly
      `ClearWords()`, and an idle receiver decodes exactly that. */
  lemma ClearRoundTrip()
    ensures Emits(ClearTrace(), ClearWords())
    ensures Decode(ClearTrace()) == ClearWords()
  {
    ClearTraceEmits();
    EmitsDecode(ClearTrace(), ClearWords());
  }

  /** What the clear delivers: for each page 0 to 7 in turn, the address of
      column 0 of that page and then 129 zero data bytes; 1032 zero data
      bytes and 24 command bytes in all. */
  lemma ClearContents()
    ensures |ClearWords()| == 8 * 132
    ensures forall p :: 0 <= p < 8 ==> ClearWords()[132 * p .. 132 * p + 132] == PageWords(p)
    ensures |DataBytes(ClearWords())| == 1032 && AllZero(DataBytes(ClearWords()))
    ensures |CommandBytes(ClearWords())| == 24
  {
    ClearWordsLayout();
    PagesWordsBytes(0);
  }

  /** The clear reads no input and leaves the receiver ready, so clearing
      twice delivers the same words twice. */
  lemma ClearTwice()
    ensures Emits(ClearTrace() + ClearTrace(), ClearWords() + ClearWords())
  {
    ClearTraceEmits();
    EmitsAppend(ClearTrace(), ClearWords(), ClearTrace(), ClearWords());
  }

  lemma ClearWordsLayout()
    ensures forall p :: 0 <= p < 8 ==> ClearWords()[132 * p .. 132 * p + 132] == PageWords(p)
  {
    forall p | 0 <= p < 8
      ensures ClearWords()[132 * p .. 132 * p + 132] == PageWords(p)
    {
      PagesWordsLayout(0, p);
    }
  }

  /** The power-up command bytes of `st7565_init_lcd`, in order: internal
      reset, 1/9 bias, normal SEG direction, reverse COM direction, normal
      display, reverse display, internal power on, start line 32, resistor
      ratio, electronic volume mode and value, display on. */
  const InitCommands: seq<Byte> :=
    [0xE2, 0xA2, 0xA0, 0xC8, 0xA4, 0xA7, 0x2F, 0x60, 0x27, 0x81, 0x30, 0xAF]

  /** One command transfer per byte of `bs`, in order. */
  function Commands(bs: seq<Byte>): (r: seq<Event>)
    ensures |r| == 28 * |bs|
  {
    if |bs| == 0 then [] else Transfer(bs[0], 0) + Commands(bs[1..])
  }

  /** The words a command per byte of `bs` is received as. */
  function CommandWords(bs: seq<Byte>): (ws: seq<Word>)
    ensures |ws| == |bs|
    ensures forall i :: 0 <= i < |bs| ==> ws[i] == Command(bs[i])
  {
    if |bs| == 0 then [] else [Command(bs[0])] + CommandWords(bs[1..])
  }

  /** The reset pulse that opens `st7565_init_lcd`, chip deselected. */
  const ResetPulse: seq<Event> := [Event(CS, true), Event(RST, false), Event(RST, true)]

  /** `st7565_init_lcd`: the reset pulse, the twelve power-up commands, then
      one clear. */
  function InitTrace(): seq<Event>
  {
    ResetPulse + Commands(InitCommands) + ClearTrace()
  }

  lemma {:induction false} CommandsRoundTrip(bs: seq<Byte>)
    ensures Emits(Commands(bs), CommandWords(bs))
    decreases |bs|
  {
    if |bs| == 0 {
      EmitsNothing();
    } else {
      TransferRoundTrip(bs[0], 0);
      CommandsRoundTrip(bs[1..]);
      EmitsAppend(Transfer(bs[0], 0), [Command(bs[0])], Commands(bs[1..]), CommandWords(bs[1..]));
    }
  }

  lemma {:induction false} CommandWordsBytes(bs: seq<Byte>)
    ensures CommandBytes(CommandWords(bs)) == bs
    ensures DataBytes(CommandWords(bs)) == []
    decreases |bs|
  {
    if |bs| > 0 {
      CommandWordsBytes(bs[1..]);
      assert CommandWords(bs) == [Command(bs[0])] + CommandWords(bs[1..]);
      CommandBytesAppend([Command(bs[0])], CommandWords(bs[1..]));
      DataBytesAppend([Command(bs[0])], CommandWords(bs[1..]));
    }
  }

  /** The reset pulse leaves a receiver whose CLK idles high ready, and
      delivers nothing. */
  lemma ResetPulseReadies(s: State)
    requires s.clk
    ensures Ready(Run(s, ResetPulse)) && Run(s, ResetPulse).out == s.out
  {
    var e0, e1, e2 := Event(CS, true), Event(RST, false), Event(RST, true);
    assert ResetPulse == [e0] + [e1] + [e2];
    RunAppend(s, [e0] + [e1], [e2]);
    RunAppend(s, [e0], [e1]);
    RunSingle(s, e0);
    RunSingle(Step(s, e0), e1);
    RunSingle(Step(Step(s, e0), e1), e2);
  }

  /** The words initialisation delivers once the reset pulse is over. */
  function InitWords(): seq<Word>
  {
    CommandWords(InitCommands) + ClearWords()
  }

  lemma InitBodyEmits()
    ensures Emits(Commands(InitCommands) + ClearTrace(), InitWords())
  {
    CommandsRoundTrip(InitCommands);
    ClearTraceEmits();
    EmitsAppend(Commands(InitCommands), CommandWords(InitCommands), ClearTrace(), ClearWords());
  }

  lemma InitFrom(s: State)
    requires s.clk
    ensures Ready(Run(s, InitTrace())) && Run(s, InitTrace()).out == s.out + InitWords()
  {
    var cmds, clear := Commands(InitCommands), ClearTrace();
    var body := cmds + clear;
    AppendAssoc(ResetPulse, cmds, clear);
    RunAppend(s, ResetPulse, body);
    ResetPulseReadies(s);
    InitBodyEmits();
    EmitsAt(body, InitWords(), Run(s, ResetPulse));
  }

  lemma InitBytes()
    ensures CommandBytes(InitWords()) == InitCommands + CommandBytes(ClearWords())
    ensures DataBytes(InitWords()) == DataBytes(ClearWords())
  {
    CommandBytesAppend(CommandWords(InitCommands), ClearWords());
    DataBytesAppend(CommandWords(InitCommands), ClearWords());
    CommandWordsBytes(InitCommands);
  }

  /** Initialisation round trip: a receiver whose CLK idles high, whatever
      else its state (mid-word, deselected or held in reset), takes the
      twelve power-up commands in order and then exactly what one clear
      delivers, and is left ready. */
  lemma InitRoundTrip(s: State)
    requires s.clk
    ensures Ready(Run(s, InitTrace()))
    ensures Run(s, InitTrace()).out == s.out + (CommandWords(InitCommands) + ClearWords())
    ensures Decode(InitTrace()) == CommandWords(InitCommands) + ClearWords()
    ensures CommandBytes(Decode(InitTrace())) == InitCommands + CommandBytes(ClearWords())
    ensures DataBytes(Decode(InitTrace())) == DataBytes(ClearWords())
  {
    InitFrom(s);
    InitFrom(Idle);
    InitBytes();
  }

  /** The line levels the module leaves behind before initialising the
      display: every line configured as an output driven low. */
  const PowerOn := State(false, false, false, false, false, 0, 0, [])

  /** From those levels the first `CLK := 1` of the first transfer is a
      rising edge while the chip is selected: the receiver takes a stray
      zero bit in front of 0xE2, so its first word is 0x71 (the stray bit
      and the top seven bits of 0xE2) and the last bit of 0xE2 is dropped
      when CS rises. Every later word arrives intact. */
  lemma PowerOnStrayBit()
    ensures Run(PowerOn, InitTrace()).out
         == [Command(0x71)] + (CommandWords(InitCommands[1..]) + ClearWords())
    ensures Decode(InitTrace())
         == [Command(0xE2)] + (CommandWords(InitCommands[1..]) + ClearWords())
  {
    PowerOnRun();
    InitRoundTrip(Idle);
    var bs := InitCommands;
    assert CommandWords(bs) == [Command(bs[0])] + CommandWords(bs[1..]);
    AppendAssoc([Command(bs[0])], CommandWords(bs[1..]), ClearWords());
  }

  lemma PowerOnRun()
    ensures Run(PowerOn, InitTrace()).out
         == [Command(0xE2 >> 1)] + (CommandWords(InitCommands[1..]) + ClearWords())
  {
    ResetPulseStart();
    var s0 := Run(PowerOn, ResetPulse);
    var v: Byte := InitCommands[0];
    var first := Transfer(v, 0);
    var rest := Commands(InitCommands[1..]) + ClearTrace();
    var ws := CommandWords(InitCommands[1..]) + ClearWords();
    PowerOnSplit();
    RunAppend(PowerOn, ResetPulse, first + rest);
    RunAppend(s0, first, rest);
    StrayTransfer(s0, v, 0);
    var s1 := Run(s0, first);
    assert s1.out == [Command(v >> 1)];
    RestEmits();
    EmitsAt(rest, ws, s1);
    assert Run(PowerOn, InitTrace()) == Run(s1, rest);
  }

  lemma PowerOnSplit()
    ensures InitTrace()
         == ResetPulse + (Transfer(InitCommands[0], 0) + (Commands(InitCommands[1..]) + ClearTrace()))
  {
    var bs := InitCommands;
    var first, cmds, clear := Transfer(bs[0], 0), Commands(bs[1..]), ClearTrace();
    assert Commands(bs) == first + cmds;
    AppendAssoc(ResetPulse, first + cmds, clear);
    AppendAssoc(first, cmds, clear);
  }

  lemma RestEmits()
    ensures Emits(Commands(InitCommands[1..]) + ClearTrace(),
                  CommandWords(InitCommands[1..]) + ClearWords())
  {
    CommandsRoundTrip(InitCommands[1..]);
    ClearTraceEmits();
    EmitsAppend(Commands(InitCommands[1..]), CommandWords(InitCommands[1..]), ClearTrace(), ClearWords());
  }

  lemma ResetPulseStart()
    ensures var s := Run(PowerOn, ResetPulse);
      s.cs && s.rst && !s.clk && s.count == 0 && s.out == [] && !s.si
  {
    var e0, e1, e2 := Event(CS, true), Event(RST, false), Event(RST, true);
    assert ResetPulse == [e0] + [e1] + [e2];
    RunAppend(PowerOn, [e0] + [e1], [e2]);
    RunAppend(PowerOn, [e0], [e1]);
    RunSingle(PowerOn, e0);
    RunSingle(Step(PowerOn, e0), e1);
    RunSingle(Step(Step(PowerOn, e0), e1), e2);
  }

  /** A transfer that starts with CLK low and SI low, chip deselected:
      the `CLK := 1` after `CS := 0` clocks in a stray zero bit, the first
      word is that bit and the top seven bits of `value`, and bit 0 of
      `value` is discarded when CS rises. */
  lemma StrayTransfer(s: State, value: Byte, a0: Uint)
    requires s.cs && s.rst && !s.clk && !s.si && s.count == 0
    ensures Ready(Run(s, Transfer(value, a0)))
    ensures Run(s, Transfer(value, a0)).out == s.out + [WordOf(value >> 1, a0 != 0)]
  {
    var e0, e1, e2, e3 := Event(CS, false), Event(CLK, true), Event(A0, a0 != 0), Event(CS, true);
    var bits := MsbFirst(value);
    var head := [e0] + [e1] + [e2];
    var early, last := Cells(bits[..7]), Cells(bits[7..]);
    StraySplit(value, a0);
    RunAppend(s, head + (early + last), [e3]);
    RunAppend(s, head, early + last);
    StrayHead(s, a0);
    var h := Run(s, head);
    RunAppend(h, early, last);
    RunCells(h, bits[..7]);
    StrayWord(s.acc, value);
    var m := Run(h, early);
    RunCells(m, bits[7..]);
    RunSingle(Run(m, last), e3);
  }

  lemma StraySplit(value: Byte, a0: Uint)
    ensures Transfer(value, a0)
         == [Event(CS, false)] + [Event(CLK, true)] + [Event(A0, a0 != 0)]
            + (Cells(MsbFirst(value)[..7]) + Cells(MsbFirst(value)[7..])) + [Event(CS, true)]
  {
    LcdByteSplit(value);
    assert [Event(CS, false), Event(CLK, true), Event(A0, a0 != 0)]
        == [Event(CS, false)] + [Event(CLK, true)] + [Event(A0, a0 != 0)];
  }

  lemma LcdByteSplit(value: Byte)
    ensures LcdByte(value) == Cells(MsbFirst(value)[..7]) + Cells(MsbFirst(value)[7..])
  {
    LcdByteCells(value);
    CellsAppend(MsbFirst(value)[..7], MsbFirst(value)[7..]);
    assert MsbFirst(value)[..7] + MsbFirst(value)[7..] == MsbFirst(value);
  }

  lemma StrayHead(s: State, a0: Uint)
    requires s.cs && s.rst && !s.clk && !s.si && s.count == 0
    ensures var h := Run(s, [Event(CS, false)] + [Event(CLK, true)] + [Event(A0, a0 != 0)]);
      Listening(h) && h.count == 1 && h.acc == Shift(s.acc, false) && h.a0 == (a0 != 0)
      && h.out == s.out
  {
    var e0, e1, e2 := Event(CS, false), Event(CLK, true), Event(A0, a0 != 0);
    RunAppend(s, [e0] + [e1], [e2]);
    RunAppend(s, [e0], [e1]);
    RunSingle(s, e0);
    RunSingle(Step(s, e0), e1);
    RunSingle(Step(Step(s, e0), e1), e2);
  }

  /** Whatever the register held, a zero bit followed by the top seven bits
      of `v` leaves `v >> 1` in it. */
  lemma StrayWord(acc: Byte, v: Byte)
    ensures Feed(Shift(acc, false), MsbFirst(v)[..7]) == v >> 1
  {
    var bits := MsbFirst(v)[..7];
    var a0 := Shift(acc, false);
    var a1 := Shift(a0, bits[0]);
    var a2 := Shift(a1, bits[1]);
    var a3 := Shift(a2, bits[2]);
    var a4 := Shift(a3, bits[3]);
    var a5 := Shift(a4, bits[4]);
    var a6 := Shift(a5, bits[5]);
    var a7 := Shift(a6, bits[6]);
    assert Feed(a0, bits) == Feed(a1, bits[1..]);
    assert Feed(a1, bits[1..]) == Feed(a2, bits[2..]);
    assert Feed(a2, bits[2..]) == Feed(a3, bits[3..]);
    assert Feed(a3, bits[3..]) == Feed(a4, bits[4..]);
    assert Feed(a4, bits[4..]) == Feed(a5, bits[5..]);
    assert Feed(a5, bits[5..]) == Feed(a6, bits[6..]);
    assert Feed(a6, bits[6..]) == Feed(a7, bits[7..]);
    ShiftInStray(acc, v);
  }

  lemma ShiftInStray(acc: Byte, v: Byte)
    ensures Shift(Shift(Shift(Shift(Shift(Shift(Shift(Shift(acc,
              false), v & 0x80 != 0), v & 0x40 != 0), v & 0x20 != 0), v & 0x10 != 0),
              v & 0x08 != 0), v & 0x04 != 0), v & 0x02 != 0) == v >> 1
  {
  }
}
