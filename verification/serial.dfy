/** The two lowest layers of the driver: the bit serialiser `lcd_byte`
    and the chip-select framed transfer `lcd_transfer_data`. Each is a pure
    function from its arguments to the sequence of line events it emits. */
module Serial {
  import opened Lines

  /** The eight bits of `v`, most significant first: the order a receiver
      that samples SI on each rising CLK edge must see them in. */
  function MsbFirst(v: Byte): (bits: seq<bool>)
    ensures |bits| == 8
  {
    [ v & 0x80 != 0, v & 0x40 != 0, v & 0x20 != 0, v & 0x10 != 0,
      v & 0x08 != 0, v & 0x04 != 0, v & 0x02 != 0, v & 0x01 != 0 ]
  }

  /** One bit cell: CLK low, SI to the bit, CLK high (the sampling edge). */
  function Cell(b: bool): seq<Event>
  {
    [Event(CLK, false), Event(SI, b), Event(CLK, true)]
  }

  /** The bit cells of `bits`, in order. */
  function Cells(bits: seq<bool>): (r: seq<Event>)
    ensures |r| == 3 * |bits|
  {
    if |bits| == 0 then [] else Cell(bits[0]) + Cells(bits[1..])
  }

  /** The loop of `lcd_byte` with `k` iterations left and the shift register
      holding `tmp`: test bit 7, drive SI, shift left (the `unsigned char`
      drops the bit shifted out), pulse CLK. */
  function ShiftOut(tmp: Byte, k: nat): (r: seq<Event>)
    ensures |r| == 3 * k
    decreases k
  {
    if k == 0 then []
    else
      [Event(CLK, false), Event(SI, tmp & 0x80 != 0)]
      + [Event(CLK, true)]
      + ShiftOut(tmp << 1, k - 1)
  }

  /** `lcd_byte`: eight bit cells carrying the bits of `bits`, MSB first. */
  function LcdByte(bits: Byte): seq<Event>
  {
    ShiftOut(bits, 8)
  }

  /** `lcd_byte` emits one bit cell per bit of the byte, most significant
      first, and so exactly eight rising CLK edges whatever level CLK had. */
  lemma LcdByteCells(bits: Byte)
    ensures LcdByte(bits) == Cells(MsbFirst(bits))
    ensures forall level :: RisingEdges(LcdByte(bits), level) == 8
  {
    ShiftOutCells(bits, 8);
    ShiftedBitsAreMsbFirst(bits);
    CellsRisingEdges(MsbFirst(bits));
  }

  /** `lcd_transfer_data`: CS low, CLK high, A0 to the command/data flag,
      the byte, CS high. A nonzero `a0` marks a data byte. */
  function Transfer(value: Byte, a0: Uint): (r: seq<Event>)
    ensures |r| == 28
  {
    [Event(CS, false), Event(CLK, true), Event(A0, a0 != 0)]
    + LcdByte(value)
    + [Event(CS, true)]
  }

  /** The number of low-to-high CLK transitions in `t`, starting from CLK
      at level `clk`. Setting CLK to the level it already has is no edge. */
  function RisingEdges(t: seq<Event>, clk: bool): nat
  {
    if |t| == 0 then 0
    else if t[0].line == CLK then
      (if t[0].high && !clk then 1 else 0) + RisingEdges(t[1..], t[0].high)
    else RisingEdges(t[1..], clk)
  }

  /** The CLK level after `t`, starting from `clk`. */
  function ClkAfter(t: seq<Event>, clk: bool): bool
  {
    if |t| == 0 then clk
    else if t[0].line == CLK then ClkAfter(t[1..], t[0].high)
    else ClkAfter(t[1..], clk)
  }

  /** The bits `lcd_byte` tests when `k` iterations are left and the
      register holds `tmp`. */
  function ShiftedBits(tmp: Byte, k: nat): (bits: seq<bool>)
    ensures |bits| == k
    decreases k
  {
    if k == 0 then [] else [tmp & 0x80 != 0] + ShiftedBits(tmp << 1, k - 1)
  }

  /** The register after `i` left shifts. */
  function Shl(tmp: Byte, i: nat): Byte
    decreases i
  {
    if i == 0 then tmp else Shl(tmp << 1, i - 1)
  }

  /** The `i`th bit tested is bit 7 of the register after `i` shifts. */
  lemma {:induction false} ShiftedBitsAt(tmp: Byte, k: nat, i: nat)
    requires i < k
    ensures ShiftedBits(tmp, k)[i] == (Shl(tmp, i) & 0x80 != 0)
    decreases i
  {
    if i > 0 {
      ShiftedBitsAt(tmp << 1, k - 1, i - 1);
      assert ShiftedBits(tmp, k)[i] == ShiftedBits(tmp << 1, k - 1)[i - 1];
    }
  }

  /** After `i` shifts, bit 7 of the register is bit `7 - i` of the byte. */
  lemma ShlMask(v: Byte, i: nat)
    requires i < 8
    ensures (Shl(v, i) & 0x80 != 0) == MsbFirst(v)[i]
  {
    if i < 4 {
      ShlMaskHigh(v, i);
    } else {
      ShlMaskLow(v, i);
    }
  }

  lemma ShlMaskHigh(v: Byte, i: nat)
    requires i < 4
    ensures (Shl(v, i) & 0x80 != 0) == MsbFirst(v)[i]
  {
    if i == 1 {
      assert Shl(v, 1) == v << 1;
    } else if i == 2 {
      assert Shl(v, 2) == (v << 1) << 1;
    } else if i == 3 {
      assert Shl(v, 3) == ((v << 1) << 1) << 1;
    }
  }

  lemma ShlMaskLow(v: Byte, i: nat)
    requires 4 <= i < 8
    ensures (Shl(v, i) & 0x80 != 0) == MsbFirst(v)[i]
  {
    if i == 4 {
      assert Shl(v, 4) == (((v << 1) << 1) << 1) << 1;
    } else if i == 5 {
      assert Shl(v, 5) == ((((v << 1) << 1) << 1) << 1) << 1;
    } else if i == 6 {
      assert Shl(v, 6) == (((((v << 1) << 1) << 1) << 1) << 1) << 1;
    } else {
      assert Shl(v, 7) == ((((((v << 1) << 1) << 1) << 1) << 1) << 1) << 1;
    }
  }

  /** The loop tests the bits of the byte most significant first. */
  lemma ShiftedBitsAreMsbFirst(v: Byte)
    ensures ShiftedBits(v, 8) == MsbFirst(v)
  {
    forall i | 0 <= i < 8
      ensures ShiftedBits(v, 8)[i] == MsbFirst(v)[i]
    {
      ShiftedBitsAt(v, 8, i);
      ShlMask(v, i);
    }
  }

  /** The shifting loop emits exactly the bit cells of the bits it tests. */
  lemma {:induction false} ShiftOutCells(tmp: Byte, k: nat)
    ensures ShiftOut(tmp, k) == Cells(ShiftedBits(tmp, k))
    decreases k
  {
    if k > 0 {
      ShiftOutCells(tmp << 1, k - 1);
      assert ShiftedBits(tmp, k)[1..] == ShiftedBits(tmp << 1, k - 1);
    }
  }

  /** Every bit cell contributes exactly one rising edge, whatever CLK was. */
  lemma {:induction false} CellsRisingEdges(bits: seq<bool>)
    ensures forall level :: RisingEdges(Cells(bits), level) == |bits|
    ensures forall level :: |bits| > 0 ==> ClkAfter(Cells(bits), level)
    decreases |bits|
  {
    if |bits| > 0 {
      CellsRisingEdges(bits[1..]);
      var t := Cells(bits);
      forall level
        ensures RisingEdges(t, level) == |bits|
        ensures ClkAfter(t, level)
      {
        var t1 := t[1..];
        var t2 := t1[1..];
        assert t2[1..] == Cells(bits[1..]);
        assert RisingEdges(t2, false) == 1 + RisingEdges(t2[1..], true);
        assert RisingEdges(t1, false) == RisingEdges(t2, false);
        assert RisingEdges(t, level) == RisingEdges(t1, false);
        assert ClkAfter(t2, false) == ClkAfter(t2[1..], true);
        assert ClkAfter(t1, false) == ClkAfter(t2, false);
        assert ClkAfter(t, level) == ClkAfter(t1, false);
      }
    }
  }

  /** The rising edges of `a + b` are those of `a` and then those of `b`
      from the level `a` leaves CLK at. */
  lemma {:induction false} RisingEdgesAppend(a: seq<Event>, b: seq<Event>, clk: bool)
    ensures RisingEdges(a + b, clk) == RisingEdges(a, clk) + RisingEdges(b, ClkAfter(a, clk))
    ensures ClkAfter(a + b, clk) == ClkAfter(b, ClkAfter(a, clk))
    decreases |a|
  {
    if |a| == 0 {
      assert a + b == b;
    } else {
      assert (a + b)[0] == a[0];
      assert (a + b)[1..] == a[1..] + b;
      RisingEdgesAppend(a[1..], b, if a[0].line == CLK then a[0].high else clk);
    }
  }

  /** A transfer clocks out exactly eight bits when CLK idles high, but the
      `CLK := 1` that follows `CS := 0` is a ninth rising edge, while the
      chip is selected, when CLK starts low. */
  lemma TransferRisingEdges(value: Byte, a0: Uint)
    ensures RisingEdges(Transfer(value, a0), true) == 8
    ensures RisingEdges(Transfer(value, a0), false) == 9
    ensures forall level :: ClkAfter(Transfer(value, a0), level)
  {
    var head := [Event(CS, false), Event(CLK, true), Event(A0, a0 != 0)];
    var body := LcdByte(value);
    var tail := [Event(CS, true)];
    assert Transfer(value, a0) == head + body + tail;
    forall level
      ensures RisingEdges(head + body + tail, level) == if level then 8 else 9
      ensures ClkAfter(head + body + tail, level)
    {
      RisingEdgesAppend(head, body, level);
      RisingEdgesAppend(head + body, tail, level);
      LcdByteCells(value);
      CellsRisingEdges(MsbFirst(value));
      var h1 := head[1..];
      var h2 := h1[1..];
      assert h2[1..] == [];
      assert RisingEdges(h2, true) == 0 && ClkAfter(h2, true);
      assert RisingEdges(h1, level) == (if level then 0 else 1) && ClkAfter(h1, level);
    }
  }

  lemma {:induction false} CellsAppend(a: seq<bool>, b: seq<bool>)
    ensures Cells(a + b) == Cells(a) + Cells(b)
    decreases |a|
  {
    if |a| == 0 {
      assert a + b == b;
    } else {
      assert (a + b)[0] == a[0];
      assert (a + b)[1..] == a[1..] + b;
      CellsAppend(a[1..], b);
    }
  }
}
