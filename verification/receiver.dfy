/** A receiver for the line traces the driver emits: the serial interface
    of the controller as the driver relies on it. While CS is low and RST is
    high, every low-to-high transition of CLK shifts the level of SI into an
    8-bit register, most significant bit first; on the eighth such edge the
    register is taken as one word, a command when A0 is low and display data
    when A0 is high. Raising CS or lowering RST discards a partial word.

    The receiver is the partner against which the emitted traces are
    checked: decoding what a routine emits gives back the bytes it meant to
    send. */
module Receiver {
  import opened Seqs
  import opened Lines
  import opened Serial

  /** One byte as the controller takes it. */
  datatype Word = Command(b: Byte) | Data(b: Byte)

  /** The word for `value` received with A0 at level `a0`. */
  function WordOf(value: Byte, a0: bool): Word
  {
    if a0 then Data(value) else Command(value)
  }

  /** The last level seen on each line, the shift register, how many bits
      it holds, and the words received so far. */
  datatype State = State(
    cs: bool, rst: bool, a0: bool, clk: bool, si: bool,
    acc: Byte, count: nat, out: seq<Word>)

  /** Shift one bit into the register from the right. */
  function Shift(acc: Byte, b: bool): Byte
  {
    (acc << 1) | (if b then 1 else 0)
  }

  /** The register after shifting in `bits`, first bit first. */
  function Feed(acc: Byte, bits: seq<bool>): Byte
    decreases |bits|
  {
    if |bits| == 0 then acc else Feed(Shift(acc, bits[0]), bits[1..])
  }

  /** The receiver's reaction to one line event. */
  function Step(s: State, e: Event): State
  {
    match e.line
    case CS => if e.high then s.(cs := true, count := 0) else s.(cs := false)
    case RST => if e.high then s.(rst := true) else s.(rst := false, count := 0)
    case A0 => s.(a0 := e.high)
    case SI => s.(si := e.high)
    case CLK =>
      if e.high && !s.clk && !s.cs && s.rst then
        var acc := Shift(s.acc, s.si);
        if s.count + 1 == 8 then
          s.(clk := true, acc := acc, count := 0, out := s.out + [WordOf(acc, s.a0)])
        else
          s.(clk := true, acc := acc, count := s.count + 1)
      else s.(clk := e.high)
  }

  /** The receiver after the whole trace `t`. */
  function Run(s: State, t: seq<Event>): State
    decreases |t|
  {
    if |t| == 0 then s else Run(Step(s, t[0]), t[1..])
  }

  /** Between words: CLK idles high, the controller is out of reset and no
      bit of a word has been taken yet. */
  predicate Ready(s: State)
  {
    s.clk && s.rst && s.count == 0
  }

  /** Inside a word: selected, out of reset, CLK high, fewer than 8 bits taken. */
  predicate Listening(s: State)
  {
    !s.cs && s.rst && s.clk && s.count < 8
  }

  /** A deselected, idle receiver that has received nothing. */
  const Idle := State(true, true, false, true, false, 0, 0, [])

  /** The words received from `t` by an idle receiver. */
  function Decode(t: seq<Event>): seq<Word>
  {
    Run(Idle, t).out
  }

  /** From every ready receiver, `t` delivers exactly `ws` and leaves the
      receiver ready again. */
  ghost predicate Emits(t: seq<Event>, ws: seq<Word>)
  {
    forall s {:trigger Run(s, t)} :: Ready(s) ==> Ready(Run(s, t)) && Run(s, t).out == s.out + ws
  }

  lemma RunSingle(s: State, e: Event)
    ensures Run(s, [e]) == Step(s, e)
  {
    assert [e][1..] == [];
  }

  /** Running a concatenation is running its parts one after the other. */
  lemma {:induction false} RunAppend(s: State, a: seq<Event>, b: seq<Event>)
    ensures Run(s, a + b) == Run(Run(s, a), b)
    decreases |a|
  {
    if |a| == 0 {
      assert a + b == b;
    } else {
      assert (a + b)[0] == a[0];
      assert (a + b)[1..] == a[1..] + b;
      RunAppend(Step(s, a[0]), a[1..], b);
    }
  }

  /** Traces that each deliver their words deliver them in sequence. */
  lemma EmitsAppend(a: seq<Event>, wa: seq<Word>, b: seq<Event>, wb: seq<Word>)
    requires Emits(a, wa) && Emits(b, wb)
    ensures Emits(a + b, wa + wb)
  {
    forall s | Ready(s)
      ensures Ready(Run(s, a + b)) && Run(s, a + b).out == s.out + (wa + wb)
    {
      RunAppend(s, a, b);
      var s1 := Run(s, a);
      assert Ready(s1) && s1.out == s.out + wa;
      var s2 := Run(s1, b);
      assert Ready(s2) && s2.out == s1.out + wb;
      AppendAssoc(s.out, wa, wb);
    }
  }

  /** `Emits` applied to one ready receiver. */
  lemma EmitsAt(t: seq<Event>, ws: seq<Word>, s: State)
    requires Emits(t, ws) && Ready(s)
    ensures Ready(Run(s, t)) && Run(s, t).out == s.out + ws
  {
  }

  /** A trace between two that deliver nothing delivers what it did alone. */
  lemma EmitsFramed(lo: seq<Event>, t: seq<Event>, ws: seq<Word>, hi: seq<Event>)
    requires Emits(lo, []) && Emits(t, ws) && Emits(hi, [])
    ensures Emits(lo + t + hi, ws)
  {
    EmitsAppend(lo, [], t, ws);
    assert [] + ws == ws;
    EmitsAppend(lo + t, ws, hi, []);
    assert ws + [] == ws;
  }

  /** Traces that each deliver their words, run one after another, deliver
      all the words in the same order. */
  lemma {:induction false} EmitsFlatten(ts: seq<seq<Event>>, wss: seq<seq<Word>>)
    requires |ts| == |wss|
    requires forall j :: 0 <= j < |ts| ==> Emits(ts[j], wss[j])
    ensures Emits(Flatten(ts), Flatten(wss))
    decreases |ts|
  {
    if |ts| == 0 {
      EmitsNothing();
    } else {
      EmitsFlatten(ts[1..], wss[1..]);
      EmitsAppend(ts[0], wss[0], Flatten(ts[1..]), Flatten(wss[1..]));
    }
  }

  /** The empty trace delivers nothing. */
  lemma EmitsNothing()
    ensures Emits([], [])
  {
    forall s | Ready(s)
      ensures Ready(Run(s, [])) && Run(s, []).out == s.out + []
    {
      assert s.out + [] == s.out;
    }
  }

  /** What a trace emits is what an idle receiver decodes from it. */
  lemma EmitsDecode(t: seq<Event>, ws: seq<Word>)
    requires Emits(t, ws)
    ensures Decode(t) == ws
  {
    assert Ready(Idle);
  }

  /** One bit cell shifts its bit in on its rising edge. */
  lemma RunCell(s: State, b: bool)
    requires Listening(s)
    ensures var r := Run(s, Cell(b));
      && r.a0 == s.a0 && !r.cs && r.rst && r.clk
      && (s.count + 1 < 8 ==> r.count == s.count + 1 && r.acc == Shift(s.acc, b) && r.out == s.out)
      && (s.count + 1 == 8 ==> r.count == 0 && r.out == s.out + [WordOf(Shift(s.acc, b), s.a0)])
  {
    var e0, e1, e2 := Event(CLK, false), Event(SI, b), Event(CLK, true);
    assert Cell(b) == [e0] + [e1] + [e2];
    RunAppend(s, [e0] + [e1], [e2]);
    RunAppend(s, [e0], [e1]);
    RunSingle(s, e0);
    RunSingle(Step(s, e0), e1);
    RunSingle(Step(Step(s, e0), e1), e2);
  }

  /** Bit cells fill the register; the cell that brings it to eight bits
      delivers the word, tagged by the A0 level of the receiver. */
  lemma {:induction false} RunCells(s: State, bits: seq<bool>)
    requires Listening(s) && s.count + |bits| <= 8
    ensures var r := Run(s, Cells(bits));
      && r.a0 == s.a0 && !r.cs && r.rst && r.clk
      && (s.count + |bits| < 8 ==>
            r.count == s.count + |bits| && r.acc == Feed(s.acc, bits) && r.out == s.out)
      && (s.count + |bits| == 8 ==>
            r.count == 0 && r.out == s.out + [WordOf(Feed(s.acc, bits), s.a0)])
    decreases |bits|
  {
    if |bits| > 0 {
      var rest := bits[1..];
      assert Cells(bits) == Cell(bits[0]) + Cells(rest);
      RunAppend(s, Cell(bits[0]), Cells(rest));
      RunCell(s, bits[0]);
      var s1 := Run(s, Cell(bits[0]));
      if s.count + 1 == 8 {
        assert rest == [];
        assert Feed(Shift(s.acc, bits[0]), rest) == Shift(s.acc, bits[0]);
      } else {
        RunCells(s1, rest);
      }
    }
  }

  /** Shifting in the eight bits of `v`, MSB first, leaves exactly `v` in the
      register, whatever it held before. */
  lemma FeedMsbFirst(acc: Byte, v: Byte)
    ensures Feed(acc, MsbFirst(v)) == v
  {
    var bits := MsbFirst(v);
    var a1 := Shift(acc, bits[0]);
    var a2 := Shift(a1, bits[1]);
    var a3 := Shift(a2, bits[2]);
    var a4 := Shift(a3, bits[3]);
    var a5 := Shift(a4, bits[4]);
    var a6 := Shift(a5, bits[5]);
    var a7 := Shift(a6, bits[6]);
    var a8 := Shift(a7, bits[7]);
    assert Feed(acc, bits) == Feed(a1, bits[1..]);
    assert Feed(a1, bits[1..]) == Feed(a2, bits[2..]);
    assert Feed(a2, bits[2..]) == Feed(a3, bits[3..]);
    assert Feed(a3, bits[3..]) == Feed(a4, bits[4..]);
    assert Feed(a4, bits[4..]) == Feed(a5, bits[5..]);
    assert Feed(a5, bits[5..]) == Feed(a6, bits[6..]);
    assert Feed(a6, bits[6..]) == Feed(a7, bits[7..]);
    assert Feed(a7, bits[7..]) == Feed(a8, bits[8..]);
    ShiftInMsbFirst(acc, v);
  }

  lemma ShiftInMsbFirst(acc: Byte, v: Byte)
    ensures Shift(Shift(Shift(Shift(Shift(Shift(Shift(Shift(acc,
              v & 0x80 != 0), v & 0x40 != 0), v & 0x20 != 0), v & 0x10 != 0),
              v & 0x08 != 0), v & 0x04 != 0), v & 0x02 != 0), v & 0x01 != 0) == v
  {
  }

  /** Byte round trip: a selected receiver between words takes the output of
      `lcd_byte(v)` as exactly one word carrying `v`. */
  lemma LcdByteRoundTrip(s: State, v: Byte)
    requires Listening(s) && s.count == 0
    ensures var r := Run(s, LcdByte(v));
      r.count == 0 && r.out == s.out + [WordOf(v, s.a0)] && Listening(r) && r.a0 == s.a0
  {
    LcdByteCells(v);
    RunCells(s, MsbFirst(v));
    FeedMsbFirst(s.acc, v);
  }

  /** Transfer round trip: one call of `lcd_transfer_data(value, a0)` delivers
      exactly one word, `value`, as data when `a0` is nonzero and as a
      command otherwise, and leaves the receiver ready. */
  lemma TransferRoundTrip(value: Byte, a0: Uint)
    ensures Emits(Transfer(value, a0), [WordOf(value, a0 != 0)])
    ensures Decode(Transfer(value, a0)) == [WordOf(value, a0 != 0)]
  {
    var e0, e1, e2, e3 := Event(CS, false), Event(CLK, true), Event(A0, a0 != 0), Event(CS, true);
    var head := [e0] + [e1] + [e2];
    assert Transfer(value, a0) == head + LcdByte(value) + [e3];
    forall s | Ready(s)
      ensures Ready(Run(s, Transfer(value, a0)))
      ensures Run(s, Transfer(value, a0)).out == s.out + [WordOf(value, a0 != 0)]
    {
      RunAppend(s, head + LcdByte(value), [e3]);
      RunAppend(s, head, LcdByte(value));
      RunAppend(s, [e0] + [e1], [e2]);
      RunAppend(s, [e0], [e1]);
      RunSingle(s, e0);
      RunSingle(Step(s, e0), e1);
      RunSingle(Step(Step(s, e0), e1), e2);
      var h := Run(s, head);
      assert Listening(h) && h.count == 0 && h.a0 == (a0 != 0) && h.out == s.out;
      LcdByteRoundTrip(h, value);
      RunSingle(Run(h, LcdByte(value)), e3);
    }
    EmitsDecode(Transfer(value, a0), [WordOf(value, a0 != 0)]);
  }

  /** The display-data bytes among `ws`, in order. */
  function DataBytes(ws: seq<Word>): seq<Byte>
  {
    if |ws| == 0 then []
    else (if ws[0].Data? then [ws[0].b] else []) + DataBytes(ws[1..])
  }

  /** The command bytes among `ws`, in order. */
  function CommandBytes(ws: seq<Word>): seq<Byte>
  {
    if |ws| == 0 then []
    else (if ws[0].Command? then [ws[0].b] else []) + CommandBytes(ws[1..])
  }

  lemma {:induction false} DataBytesAppend(a: seq<Word>, b: seq<Word>)
    ensures DataBytes(a + b) == DataBytes(a) + DataBytes(b)
    decreases |a|
  {
    if |a| == 0 {
      assert a + b == b;
    } else {
      assert (a + b)[0] == a[0];
      assert (a + b)[1..] == a[1..] + b;
      DataBytesAppend(a[1..], b);
    }
  }

  lemma {:induction false} CommandBytesAppend(a: seq<Word>, b: seq<Word>)
    ensures CommandBytes(a + b) == CommandBytes(a) + CommandBytes(b)
    decreases |a|
  {
    if |a| == 0 {
      assert a + b == b;
    } else {
      assert (a + b)[0] == a[0];
      assert (a + b)[1..] == a[1..] + b;
      CommandBytesAppend(a[1..], b);
    }
  }
}
