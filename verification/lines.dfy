/** The five GPIO lines that connect the driver to the ST7565 controller,
    the pin numbers they are wired to, and the line events the driver emits. */
module Lines {
  import opened Seqs

  /** An `unsigned char` of the driver: eight bits, arithmetic wraps mod 256. */
  type Byte = bv8

  /** An `unsigned int` of the driver: 32 bits, arithmetic wraps mod 2^32. */
  type Uint = bv32

  /** Chip select, reset, command/data select, serial clock, serial data in. */
  datatype Line = CS | RST | A0 | CLK | SI

  /** One `gpio_set_value(line, level)` call; `high` is level 1. */
  datatype Event = Event(line: Line, high: bool)

  /** GPIO_TO_PIN: a bank of 32 lines and an offset within the bank. */
  function GpioToPin(bank: nat, gpio: nat): (pin: nat)
    ensures gpio < 32 ==> pin / 32 == bank && pin % 32 == gpio
    ensures bank <= pin / 32
  {
    32 * bank + gpio
  }

  /** The pin each line is wired to. */
  function Pin(line: Line): nat
  {
    match line
    case CS => GpioToPin(1, 13)
    case RST => GpioToPin(1, 12)
    case A0 => GpioToPin(0, 26)
    case CLK => GpioToPin(1, 15)
    case SI => GpioToPin(1, 14)
  }

  /** The line wired to a pin, if any: the inverse of `Pin`. */
  function LineOfPin(pin: nat): (r: Option<Line>)
    ensures r.Some? ==> Pin(r.value) == pin
  {
    if pin == Pin(CS) then Some(CS)
    else if pin == Pin(RST) then Some(RST)
    else if pin == Pin(A0) then Some(A0)
    else if pin == Pin(CLK) then Some(CLK)
    else if pin == Pin(SI) then Some(SI)
    else None
  }

  /** The concrete pin numbers, and no two lines share a pin. */
  lemma PinAssignment()
    ensures Pin(CS) == 45 && Pin(RST) == 44 && Pin(A0) == 26
    ensures Pin(CLK) == 47 && Pin(SI) == 46
    ensures forall a: Line, b: Line :: Pin(a) == Pin(b) ==> a == b
  {
  }

  /** Every line is recovered from its pin number. */
  lemma PinRoundTrip(line: Line)
    ensures LineOfPin(Pin(line)) == Some(line)
  {
  }
}
