/** The state behind the GPIO interrupt API of the ADuCM3029: the per-pin
    channel table, the single registered handler, the driver-initialised flag,
    and the per-port interrupt registers that the vendor driver reads and
    writes (IENA, IENB, polarity and input enable, each 16 bits wide).

    A 16-bit register is modelled as the set of its bit positions that are
    set: setting bit `n` adds `n` to the set, clearing it removes `n`.

    The vendor calls `adi_gpio_GetGroupInterruptPins` and
    `adi_gpio_GetGroupInterruptPolarity` take a pin mask whose effect is not
    visible; they are modelled as returning the whole register. */
module GpioTable {
  import opened Common

  const MAX_GPIO_LINES: nat := 16
  const MAX_GPIO_PORTS: nat := 3

  /** `gpio_irq_event`. */
  datatype IrqEvent = IrqNone | IrqRise | IrqFall

  /** `gpio_chan_info_t`: one row of `channel_ids`. */
  datatype ChanInfo = ChanInfo(id: u32, event: IrqEvent, intEnable: bool)

  /** A row as static storage starts it, and as `gpio_irq_free` leaves it. */
  const EMPTY_CHAN: ChanInfo := ChanInfo(0, IrqNone, false)

  /** A decoded pin name: port number and line within the port. */
  datatype PinPos = PinPos(port: nat, line: nat)

  /** A pin position the table can hold. */
  type Channel = c: PinPos | c.port < MAX_GPIO_PORTS && c.line < MAX_GPIO_LINES
    witness PinPos(0, 0)

  /** The two interrupt groups: `SYS_GPIO_INTA_IRQn` and `SYS_GPIO_INTB_IRQn`. */
  datatype Group = IntA | IntB

  /** A 16-bit register, as the set of positions of its set bits. */
  type Reg16 = r: set<nat> | forall i | i in r :: i < REG_BITS

  /** The register with bit `i` set. */
  function SetBit(r: Reg16, i: nat): (r': Reg16)
    requires i < REG_BITS
    ensures i in r' && r' - {i} == r - {i}
  {
    r + {i}
  }

  /** The register with bit `i` cleared. */
  function ClearBit(r: Reg16, i: nat): (r': Reg16)
    requires i < REG_BITS
    ensures i !in r' && r' - {i} == r - {i}
  {
    r - {i}
  }

  /** The registers of one GPIO port that the model touches. */
  datatype PortRegs = PortRegs(iena: Reg16, ienb: Reg16, polarity: Reg16, inputEnable: Reg16)

  /** A non-null `gpio_irq_handler`, identified by its address. */
  datatype HandlerRef = HandlerRef(addr: nat)

  /** Everything the GPIO interrupt API reads or writes. `callbackA` and
      `callbackB` record whether the demultiplexer has been registered with
      the interrupt controller for group A and group B. `driverInits` counts
      calls of `adi_gpio_Init`. */
  datatype GpioState = GpioState(
    table: seq<seq<ChanInfo>>,
    ports: seq<PortRegs>,
    handler: Option<HandlerRef>,
    initialized: bool,
    driverInits: nat,
    callbackA: bool,
    callbackB: bool)
  {
    /** `channel_ids` is 3 x 16 and there are 3 ports. */
    predicate WellFormed() {
      && |table| == MAX_GPIO_PORTS
      && (forall p :: 0 <= p < |table| ==> |table[p]| == MAX_GPIO_LINES)
      && |ports| == MAX_GPIO_PORTS
    }
  }

  type Gpio = s: GpioState | s.WellFormed() witness Boot()

  /** The state at reset: zeroed static storage, no handler, driver not yet
      initialised, all interrupt registers clear. */
  function Boot(): GpioState {
    GpioState(
      seq(MAX_GPIO_PORTS, _ => seq(MAX_GPIO_LINES, _ => EMPTY_CHAN)),
      seq(MAX_GPIO_PORTS, _ => PortRegs({}, {}, {}, {})),
      None, false, 0, false, false)
  }

  /** `channel_ids[port][pin]`. */
  function Entry(s: Gpio, c: Channel): ChanInfo {
    s.table[c.port][c.line]
  }

  /** The enable register of group `g` on port `p`. */
  function Ien(s: Gpio, p: nat, g: Group): Reg16
    requires p < MAX_GPIO_PORTS
  {
    match g
    case IntA => s.ports[p].iena
    case IntB => s.ports[p].ienb
  }

  /** Every row other than `c` is the same in `s` and `t`. */
  predicate TableSameExcept(s: Gpio, t: Gpio, c: Channel) {
    forall p, l :: 0 <= p < MAX_GPIO_PORTS && 0 <= l < MAX_GPIO_LINES && PinPos(p, l) != c ==>
      t.table[p][l] == s.table[p][l]
  }

  /** Every port other than `p` has the same registers in `s` and `t`. */
  predicate PortsSameExcept(s: Gpio, t: Gpio, p: nat) {
    forall q :: 0 <= q < MAX_GPIO_PORTS && q != p ==> t.ports[q] == s.ports[q]
  }

  /** `a` and `b` agree on every bit except `line`. */
  predicate BitsSameExcept(a: Reg16, b: Reg16, line: nat) {
    a - {line} == b - {line}
  }

  /** Only the enable registers of `c`'s port may differ, and only in bit
      `c.line`; the table, the handler and the flags are those of `s`. */
  predicate OnlyEnableBitChanged(s: Gpio, t: Gpio, c: Channel) {
    && t.table == s.table
    && t.handler == s.handler
    && t.initialized == s.initialized
    && t.driverInits == s.driverInits
    && PortsSameExcept(s, t, c.port)
    && t.ports[c.port].polarity == s.ports[c.port].polarity
    && t.ports[c.port].inputEnable == s.ports[c.port].inputEnable
    && BitsSameExcept(t.ports[c.port].iena, s.ports[c.port].iena, c.line)
    && BitsSameExcept(t.ports[c.port].ienb, s.ports[c.port].ienb, c.line)
  }

  /** `s` with row `c` replaced by `e`. */
  function WithEntry(s: Gpio, c: Channel, e: ChanInfo): (r: Gpio)
    ensures Entry(r, c) == e
    ensures TableSameExcept(s, r, c)
    ensures r.ports == s.ports && r.handler == s.handler
    ensures r.initialized == s.initialized && r.driverInits == s.driverInits
    ensures r.callbackA == s.callbackA && r.callbackB == s.callbackB
  {
    s.(table := s.table[c.port := s.table[c.port][c.line := e]])
  }

  /** `disable_pin_interrupt`: clear bit `pin_number` of both IENA and IENB. */
  function DisablePinInterrupt(s: Gpio, c: Channel): (r: Gpio)
    ensures c.line !in r.ports[c.port].iena && c.line !in r.ports[c.port].ienb
    ensures OnlyEnableBitChanged(s, r, c)
    ensures r.callbackA == s.callbackA && r.callbackB == s.callbackB
  {
    var regs := s.ports[c.port];
    s.(ports := s.ports[c.port := regs.(iena := ClearBit(regs.iena, c.line),
                                        ienb := ClearBit(regs.ienb, c.line))])
  }

  /** `enable_pin_interrupt`: set bit `pin_number` of the enable register of
      group `g`; the other group's register is not touched. */
  function EnablePinInterrupt(s: Gpio, c: Channel, g: Group): (r: Gpio)
    ensures c.line in Ien(r, c.port, g)
    ensures g == IntA ==> r.ports[c.port].ienb == s.ports[c.port].ienb
    ensures g == IntB ==> r.ports[c.port].iena == s.ports[c.port].iena
    ensures OnlyEnableBitChanged(s, r, c)
    ensures r.callbackA == s.callbackA && r.callbackB == s.callbackB
  {
    var regs := s.ports[c.port];
    var regs' := match g
      case IntA => regs.(iena := SetBit(regs.iena, c.line))
      case IntB => regs.(ienb := SetBit(regs.ienb, c.line));
    s.(ports := s.ports[c.port := regs'])
  }

  /** Turn on the input buffer of the channel's pin: set its input-enable bit. */
  function InputEnable(s: Gpio, c: Channel): (r: Gpio)
    ensures c.line in r.ports[c.port].inputEnable
    ensures BitsSameExcept(r.ports[c.port].inputEnable, s.ports[c.port].inputEnable, c.line)
    ensures r.ports[c.port].(inputEnable := {}) == s.ports[c.port].(inputEnable := {})
    ensures PortsSameExcept(s, r, c.port)
    ensures r.table == s.table && r.handler == s.handler
    ensures r.initialized == s.initialized && r.driverInits == s.driverInits
    ensures r.callbackA == s.callbackA && r.callbackB == s.callbackB
  {
    var regs := s.ports[c.port];
    s.(ports := s.ports[c.port := regs.(inputEnable := SetBit(regs.inputEnable, c.line))])
  }
}
