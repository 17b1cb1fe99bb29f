/** The channel lifecycle of the GPIO interrupt API: `gpio_irq_init`,
    `gpio_irq_free`, `gpio_irq_set`, `gpio_irq_enable` and `gpio_irq_disable`.
    Each is a pure transition on the GPIO state. A channel is addressed by its
    decoded pin position; the code does not bounds-check the decoding, so a
    position inside the 3 x 16 table is a precondition. */
module GpioIrq {
  import opened Common
  import opened GpioTable

  /** `PinName`: either `NC` (not connected) or a decoded pin position. */
  datatype PinName = NC | Pin(pos: PinPos)

  /** The caller's `gpio_irq_t`. */
  datatype GpioIrqObj = GpioIrqObj(id: u32, pinname: PinName)

  /** The return code of `gpio_irq_init`, the new state, and the caller's object. */
  datatype InitResult = InitResult(status: int, state: Gpio, obj: GpioIrqObj)

  /** The pin name decodes to a position inside the table (or is `NC`). */
  predicate PinInRange(pin: PinName) {
    pin.Pin? ==> pin.pos.port < MAX_GPIO_PORTS && pin.pos.line < MAX_GPIO_LINES
  }

  /** Bit `c.line` of IENA and IENB is clear in `t`; no other enable bit and
      no polarity bit of `c`'s port, and no other port, differs from `s`. */
  predicate PinDisarmed(s: Gpio, t: Gpio, c: Channel) {
    && c.line !in t.ports[c.port].iena
    && c.line !in t.ports[c.port].ienb
    && BitsSameExcept(t.ports[c.port].iena, s.ports[c.port].iena, c.line)
    && BitsSameExcept(t.ports[c.port].ienb, s.ports[c.port].ienb, c.line)
    && t.ports[c.port].polarity == s.ports[c.port].polarity
    && PortsSameExcept(s, t, c.port)
  }

  /** The handler, the driver flag and the callback registrations are those of `s`. */
  predicate GlobalsSame(s: Gpio, t: Gpio) {
    && t.handler == s.handler
    && t.initialized == s.initialized
    && t.driverInits == s.driverInits
    && t.callbackA == s.callbackA
    && t.callbackB == s.callbackB
  }

  /** `gpio_irq_init`. Rejects `NC` and the reserved id 0 with -1 and no
      change at all. Otherwise initialises the driver once, keeps a non-null
      handler, disarms the pin in both groups, makes it an input, and resets
      its row to `{id, IRQ_NONE, 0}`. */
  function IrqInit(s: Gpio, obj: GpioIrqObj, pin: PinName, handler: Option<HandlerRef>, id: u32)
    : (r: InitResult)
    requires PinInRange(pin)
    ensures r.status == -1 <==> (pin == NC || id == 0)
    ensures r.status == -1 ==> r.state == s && r.obj == obj
    ensures r.status != -1 ==> r.status == 0 && r.obj == GpioIrqObj(id, pin)
    ensures r.status == 0 ==>
      && Entry(r.state, pin.pos) == ChanInfo(id, IrqNone, false)
      && TableSameExcept(s, r.state, pin.pos)
      && PinDisarmed(s, r.state, pin.pos)
    ensures r.status == 0 ==>
      && pin.pos.line in r.state.ports[pin.pos.port].inputEnable
      && BitsSameExcept(r.state.ports[pin.pos.port].inputEnable, s.ports[pin.pos.port].inputEnable, pin.pos.line)
      && r.state.initialized
      && r.state.driverInits == s.driverInits + (if s.initialized then 0 else 1)
      && r.state.handler == (if handler.Some? then handler else s.handler)
      && r.state.callbackA == s.callbackA && r.state.callbackB == s.callbackB
  {
    if pin == NC || id == 0 then
      InitResult(-1, s, obj)
    else
      var c: Channel := pin.pos;
      var s1 := if !s.initialized then s.(initialized := true, driverInits := s.driverInits + 1) else s;
      var s2 := if handler.Some? then s1.(handler := handler) else s1;
      var s3 := DisablePinInterrupt(s2, c);
      var s4 := InputEnable(s3, c);
      var s5 := WithEntry(s4, c, ChanInfo(id, IrqNone, false));
      InitResult(0, s5, GpioIrqObj(id, pin))
  }

  /** `gpio_irq_enable`. Nothing happens while the row's event is `IRQ_NONE`.
      A rising-edge channel is armed in group A and a falling-edge channel in
      group B, with the demultiplexer registered for that group; the other
      group's register is not touched. The row is then marked enabled. */
  function IrqEnable(s: Gpio, c: Channel): (r: Gpio)
    ensures Entry(s, c).event == IrqNone ==> r == s
    ensures Entry(s, c).event == IrqRise ==>
      && c.line in r.ports[c.port].iena
      && r.ports[c.port].ienb == s.ports[c.port].ienb
      && r.callbackA && r.callbackB == s.callbackB
    ensures Entry(s, c).event == IrqFall ==>
      && c.line in r.ports[c.port].ienb
      && r.ports[c.port].iena == s.ports[c.port].iena
      && r.callbackB && r.callbackA == s.callbackA
    ensures Entry(s, c).event != IrqNone ==>
      && Entry(r, c) == Entry(s, c).(intEnable := true)
      && TableSameExcept(s, r, c)
      && BitsSameExcept(r.ports[c.port].iena, s.ports[c.port].iena, c.line)
      && BitsSameExcept(r.ports[c.port].ienb, s.ports[c.port].ienb, c.line)
      && r.ports[c.port].polarity == s.ports[c.port].polarity
      && r.ports[c.port].inputEnable == s.ports[c.port].inputEnable
      && PortsSameExcept(s, r, c.port)
      && r.handler == s.handler && r.initialized == s.initialized
      && r.driverInits == s.driverInits
  {
    var e := Entry(s, c);
    if e.event == IrqNone then
      s
    else
      var s1 :=
        if e.event == IrqRise then EnablePinInterrupt(s.(callbackA := true), c, IntA)
        else EnablePinInterrupt(s.(callbackB := true), c, IntB);
      WithEntry(s1, c, e.(intEnable := true))
  }

  /** `gpio_irq_disable`. Nothing happens while the row's event is `IRQ_NONE`;
      otherwise the pin is disarmed in both groups, whichever edge it was set
      up for, and the row is marked disabled. */
  function IrqDisable(s: Gpio, c: Channel): (r: Gpio)
    ensures Entry(s, c).event == IrqNone ==> r == s
    ensures Entry(s, c).event != IrqNone ==>
      && PinDisarmed(s, r, c)
      && r.ports[c.port].inputEnable == s.ports[c.port].inputEnable
      && Entry(r, c) == Entry(s, c).(intEnable := false)
      && TableSameExcept(s, r, c)
      && GlobalsSame(s, r)
  {
    var e := Entry(s, c);
    if e.event == IrqNone then
      s
    else
      // Both the rising and the falling branch of the source call
      // disable_pin_interrupt; the event type has no third value.
      WithEntry(DisablePinInterrupt(s, c), c, e.(intEnable := false))
  }

  /** The state `gpio_irq_set` hands to enable/disable: the pin's polarity bit
      set for a rising edge and cleared otherwise, and `event` recorded. */
  function ApplyEvent(s: Gpio, c: Channel, event: IrqEvent): (r: Gpio)
    requires event != IrqNone
    ensures (c.line in r.ports[c.port].polarity) == (event == IrqRise)
    ensures BitsSameExcept(r.ports[c.port].polarity, s.ports[c.port].polarity, c.line)
    ensures r.ports[c.port].iena == s.ports[c.port].iena
    ensures r.ports[c.port].ienb == s.ports[c.port].ienb
    ensures r.ports[c.port].inputEnable == s.ports[c.port].inputEnable
    ensures PortsSameExcept(s, r, c.port)
    ensures Entry(r, c) == Entry(s, c).(event := event)
    ensures TableSameExcept(s, r, c)
    ensures GlobalsSame(s, r)
  {
    var regs := s.ports[c.port];
    var pol := if event == IrqRise then SetBit(regs.polarity, c.line) else ClearBit(regs.polarity, c.line);
    var s1 := s.(ports := s.ports[c.port := regs.(polarity := pol)]);
    WithEntry(s1, c, Entry(s, c).(event := event))
  }

  /** `gpio_irq_set`. `IRQ_NONE` changes nothing. Any other event sets the
      polarity bit (rising) or clears it (falling), records the event, and
      then enables the channel if `enable` is non-zero or disables it. */
  function IrqSet(s: Gpio, c: Channel, event: IrqEvent, enable: u32): (r: Gpio)
    ensures event == IrqNone ==> r == s
    ensures event != IrqNone ==>
      && (c.line in r.ports[c.port].polarity) == (event == IrqRise)
      && BitsSameExcept(r.ports[c.port].polarity, s.ports[c.port].polarity, c.line)
      && Entry(r, c) == ChanInfo(Entry(s, c).id, event, enable != 0)
      && TableSameExcept(s, r, c)
    ensures event != IrqNone && enable != 0 ==> r == IrqEnable(ApplyEvent(s, c, event), c)
    ensures event != IrqNone && enable == 0 ==> r == IrqDisable(ApplyEvent(s, c, event), c)
  {
    if event == IrqNone then
      s
    else
      var s1 := ApplyEvent(s, c, event);
      if enable != 0 then IrqEnable(s1, c) else IrqDisable(s1, c)
  }

  /** `gpio_irq_free`: disable the channel, then clear its row to
      `{0, IRQ_NONE, 0}` whatever it held before. */
  function IrqFree(s: Gpio, c: Channel): (r: Gpio)
    ensures Entry(r, c) == EMPTY_CHAN
    ensures TableSameExcept(s, r, c)
    ensures GlobalsSame(s, r)
    ensures Entry(s, c).event == IrqNone ==> r.ports == s.ports
    ensures Entry(s, c).event != IrqNone ==>
      PinDisarmed(s, r, c) && r.ports[c.port].inputEnable == s.ports[c.port].inputEnable
  {
    WithEntry(IrqDisable(s, c), c, EMPTY_CHAN)
  }
}
