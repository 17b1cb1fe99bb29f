/** The interrupt demultiplexer `gpio_irq_callback`. The interrupt controller
    passes the port that raised the interrupt and a 16-bit mask of the pins
    that fired; the callback calls the single registered handler once per set
    bit, from bit 0 upwards, with that pin's channel id and event. */
module GpioDispatch {
  import opened Common
  import opened GpioTable
  import GpioInvariant

  /** A line index within a port's 16-bit mask. */
  type Line = l: nat | l < REG_BITS

  /** One invocation of the user handler: `irq_handler(id, event)`. */
  datatype HandlerCall = HandlerCall(handler: HandlerRef, id: u32, event: IrqEvent)

  /** The lines below `index` whose bit is set in `mask`, ascending. */
  function FiredBelow(mask: u16, index: nat): (lines: seq<Line>)
    requires index <= REG_BITS
    ensures |lines| <= index
    decreases index
  {
    if index == 0 then []
    else FiredBelow(mask, index - 1) + (if Bit(mask, index - 1) then [(index - 1) as Line] else [])
  }

  /** Every line listed by `FiredBelow` is below `index` and has its bit set. */
  lemma {:induction false} FiredBelowSound(mask: u16, index: nat)
    requires index <= REG_BITS
    ensures forall k :: 0 <= k < |FiredBelow(mask, index)| ==>
      FiredBelow(mask, index)[k] < index && Bit(mask, FiredBelow(mask, index)[k])
    decreases index
  {
    if index > 0 {
      FiredBelowSound(mask, index - 1);
      var lines := FiredBelow(mask, index - 1);
      var l: Line := index - 1;
      var lines' := lines + (if Bit(mask, l) then [l] else []);
      assert FiredBelow(mask, index) == lines';
      forall k | 0 <= k < |lines'|
        ensures lines'[k] < index && Bit(mask, lines'[k])
      {
        if k < |lines| {
          assert lines'[k] == lines[k];
        }
      }
    }
  }

  /** Every set bit below `index` is listed by `FiredBelow`. */
  lemma {:induction false} FiredBelowComplete(mask: u16, index: nat, i: Line)
    requires i < index <= REG_BITS && Bit(mask, i)
    ensures i in FiredBelow(mask, index)
    decreases index
  {
    if i < index - 1 {
      FiredBelowComplete(mask, index - 1, i);
    }
  }

  /** `FiredBelow` lists its lines in strictly ascending order. */
  lemma {:induction false} FiredBelowAscending(mask: u16, index: nat)
    requires index <= REG_BITS
    ensures forall k, m :: 0 <= k < m < |FiredBelow(mask, index)| ==>
      FiredBelow(mask, index)[k] < FiredBelow(mask, index)[m]
    decreases index
  {
    if index > 0 {
      FiredBelowAscending(mask, index - 1);
      FiredBelowSound(mask, index - 1);
      var lines := FiredBelow(mask, index - 1);
      var l: Line := index - 1;
      var lines' := lines + (if Bit(mask, l) then [l] else []);
      assert FiredBelow(mask, index) == lines';
      forall k, m | 0 <= k < m < |lines'|
        ensures lines'[k] < lines'[m]
      {
        assert lines'[k] == lines[k];
        if m >= |lines| {
          assert lines'[m] == l;
        } else {
          assert lines'[m] == lines[m];
        }
      }
    }
  }

  /** The call the handler `h` receives for line `l` of `port`. */
  function CallFor(s: Gpio, port: nat, h: HandlerRef, l: Line): HandlerCall
    requires port < MAX_GPIO_PORTS
  {
    HandlerCall(h, s.table[port][l].id, s.table[port][l].event)
  }

  /** The call line `l` contributes: one if its bit is set and a handler is
      registered, none otherwise. */
  function StepCalls(s: Gpio, port: nat, mask: u16, l: Line): seq<HandlerCall>
    requires port < MAX_GPIO_PORTS
  {
    if Bit(mask, l) && s.handler.Some? then [CallFor(s, port, s.handler.value, l)] else []
  }

  /** The calls made once lines `0 .. index - 1` have been looked at. */
  function CallsBelow(s: Gpio, port: nat, mask: u16, index: nat): (calls: seq<HandlerCall>)
    requires port < MAX_GPIO_PORTS && index <= REG_BITS
    ensures |calls| <= index
    decreases index
  {
    if index == 0 then [] else CallsBelow(s, port, mask, index - 1) + StepCalls(s, port, mask, index - 1)
  }

  /** What the demultiplexer must do for a whole mask. */
  function Dispatch(s: Gpio, port: nat, mask: u16): seq<HandlerCall>
    requires port < MAX_GPIO_PORTS
  {
    CallsBelow(s, port, mask, REG_BITS)
  }

  /** Without a handler no line below `index` produces a call. */
  lemma {:induction false} CallsBelowNoHandler(s: Gpio, port: nat, mask: u16, index: nat)
    requires port < MAX_GPIO_PORTS && index <= REG_BITS && s.handler.None?
    ensures CallsBelow(s, port, mask, index) == []
    decreases index
  {
    if index > 0 {
      CallsBelowNoHandler(s, port, mask, index - 1);
    }
  }

  /** With handler `h`, the calls for the lines below `index` are, one for
      one, the calls for the fired lines below `index`. */
  lemma {:induction false} CallsBelowMatchFired(s: Gpio, port: nat, mask: u16, index: nat, h: HandlerRef)
    requires port < MAX_GPIO_PORTS && index <= REG_BITS && s.handler == Some(h)
    ensures |CallsBelow(s, port, mask, index)| == |FiredBelow(mask, index)|
    ensures forall k :: 0 <= k < |FiredBelow(mask, index)| ==>
      CallsBelow(s, port, mask, index)[k] == CallFor(s, port, h, FiredBelow(mask, index)[k])
    decreases index
  {
    if index > 0 {
      CallsBelowMatchFired(s, port, mask, index - 1, h);
      var calls := CallsBelow(s, port, mask, index - 1);
      var lines := FiredBelow(mask, index - 1);
      var l: Line := index - 1;
      var fired := Bit(mask, l);
      var calls' := calls + (if fired then [CallFor(s, port, h, l)] else []);
      var lines' := lines + (if fired then [l] else []);
      assert CallsBelow(s, port, mask, index) == calls';
      assert FiredBelow(mask, index) == lines';
      forall k | 0 <= k < |lines'|
        ensures calls'[k] == CallFor(s, port, h, lines'[k])
      {
        if k < |lines| {
          assert calls'[k] == calls[k];
          assert lines'[k] == lines[k];
        }
      }
    }
  }

  /** `Dispatch` in full: without a handler nothing is called; with one,
      there is one call per set bit of the mask, in ascending bit order, each
      carrying that pin's channel id and event, and no other call. */
  lemma DispatchCallsFiredLines(s: Gpio, port: nat, mask: u16)
    requires port < MAX_GPIO_PORTS
    ensures s.handler.None? ==> Dispatch(s, port, mask) == []
    ensures s.handler.Some? ==>
      var lines := FiredBelow(mask, REG_BITS);
      && |Dispatch(s, port, mask)| == |lines|
      && (forall k :: 0 <= k < |lines| ==> Dispatch(s, port, mask)[k] == CallFor(s, port, s.handler.value, lines[k]))
      && (forall k :: 0 <= k < |lines| ==> Bit(mask, lines[k]))
      && (forall i: Line :: Bit(mask, i) ==> i in lines)
      && (forall k, m :: 0 <= k < m < |lines| ==> lines[k] < lines[m])
  {
    FiredBelowSound(mask, REG_BITS);
    FiredBelowAscending(mask, REG_BITS);
    forall i: Line | Bit(mask, i)
      ensures i in FiredBelow(mask, REG_BITS)
    {
      FiredBelowComplete(mask, REG_BITS, i);
    }
    if s.handler.Some? {
      CallsBelowMatchFired(s, port, mask, REG_BITS, s.handler.value);
    } else {
      CallsBelowNoHandler(s, port, mask, REG_BITS);
    }
  }

  /** Once the shifted mask is zero, the remaining lines add no calls. */
  lemma {:induction false} CallsSettle(s: Gpio, port: nat, mask: u16, index: nat, j: nat)
    requires port < MAX_GPIO_PORTS && index <= j <= REG_BITS
    requires Shr(mask, index) == 0
    ensures CallsBelow(s, port, mask, j) == CallsBelow(s, port, mask, index)
    decreases j
  {
    if j > index {
      CallsSettle(s, port, mask, index, j - 1);
      ShrBit(mask, index, j - 1 - index);
      ZeroHasNoBits(j - 1 - index);
      assert StepCalls(s, port, mask, j - 1) == [];
    }
  }

  /** One turn of the source's loop: with `pin` the mask shifted right by
      `index`, the low bit of `pin` is the bit of line `index`, and the calls
      for the lines below `index + 1` add that line's call if it fired. */
  lemma LoopStep(s: Gpio, port: nat, mask: u16, index: Line, pin: nat)
    requires port < MAX_GPIO_PORTS && pin == Shr(mask, index)
    ensures pin / 2 == Shr(mask, index + 1)
    ensures CallsBelow(s, port, mask, index + 1) ==
      CallsBelow(s, port, mask, index)
      + (if pin % 2 == 1 && s.handler.Some? then [CallFor(s, port, s.handler.value, index)] else [])
  {
    ShrBit(mask, index, 0);
  }

  /** `gpio_irq_callback`: the source's loop, which looks at the low bit of
      the remaining mask and then halves it, until nothing is left. It
      produces exactly `Dispatch`, and never reads a table row at an index of
      16 or more. */
  method GpioIrqCallback(s: Gpio, port: nat, mask: u16) returns (calls: seq<HandlerCall>)
    requires port < MAX_GPIO_PORTS
    ensures calls == Dispatch(s, port, mask)
  {
    var pin: nat := mask;
    var index: nat := 0;
    calls := [];
    U16Bound(mask);
    while pin != 0
      invariant index <= REG_BITS
      invariant pin == Shr(mask, index)
      invariant calls == CallsBelow(s, port, mask, index)
      decreases pin
    {
      ShrBound(mask, REG_BITS, index);
      assert index < REG_BITS;
      LoopStep(s, port, mask, index, pin);
      if pin % 2 == 1 && s.handler.Some? {
        calls := calls + [CallFor(s, port, s.handler.value, index)];
      }
      index := index + 1;
      pin := pin / 2;
    }
    CallsSettle(s, port, mask, index, REG_BITS);
  }

  /** The mask `0b101` on a port yields two calls, for pin 0 then pin 2. */
  lemma TwoPinBurst(s: Gpio, port: nat, h: HandlerRef)
    requires port < MAX_GPIO_PORTS
    requires s.handler == Some(h)
    ensures Dispatch(s, port, 0x0005) == [CallFor(s, port, h, 0), CallFor(s, port, h, 2)]
  {
    assert Bit(0x0005, 0) && !Bit(0x0005, 1) && Bit(0x0005, 2);
    assert Shr(0x0005, 3) == 0;
    CallsSettle(s, port, 0x0005, 3, REG_BITS);
    assert CallsBelow(s, port, 0x0005, 1) == [CallFor(s, port, h, 0)];
    assert CallsBelow(s, port, 0x0005, 2) == [CallFor(s, port, h, 0)];
  }

  /** When the hardware only reports pins that are armed, and the table
      agrees with the hardware, every call carries a real edge event. */
  lemma ArmedPinsReportEdges(s: Gpio, port: nat, mask: u16)
    requires port < MAX_GPIO_PORTS
    requires GpioInvariant.Consistent(s)
    requires forall j :: 0 <= j < REG_BITS && Bit(mask, j) ==> j in s.ports[port].iena || j in s.ports[port].ienb
    ensures forall k :: 0 <= k < |Dispatch(s, port, mask)| ==> Dispatch(s, port, mask)[k].event != IrqNone
  {
    DispatchCallsFiredLines(s, port, mask);
    var lines := FiredBelow(mask, REG_BITS);
    forall k | 0 <= k < |Dispatch(s, port, mask)|
      ensures Dispatch(s, port, mask)[k].event != IrqNone
    {
      assert GpioInvariant.PinConsistent(s, port, lines[k]);
    }
  }
}
