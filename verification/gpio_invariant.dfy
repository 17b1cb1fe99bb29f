/** Agreement between the channel table and the interrupt hardware: a pin is
    armed in a group only while its row is enabled, an enabled row always has
    an edge, its pin is armed in that edge's group, and a group with an armed
    pin has the demultiplexer registered. Every lifecycle operation keeps it. */
module GpioInvariant {
  import opened Common
  import opened GpioTable
  import opened GpioIrq

  /** The invariant at one pin. */
  predicate PinConsistent(s: Gpio, p: nat, l: nat)
    requires p < MAX_GPIO_PORTS && l < MAX_GPIO_LINES
  {
    var e := s.table[p][l];
    var regs := s.ports[p];
    && (l in regs.iena || l in regs.ienb ==> e.intEnable)
    && (e.intEnable ==> e.event != IrqNone)
    && (e.intEnable && e.event == IrqRise ==> l in regs.iena)
    && (e.intEnable && e.event == IrqFall ==> l in regs.ienb)
    && (l in regs.iena ==> s.callbackA)
    && (l in regs.ienb ==> s.callbackB)
  }

  /** The invariant at every pin of every port. */
  predicate Consistent(s: Gpio) {
    forall p, l :: 0 <= p < MAX_GPIO_PORTS && 0 <= l < MAX_GPIO_LINES ==> PinConsistent(s, p, l)
  }

  /** Pins other than `c` see the same row, the same enable bits and the same
      callback registrations (or more) in `t` as in `s`. */
  predicate OthersUntouched(s: Gpio, t: Gpio, c: Channel) {
    && TableSameExcept(s, t, c)
    && PortsSameExcept(s, t, c.port)
    && BitsSameExcept(t.ports[c.port].iena, s.ports[c.port].iena, c.line)
    && BitsSameExcept(t.ports[c.port].ienb, s.ports[c.port].ienb, c.line)
    && (s.callbackA ==> t.callbackA)
    && (s.callbackB ==> t.callbackB)
  }

  /** If the invariant holds at `c` in `t`, and every other pin is untouched,
      the invariant carries over from `s` to `t`. */
  lemma {:induction false} Frame(s: Gpio, t: Gpio, c: Channel)
    requires Consistent(s)
    requires OthersUntouched(s, t, c)
    requires PinConsistent(t, c.port, c.line)
    ensures Consistent(t)
  {
    forall p, l | 0 <= p < MAX_GPIO_PORTS && 0 <= l < MAX_GPIO_LINES
      ensures PinConsistent(t, p, l)
    {
      if PinPos(p, l) != c {
        assert PinConsistent(s, p, l);
        assert t.table[p][l] == s.table[p][l];
        if p == c.port {
          assert l in t.ports[p].iena - {c.line} <==> l in s.ports[p].iena - {c.line};
          assert l in t.ports[p].ienb - {c.line} <==> l in s.ports[p].ienb - {c.line};
        } else {
          assert t.ports[p] == s.ports[p];
        }
      }
    }
  }

  /** The reset state satisfies the invariant. */
  lemma BootConsistent()
    ensures Consistent(Boot())
  {
  }

  lemma InitPreserves(s: Gpio, obj: GpioIrqObj, pin: PinName, h: Option<HandlerRef>, id: u32)
    requires PinInRange(pin)
    requires Consistent(s)
    ensures Consistent(IrqInit(s, obj, pin, h, id).state)
  {
    var r := IrqInit(s, obj, pin, h, id);
    if r.status == 0 {
      Frame(s, r.state, pin.pos);
    }
  }

  lemma EnablePreserves(s: Gpio, c: Channel)
    requires Consistent(s)
    ensures Consistent(IrqEnable(s, c))
  {
    if Entry(s, c).event != IrqNone {
      assert PinConsistent(s, c.port, c.line);
      Frame(s, IrqEnable(s, c), c);
    }
  }

  lemma DisablePreserves(s: Gpio, c: Channel)
    requires Consistent(s)
    ensures Consistent(IrqDisable(s, c))
  {
    if Entry(s, c).event != IrqNone {
      Frame(s, IrqDisable(s, c), c);
    }
  }

  lemma FreePreserves(s: Gpio, c: Channel)
    requires Consistent(s)
    ensures Consistent(IrqFree(s, c))
  {
    assert PinConsistent(s, c.port, c.line);
    Frame(s, IrqFree(s, c), c);
  }

  lemma SetPreserves(s: Gpio, c: Channel, event: IrqEvent, enable: u32)
    requires Consistent(s)
    ensures Consistent(IrqSet(s, c, event, enable))
  {
    if event != IrqNone {
      var r := IrqSet(s, c, event, enable);
      assert PinConsistent(s, c.port, c.line);
      Frame(s, r, c);
    }
  }
}
