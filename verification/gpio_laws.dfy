/** Laws relating the GPIO channel operations to each other: round trips,
    idempotence, no-op guards, the single-handler policy, and the lazy driver
    initialisation. */
module GpioLaws {
  import opened Common
  import opened GpioTable
  import opened GpioIrq

  /** Releasing a channel that `gpio_irq_init` just set up on a free row gives
      back the table exactly as it was before the init. */
  lemma InitFreeRestoresTable(s: Gpio, obj: GpioIrqObj, c: Channel, h: Option<HandlerRef>, id: u32)
    requires id != 0
    requires Entry(s, c) == EMPTY_CHAN
    ensures IrqInit(s, obj, Pin(c), h, id).status == 0
    ensures IrqFree(IrqInit(s, obj, Pin(c), h, id).state, c).table == s.table
  {
    var t := IrqFree(IrqInit(s, obj, Pin(c), h, id).state, c);
    forall p | 0 <= p < MAX_GPIO_PORTS
      ensures t.table[p] == s.table[p]
    {
      forall l | 0 <= l < MAX_GPIO_LINES
        ensures t.table[p][l] == s.table[p][l]
      {
        if PinPos(p, l) == c {
          assert t.table[p][l] == Entry(t, c);
        }
      }
    }
  }

  /** Whatever the row held, after `gpio_irq_free` it is empty, and freeing
      again changes nothing. */
  lemma FreeIdempotent(s: Gpio, c: Channel)
    ensures IrqFree(IrqFree(s, c), c) == IrqFree(s, c)
  {
    var t := IrqFree(s, c);
    assert Entry(t, c).event == IrqNone;
    var u := IrqFree(t, c);
    assert u.ports == t.ports;
    assert u.table == t.table by {
      forall p | 0 <= p < MAX_GPIO_PORTS
        ensures u.table[p] == t.table[p]
      {
        forall l | 0 <= l < MAX_GPIO_LINES
          ensures u.table[p][l] == t.table[p][l]
        {
          if PinPos(p, l) == c {
            assert u.table[p][l] == Entry(u, c);
          }
        }
      }
    }
  }

  /** A second consecutive `gpio_irq_disable` changes nothing, registers included. */
  lemma DisableIdempotent(s: Gpio, c: Channel)
    ensures IrqDisable(IrqDisable(s, c), c) == IrqDisable(s, c)
  {
    var t := IrqDisable(s, c);
    if Entry(s, c).event != IrqNone {
      var u := IrqDisable(t, c);
      assert Entry(t, c).event == Entry(s, c).event;
      assert u.ports[c.port] == t.ports[c.port];
      assert u.ports == t.ports;
      assert u.table == t.table by {
        forall p | 0 <= p < MAX_GPIO_PORTS
          ensures u.table[p] == t.table[p]
        {
          forall l | 0 <= l < MAX_GPIO_LINES
            ensures u.table[p][l] == t.table[p][l]
          {
            if PinPos(p, l) == c {
              assert u.table[p][l] == Entry(u, c);
            }
          }
        }
      }
    }
  }

  /** Enabling and then disabling a configured channel leaves its pin armed
      in neither group and the row disabled. */
  lemma EnableThenDisableDisarms(s: Gpio, c: Channel)
    requires Entry(s, c).event != IrqNone
    ensures c.line !in IrqDisable(IrqEnable(s, c), c).ports[c.port].iena
    ensures c.line !in IrqDisable(IrqEnable(s, c), c).ports[c.port].ienb
    ensures !Entry(IrqDisable(IrqEnable(s, c), c), c).intEnable
    ensures Entry(IrqDisable(IrqEnable(s, c), c), c).event == Entry(s, c).event
  {
  }

  /** `adi_gpio_Init` runs once however many channels are initialised:
      two successful inits from an uninitialised driver count one call. */
  lemma DriverInitialisedOnce(s: Gpio, obj: GpioIrqObj, c1: Channel, c2: Channel,
                              h1: Option<HandlerRef>, h2: Option<HandlerRef>, id1: u32, id2: u32)
    requires !s.initialized && id1 != 0 && id2 != 0
    ensures var r1 := IrqInit(s, obj, Pin(c1), h1, id1);
            var r2 := IrqInit(r1.state, r1.obj, Pin(c2), h2, id2);
            r2.state.initialized && r2.state.driverInits == s.driverInits + 1
  {
  }

  /** One handler for all channels, last non-null registration wins: after
      inits with `h1`, then `h2`, then NULL, the handler is `h2`. */
  lemma LastHandlerWins(s: Gpio, obj: GpioIrqObj, c1: Channel, c2: Channel, c3: Channel,
                        h1: HandlerRef, h2: HandlerRef, id: u32)
    requires id != 0
    ensures var r1 := IrqInit(s, obj, Pin(c1), Some(h1), id);
            var r2 := IrqInit(r1.state, obj, Pin(c2), Some(h2), id);
            var r3 := IrqInit(r2.state, obj, Pin(c3), None, id);
            r3.state.handler == Some(h2)
  {
  }

  /** A worked example: port 0, pin 3, id 7, rising edge, enabled, from
      reset. Polarity bit 3 and group A enable bit 3 of port 0 are set, and the
      row reads `{7, IRQ_RISE, 1}`. */
  lemma RisingScenario(obj: GpioIrqObj, h: HandlerRef)
    ensures var c := PinPos(0, 3);
            var r := IrqInit(Boot(), obj, Pin(c), Some(h), 7);
            var t := IrqSet(r.state, c, IrqRise, 1);
            && r.status == 0
            && 3 in t.ports[0].polarity
            && 3 in t.ports[0].iena
            && 3 !in t.ports[0].ienb
            && Entry(t, c) == ChanInfo(7, IrqRise, true)
            && t.callbackA && !t.callbackB
  {
    var c := PinPos(0, 3);
    var r := IrqInit(Boot(), obj, Pin(c), Some(h), 7);
    assert r.state.ports[0].ienb == {};
    var s1 := ApplyEvent(r.state, c, IrqRise);
    assert s1.ports[0].ienb == {};
  }

  /** Re-arming a falling-edge channel for the rising edge does not disarm
      group B: the pin is then enabled in both groups, with the polarity set
      for rising edges. The model records this behaviour of the source. */
  lemma FallThenRiseArmsBothGroups(s: Gpio, c: Channel)
    ensures var t := IrqSet(IrqSet(s, c, IrqFall, 1), c, IrqRise, 1);
            && c.line in t.ports[c.port].iena
            && c.line in t.ports[c.port].ienb
            && c.line in t.ports[c.port].polarity
            && Entry(t, c).event == IrqRise
  {
    var t1 := IrqSet(s, c, IrqFall, 1);
    assert c.line in t1.ports[c.port].ienb;
    var t2 := ApplyEvent(t1, c, IrqRise);
    assert c.line in t2.ports[c.port].ienb;
  }
}
