# ADuCM GPIO interrupt channels and low-power ticker alarm, in Dafny

This project models two small interrupt-facing parts of the mbed HAL for
Analog Devices Cortex-M parts.

**GPIO interrupt channels (ADuCM3029).** The driver keeps:

- a 3 x 16 table of channel rows, `{id, event, int_enable}`, one per port and pin;
- one user handler shared by all pins;
- a flag saying whether the vendor GPIO driver has been initialised;
- per port, the IENA and IENB interrupt-enable registers, the polarity register and the input-enable register.

Rising-edge pins are grouped on interrupt A and falling-edge pins on interrupt B. The model covers:

- `gpio_irq_init`, `gpio_irq_free`, `gpio_irq_set`, `gpio_irq_enable` and `gpio_irq_disable`, as pure transitions on that state;
- the helpers `enable_pin_interrupt` and `disable_pin_interrupt`;
- the demultiplexer `gpio_irq_callback`, as a method that runs the source's shift-and-test loop over the 16-bit fired-pin mask. It is proved equal to a reference: one handler call per set bit, in ascending order.

A 16-bit register is modelled as the set of its set bit positions. Setting bit `n` adds `n` and clearing it removes `n`. The fired-pin mask is an integer below 2^16, read bit by bit as `pin & 0x01` and `pin >>= 1` read it.

**Low-power ticker (ADuCM4050), in RTC ticks.** `rtc1_Callback` forwards alarm events to `lp_ticker_irq_handler`. `lp_ticker_set_interrupt` picks one of three regimes:

- expired: call the handler now;
- imminent (within 50 ticks): busy-wait on the RTC count, then call the handler;
- future: arm the RTC alarm.

`rtcCount + 50` is computed modulo 2^32, as `uint32_t` arithmetic does. `lp_ticker_disable_interrupt` and `lp_ticker_clear_interrupt` are modelled as well. Handler calls are counted in the state.

Two behaviours of the code are recorded as lemmas rather than corrected, because the code may well intend them:

- When `enable` is non-zero, `gpio_irq_set` arms the new edge's group and does not clear the other group's bit. Re-arming a falling-edge channel for rising edges therefore leaves it armed on both interrupts (`GpioLaws.FallThenRiseArmsBothGroups`). When `enable` is zero, both groups are disarmed.
- Within 50 ticks of the 32-bit counter's wrap, `rtcCount + 50` wraps. No target is then imminent, and any later target is armed as an alarm (`LpTicker.NearTopNeverImminent`).

Files:

- `common.dfy`: `Option`, `uint32_t`/`uint16_t`, bit access and shifts.
- `gpio_table.dfy`: the GPIO state and the register helpers.
- `gpio_irq.dfy`: the channel lifecycle.
- `gpio_laws.dfy`: laws relating the operations.
- `gpio_invariant.dfy`: the table/register consistency invariant and its preservation.
- `gpio_dispatch.dfy`: the demultiplexer.
- `lp_ticker.dfy`: the ticker.

## Model

| member | source | states |
|---|---|---|
| GpioTable.SetBit | targets/TARGET_Analog_Devices/TARGET_ADUCM302X/TARGET_ADUCM3029/api/gpio_irq_api.c:85 | OR-ing in `1 << i` sets bit `i` and leaves every other bit as in `r` |
| GpioTable.ClearBit | targets/TARGET_Analog_Devices/TARGET_ADUCM302X/TARGET_ADUCM3029/api/gpio_irq_api.c:58 | AND-ing with `~(1 << i)` clears bit `i` and leaves every other bit as in `r` |
| GpioTable.WithEntry | targets/TARGET_Analog_Devices/TARGET_ADUCM302X/TARGET_ADUCM3029/api/gpio_irq_api.c:127-129 | writing one channel row changes that row only; registers, handler and flags are kept |
| GpioTable.DisablePinInterrupt | targets/TARGET_Analog_Devices/TARGET_ADUCM302X/TARGET_ADUCM3029/api/gpio_irq_api.c:50-71 | the pin's bit is clear in both IENA and IENB; no other enable bit, no polarity or input-enable bit, no other port, no row and no global changes |
| GpioTable.EnablePinInterrupt | targets/TARGET_Analog_Devices/TARGET_ADUCM302X/TARGET_ADUCM3029/api/gpio_irq_api.c:77-89 | the pin's bit is set in the chosen group's enable register; the other group's register is untouched, and nothing else changes |
| GpioTable.InputEnable | targets/TARGET_Analog_Devices/TARGET_ADUCM302X/TARGET_ADUCM3029/api/gpio_irq_api.c:124 | the pin's input-enable bit is set, other input-enable bits and every other register and field are kept |
| GpioIrq.IrqInit | targets/TARGET_Analog_Devices/TARGET_ADUCM302X/TARGET_ADUCM3029/api/gpio_irq_api.c:100-134 | returns -1 exactly for `NC` or id 0, with state and object unchanged; otherwise returns 0 and does the following. The row becomes `{id, IRQ_NONE, 0}` and no other row changes. The pin is disarmed in IENA and IENB and made an input. The driver is initialised once, counting one `adi_gpio_Init` only if it was not yet initialised. A non-null handler replaces the stored one; a null one keeps it. The object records id and pin |
| GpioIrq.IrqEnable | targets/TARGET_Analog_Devices/TARGET_ADUCM302X/TARGET_ADUCM3029/api/gpio_irq_api.c:194-218 | with `IRQ_NONE` nothing changes. A rising edge sets the pin's IENA bit and registers the group-A callback, leaving IENB alone. A falling edge does the mirror image on IENB and group B. In both cases the row becomes enabled, and nothing else changes except the pin's bit |
| GpioIrq.IrqDisable | targets/TARGET_Analog_Devices/TARGET_ADUCM302X/TARGET_ADUCM3029/api/gpio_irq_api.c:225-241 | with `IRQ_NONE` nothing changes; otherwise the pin is disarmed in both groups whatever its edge, the row is marked disabled with its id and event kept, and no other row, register bit or global changes |
| GpioIrq.ApplyEvent | targets/TARGET_Analog_Devices/TARGET_ADUCM302X/TARGET_ADUCM3029/api/gpio_irq_api.c:169-180 | the pin's polarity bit is set exactly for `IRQ_RISE`, other polarity bits, enable registers and other rows are kept, and the row's event is replaced |
| GpioIrq.IrqSet | targets/TARGET_Analog_Devices/TARGET_ADUCM302X/TARGET_ADUCM3029/api/gpio_irq_api.c:160-187 | `IRQ_NONE` changes nothing. Otherwise the polarity bit is set exactly for a rising edge, and the row becomes `{old id, event, enable != 0}`. The result is enable, or disable, applied after the polarity and event update, according to `enable` |
| GpioIrq.IrqFree | targets/TARGET_Analog_Devices/TARGET_ADUCM302X/TARGET_ADUCM3029/api/gpio_irq_api.c:140-152 | the row becomes `{0, IRQ_NONE, 0}` whatever it held, no other row or global changes, and the pin is disarmed in both groups unless its event was `IRQ_NONE`, in which case no register changes |
| GpioLaws.InitFreeRestoresTable | targets/TARGET_Analog_Devices/TARGET_ADUCM302X/TARGET_ADUCM3029/api/gpio_irq_api.c:127-129 | init on an empty row followed by free gives back exactly the original table |
| GpioLaws.FreeIdempotent | targets/TARGET_Analog_Devices/TARGET_ADUCM302X/TARGET_ADUCM3029/api/gpio_irq_api.c:140-152 | freeing a channel a second time changes nothing |
| GpioLaws.DisableIdempotent | targets/TARGET_Analog_Devices/TARGET_ADUCM302X/TARGET_ADUCM3029/api/gpio_irq_api.c:225-241 | a second consecutive disable changes nothing, registers included |
| GpioLaws.EnableThenDisableDisarms | targets/TARGET_Analog_Devices/TARGET_ADUCM302X/TARGET_ADUCM3029/api/gpio_irq_api.c:194-241 | enable then disable of a configured channel leaves the pin armed in neither group, the row disabled and its event kept |
| GpioLaws.DriverInitialisedOnce | targets/TARGET_Analog_Devices/TARGET_ADUCM302X/TARGET_ADUCM3029/api/gpio_irq_api.c:109-114 | two successful inits from an uninitialised driver call `adi_gpio_Init` once |
| GpioLaws.LastHandlerWins | targets/TARGET_Analog_Devices/TARGET_ADUCM302X/TARGET_ADUCM3029/api/gpio_irq_api.c:116-118 | inits with handler h1, then h2, then NULL leave h2 as the one handler |
| GpioLaws.RisingScenario | targets/TARGET_Analog_Devices/TARGET_ADUCM302X/TARGET_ADUCM3029/api/gpio_irq_api.c:160-218 | from reset, init of port 0 pin 3 with id 7 then set(RISE, 1) sets polarity bit 3 and IENA bit 3 but not IENB bit 3. The row is `{7, IRQ_RISE, 1}`, and only the group-A callback is registered |
| GpioLaws.FallThenRiseArmsBothGroups | targets/TARGET_Analog_Devices/TARGET_ADUCM302X/TARGET_ADUCM3029/api/gpio_irq_api.c:170-218 | set(FALL, 1) then set(RISE, 1) leaves the pin enabled in both IENA and IENB with rising polarity |
| GpioInvariant.BootConsistent | targets/TARGET_Analog_Devices/TARGET_ADUCM302X/TARGET_ADUCM3029/api/gpio_irq_api.c:21-22 | the zeroed reset state satisfies the consistency invariant. The invariant says: a pin armed in a group belongs to an enabled row; an enabled row has an edge and is armed in that edge's group; and a group with an armed pin has its callback registered |
| GpioInvariant.InitPreserves | targets/TARGET_Analog_Devices/TARGET_ADUCM302X/TARGET_ADUCM3029/api/gpio_irq_api.c:100-134 | `gpio_irq_init` preserves the consistency invariant |
| GpioInvariant.EnablePreserves | targets/TARGET_Analog_Devices/TARGET_ADUCM302X/TARGET_ADUCM3029/api/gpio_irq_api.c:194-218 | `gpio_irq_enable` preserves the consistency invariant |
| GpioInvariant.DisablePreserves | targets/TARGET_Analog_Devices/TARGET_ADUCM302X/TARGET_ADUCM3029/api/gpio_irq_api.c:225-241 | `gpio_irq_disable` preserves the consistency invariant |
| GpioInvariant.FreePreserves | targets/TARGET_Analog_Devices/TARGET_ADUCM302X/TARGET_ADUCM3029/api/gpio_irq_api.c:140-152 | `gpio_irq_free` preserves the consistency invariant |
| GpioInvariant.SetPreserves | targets/TARGET_Analog_Devices/TARGET_ADUCM302X/TARGET_ADUCM3029/api/gpio_irq_api.c:160-187 | `gpio_irq_set` preserves the consistency invariant |
| GpioDispatch.FiredBelowSound | targets/TARGET_Analog_Devices/TARGET_ADUCM302X/TARGET_ADUCM3029/api/gpio_irq_api.c:33-42 | every line in the reference list of fired lines below `index` is below `index` and has its mask bit set |
| GpioDispatch.FiredBelowComplete | targets/TARGET_Analog_Devices/TARGET_ADUCM302X/TARGET_ADUCM3029/api/gpio_irq_api.c:33-42 | every set mask bit below `index` is in that list |
| GpioDispatch.FiredBelowAscending | targets/TARGET_Analog_Devices/TARGET_ADUCM302X/TARGET_ADUCM3029/api/gpio_irq_api.c:33-42 | that list is strictly ascending |
| GpioDispatch.CallsBelowNoHandler | targets/TARGET_Analog_Devices/TARGET_ADUCM302X/TARGET_ADUCM3029/api/gpio_irq_api.c:38 | with a null handler no line produces a call |
| GpioDispatch.CallsBelowMatchFired | targets/TARGET_Analog_Devices/TARGET_ADUCM302X/TARGET_ADUCM3029/api/gpio_irq_api.c:33-42 | with a handler, the calls for the lines below `index` correspond one for one, in order, to the fired lines below `index` |
| GpioDispatch.DispatchCallsFiredLines | targets/TARGET_Analog_Devices/TARGET_ADUCM302X/TARGET_ADUCM3029/api/gpio_irq_api.c:27-44 | the demultiplexer's output. With a null handler it is empty. Otherwise it has one call per set bit of the mask and no other, in ascending bit order, and call `k` passes the `k`-th fired pin's row id and event |
| GpioDispatch.CallsSettle | targets/TARGET_Analog_Devices/TARGET_ADUCM302X/TARGET_ADUCM3029/api/gpio_irq_api.c:33 | once the shifted mask is zero, the remaining lines add no call, so stopping the loop there loses nothing |
| GpioDispatch.LoopStep | targets/TARGET_Analog_Devices/TARGET_ADUCM302X/TARGET_ADUCM3029/api/gpio_irq_api.c:35-42 | with `pin` the mask shifted right by `index`, `pin & 0x01` tests line `index`, `pin >> 1` is the mask shifted by `index + 1`, and the calls grow by that line's call exactly when it fired and a handler is set |
| GpioDispatch.GpioIrqCallback | targets/TARGET_Analog_Devices/TARGET_ADUCM302X/TARGET_ADUCM3029/api/gpio_irq_api.c:27-44 | the shift-and-test loop terminates, only reads rows at indices below 16, and produces exactly the reference call sequence above |
| GpioDispatch.TwoPinBurst | targets/TARGET_Analog_Devices/TARGET_ADUCM302X/TARGET_ADUCM3029/api/gpio_irq_api.c:27-44 | mask `0x0005` yields two calls, for pin 0 and then pin 2 |
| GpioDispatch.ArmedPinsReportEdges | targets/TARGET_Analog_Devices/TARGET_ADUCM302X/TARGET_ADUCM3029/api/gpio_irq_api.c:38-39 | when the state is consistent and only armed pins fire, every handler call carries `IRQ_RISE` or `IRQ_FALL`, never `IRQ_NONE` |
| LpTicker.Rtc1Callback | targets/TARGET_Analog_Devices/TARGET_ADUCM4X50/TARGET_ADUCM4050/TARGET_ADZS_U4050LF_EZKIT/api/lp_ticker_api.c:49-55 | the handler runs exactly once if the alarm bit is set in `nEvent` and not at all otherwise; the alarm registers are untouched |
| LpTicker.CallbackFollowsLowBit | targets/TARGET_Analog_Devices/TARGET_ADUCM4X50/TARGET_ADUCM4050/TARGET_ADZS_U4050LF_EZKIT/api/lp_ticker_api.c:52-54 | the number of handler calls is the event mask's lowest bit, whatever other event bits are set |
| LpTicker.Classify | targets/TARGET_Analog_Devices/TARGET_ADUCM4X50/TARGET_ADUCM4050/TARGET_ADZS_U4050LF_EZKIT/api/lp_ticker_api.c:137-150 | exactly one regime per pair. Expired exactly when `set_time <= rtcCount`. Imminent exactly when it is above `rtcCount` and at most `rtcCount + 50` mod 2^32. Future exactly when it is above both |
| LpTicker.ClassifyByDistance | targets/TARGET_Analog_Devices/TARGET_ADUCM4X50/TARGET_ADUCM4050/TARGET_ADZS_U4050LF_EZKIT/api/lp_ticker_api.c:137-140 | when `rtcCount + 50` does not wrap, the regime is decided by the distance `set_time - rtcCount`: at most 0, 1 to 50, or more |
| LpTicker.ImminentWithinWindow | targets/TARGET_Analog_Devices/TARGET_ADUCM4X50/TARGET_ADUCM4050/TARGET_ADZS_U4050LF_EZKIT/api/lp_ticker_api.c:140 | an imminent target is between 1 and 50 ticks ahead |
| LpTicker.NearTopNeverImminent | targets/TARGET_Analog_Devices/TARGET_ADUCM4X50/TARGET_ADUCM4050/TARGET_ADZS_U4050LF_EZKIT/api/lp_ticker_api.c:140 | when `rtcCount + 50` wraps, no target is imminent and every target after the count is future |
| LpTicker.Arm | targets/TARGET_Analog_Devices/TARGET_ADUCM4X50/TARGET_ADUCM4050/TARGET_ADZS_U4050LF_EZKIT/api/lp_ticker_api.c:155-157 | the alarm value becomes `set_time`, alarm and alarm interrupt are enabled, and the handler is not called |
| LpTicker.Schedule | targets/TARGET_Analog_Devices/TARGET_ADUCM4X50/TARGET_ADUCM4050/TARGET_ADZS_U4050LF_EZKIT/api/lp_ticker_api.c:137-157 | expired and imminent targets call the handler exactly once and leave alarm value and both enables untouched; a future target arms the alarm for `set_time` with both enables on and no call |
| LpTicker.ScheduleCallsOrArms | targets/TARGET_Analog_Devices/TARGET_ADUCM4X50/TARGET_ADUCM4050/TARGET_ADZS_U4050LF_EZKIT/api/lp_ticker_api.c:137-157 | the handler is called during the set exactly when `set_time <= rtcCount` or `set_time <= rtcCount + 50` mod 2^32. When it is not called, the alarm is armed for `set_time`; when it is, the alarm registers keep their old values |
| LpTicker.SetInterrupt | targets/TARGET_Analog_Devices/TARGET_ADUCM4X50/TARGET_ADUCM4050/TARGET_ADZS_U4050LF_EZKIT/api/lp_ticker_api.c:124-160 | the regime is the one `Classify` gives and the final state is `Schedule`'s. Only the imminent regime polls the count. It stops at the first count at or above `set_time`, and every earlier count was below it |
| LpTicker.DisableInterrupt | targets/TARGET_Analog_Devices/TARGET_ADUCM4X50/TARGET_ADUCM4050/TARGET_ADZS_U4050LF_EZKIT/api/lp_ticker_api.c:165-170 | alarm disabled and alarm interrupt masked; alarm value and handler calls kept |
| LpTicker.DisableIdempotent | targets/TARGET_Analog_Devices/TARGET_ADUCM4X50/TARGET_ADUCM4050/TARGET_ADZS_U4050LF_EZKIT/api/lp_ticker_api.c:165-170 | disabling twice equals disabling once |
| LpTicker.ArmThenDisable | targets/TARGET_Analog_Devices/TARGET_ADUCM4X50/TARGET_ADUCM4050/TARGET_ADZS_U4050LF_EZKIT/api/lp_ticker_api.c:152-170 | a future set followed by disable leaves the alarm disabled and masked, the value `set_time`, and no handler call |
| LpTicker.ClearInterrupt | targets/TARGET_Analog_Devices/TARGET_ADUCM4X50/TARGET_ADUCM4050/TARGET_ADZS_U4050LF_EZKIT/api/lp_ticker_api.c:175-178 | no state changes |

## Left out

- `trng_api.c`: a blocking poll on the random-number hardware, with no state of its own.
- `lp_ticker_init` and `lp_ticker_read`: clock, prescaler and trim set-up, and the tick to microsecond conversion. They are hardware plumbing and floating point.
- The microsecond to tick conversion at the top of `lp_ticker_set_interrupt` is floating point. `set_time` is an input already in ticks.
- The `cnt0`/`cnt1` reads in `lp_ticker_set_interrupt` are never used, so they are not modelled.
- Vendor driver internals (`adi_gpio_*`, `adi_rtc_*`, `adi_pwr_*`) are updates of abstract fields. `adi_gpio_GetGroupInterruptPins` and `adi_gpio_GetGroupInterruptPolarity` take a pin mask whose effect is not visible. They are assumed to return the whole register.
- The value of `ADI_RTC_ALARM_INT` comes from the vendor RTC header, which is not part of this model. It is taken to be bit 0.
- Only whether the demultiplexer is registered for group A or B is kept. The callback parameter `obj` passed to `adi_gpio_RegisterCallback` is not kept.
- The user handlers `irq_handler` (`gpio_irq_api.c:39`) and `lp_ticker_irq_handler` (`lp_ticker_api.c:53`, reached from lines 138 and 148) are code outside this model. Only the fact of each call is recorded, with its arguments; whatever a handler does to the channel table or the RTC alarm is not modelled. `LpTicker.Schedule` and `LpTicker.ScheduleCallsOrArms` state that the alarm is untouched after a handler call, and `GpioDispatch.DispatchCallsFiredLines` reads every row as it was on entry; both hold only for handlers that leave that state alone.
- Interrupt preemption and concurrency: every operation is atomic. This includes interrupts still in flight after a disable.
- Pin-name decoding (`pin >> GPIO_PORT_SHIFT`, `pin & 0xFF`) is not modelled. A channel is a decoded position.
- GpioIrq.IrqInit: requires the decoded position to lie inside the 3 x 16 table, because the source does not bounds-check it and indexes out of range otherwise.
- GpioDispatch.GpioIrqCallback: requires the port passed as the callback's `Event` to be below 3, because the source indexes the table with it unchecked.
- LpTicker.SetInterrupt: requires that, in the imminent regime, one of the supplied counts reaches `set_time`. The busy-wait ends only when the hardware counter advances, so its termination is assumed rather than proved.
- `gpio_initialized` is shared with the GPIO pin driver. Only its use here is modelled: read, and set on first init.
