/** The low-power ticker of the ADuCM4050, in the RTC's tick domain: the RTC
    event callback `rtc1_Callback`, the three-way scheduling decision of
    `lp_ticker_set_interrupt`, and `lp_ticker_disable_interrupt` /
    `lp_ticker_clear_interrupt`.

    The RTC alarm registers are abstract fields, and the handler
    `lp_ticker_irq_handler` is observed through a count of its calls. The
    RTC count readings the busy-wait performs are passed in as a sequence,
    since they come from hardware that keeps counting. */
module LpTicker {
  import opened Common

  /** Ticks it takes to set and enable the alarm. */
  const TICKS_TO_ENABLE_ALARM: u32 := 50

  /** Bit position of `ADI_RTC_ALARM_INT` in an RTC event mask. */
  const ALARM_INT_BIT: nat := 0

  /** `ADI_RTC_ALARM_INT`, the event mask with only the alarm bit set. */
  const ALARM_INT: u32 := Pow2(ALARM_INT_BIT)

  /** The RTC alarm state `lp_ticker_set_interrupt` and
      `lp_ticker_disable_interrupt` act on, and the number of times
      `lp_ticker_irq_handler` has run. */
  datatype Ticker = Ticker(alarmValue: u32, alarmEnabled: bool, alarmIntEnabled: bool, irqCalls: nat)

  /** The three ways `lp_ticker_set_interrupt` can treat a target tick. */
  datatype Regime =
    | Expired   // the target is not in the future: call the handler now
    | Imminent  // too close to arm the alarm: busy-wait, then call it
    | Future    // far enough away: arm the RTC alarm

  /** `rtc1_Callback`: the handler runs once if the alarm bit is set in
      `nEvent`, and not otherwise; the alarm registers are not touched. */
  function Rtc1Callback(t: Ticker, nEvent: u32): (r: Ticker)
    ensures r.irqCalls == t.irqCalls + 1 <==> Bit(nEvent, ALARM_INT_BIT)
    ensures r.irqCalls == t.irqCalls <==> !Bit(nEvent, ALARM_INT_BIT)
    ensures r.(irqCalls := 0) == t.(irqCalls := 0)
  {
    if Bit(nEvent, ALARM_INT_BIT) then t.(irqCalls := t.irqCalls + 1) else t
  }

  /** An odd event mask carries the alarm bit and calls the handler, however
      many other event bits come with it; an even one does not. */
  lemma CallbackFollowsLowBit(t: Ticker, nEvent: u32)
    ensures Rtc1Callback(t, nEvent).irqCalls == t.irqCalls + nEvent % 2
  {
  }

  /** The regime test of `lp_ticker_set_interrupt`, with `rtcCount + 50`
      computed in `uint32_t` arithmetic as the C code does. Exactly one
      regime applies to every pair. */
  function Classify(setTime: u32, rtcCount: u32): (r: Regime)
    ensures r == Expired <==> setTime <= rtcCount
    ensures r == Imminent <==> rtcCount < setTime <= AddU32(rtcCount, TICKS_TO_ENABLE_ALARM)
    ensures r == Future <==> rtcCount < setTime && AddU32(rtcCount, TICKS_TO_ENABLE_ALARM) < setTime
  {
    if setTime <= rtcCount then Expired
    else if setTime <= AddU32(rtcCount, TICKS_TO_ENABLE_ALARM) then Imminent
    else Future
  }

  /** Away from the top of the counter the test is the plain distance test:
      expired at distance 0 or less, imminent within 50 ticks, future beyond. */
  lemma ClassifyByDistance(setTime: u32, rtcCount: u32)
    requires rtcCount + TICKS_TO_ENABLE_ALARM < U32_MODULUS
    ensures Classify(setTime, rtcCount) == Expired <==> setTime - rtcCount <= 0
    ensures Classify(setTime, rtcCount) == Imminent <==> 0 < setTime - rtcCount <= TICKS_TO_ENABLE_ALARM
    ensures Classify(setTime, rtcCount) == Future <==> TICKS_TO_ENABLE_ALARM < setTime - rtcCount
  {
  }

  /** An imminent target is always between 1 and 50 ticks ahead. */
  lemma ImminentWithinWindow(setTime: u32, rtcCount: u32)
    requires Classify(setTime, rtcCount) == Imminent
    ensures 0 < setTime - rtcCount <= TICKS_TO_ENABLE_ALARM
  {
  }

  /** Within 50 ticks of the counter's wrap, `rtcCount + 50` wraps to a small
      value, so no target is ever imminent there: a target after the current
      count is armed as a future alarm, even one only a tick away. */
  lemma NearTopNeverImminent(setTime: u32, rtcCount: u32)
    requires rtcCount + TICKS_TO_ENABLE_ALARM >= U32_MODULUS
    ensures Classify(setTime, rtcCount) != Imminent
    ensures rtcCount < setTime ==> Classify(setTime, rtcCount) == Future
  {
  }

  /** Arming the alarm: unmask the RTC's alarm interrupt, load the alarm
      register with the target tick, and switch the alarm on. */
  function Arm(t: Ticker, setTime: u32): (r: Ticker)
    ensures r.alarmValue == setTime && r.alarmEnabled && r.alarmIntEnabled
    ensures r.irqCalls == t.irqCalls
  {
    t.(alarmIntEnabled := true).(alarmValue := setTime).(alarmEnabled := true)
  }

  /** The state `lp_ticker_set_interrupt` leaves. Expired and imminent
      targets call the handler once through `rtc1_Callback` and leave the
      alarm as it was; a future target arms the alarm for `setTime` and does
      not call the handler. */
  function Schedule(t: Ticker, setTime: u32, rtcCount: u32): (r: Ticker)
    ensures Classify(setTime, rtcCount) != Future ==> r == t.(irqCalls := t.irqCalls + 1)
    ensures Classify(setTime, rtcCount) == Future ==>
      && r.alarmValue == setTime && r.alarmEnabled && r.alarmIntEnabled
      && r.irqCalls == t.irqCalls
  {
    match Classify(setTime, rtcCount)
    case Expired => Rtc1Callback(t, ALARM_INT)
    case Imminent => Rtc1Callback(t, ALARM_INT)
    case Future => Arm(t, setTime)
  }

  /** Setting an interrupt either runs the handler during the call or arms
      the alarm, never both and never neither: the handler runs exactly when
      the target is at most `rtcCount + 50` (in `uint32_t` arithmetic), and
      then the alarm registers keep whatever they held. */
  lemma ScheduleCallsOrArms(t: Ticker, setTime: u32, rtcCount: u32)
    ensures var r := Schedule(t, setTime, rtcCount);
            && (r.irqCalls == t.irqCalls + 1 <==> setTime <= rtcCount || setTime <= AddU32(rtcCount, TICKS_TO_ENABLE_ALARM))
            && (r.irqCalls == t.irqCalls ==> r.alarmEnabled && r.alarmIntEnabled && r.alarmValue == setTime)
            && (r.irqCalls != t.irqCalls ==> r.(irqCalls := 0) == t.(irqCalls := 0))
  {
  }

  /** One of the `counts` read is at least `setTime`. */
  predicate Reaches(counts: seq<u32>, setTime: u32) {
    exists i :: 0 <= i < |counts| && counts[i] >= setTime
  }

  /** `lp_ticker_set_interrupt`, for a target already converted to ticks and
      the RTC count read on entry. In the imminent regime the source polls
      the count until it reaches the target; `counts` are the values those
      polls return, and the poll loop is only entered when one of them
      reaches the target. `used` is the number of polls made. */
  method SetInterrupt(t: Ticker, setTime: u32, rtcCount: u32, counts: seq<u32>)
    returns (r: Ticker, regime: Regime, used: nat)
    requires Classify(setTime, rtcCount) == Imminent ==> Reaches(counts, setTime)
    ensures regime == Classify(setTime, rtcCount)
    ensures r == Schedule(t, setTime, rtcCount)
    ensures regime != Imminent ==> used == 0
    ensures regime == Imminent ==>
      && 0 < used <= |counts|
      && counts[used - 1] >= setTime
      && forall i :: 0 <= i < used - 1 ==> counts[i] < setTime
  {
    regime := Classify(setTime, rtcCount);
    used := 0;
    if setTime <= rtcCount {
      r := Rtc1Callback(t, ALARM_INT);
    } else if setTime <= AddU32(rtcCount, TICKS_TO_ENABLE_ALARM) {
      // Poll the RTC count until a reading reaches `setTime`.
      var count := counts[0];
      used := 1;
      while count < setTime
        invariant 0 < used <= |counts|
        invariant count == counts[used - 1]
        invariant forall i :: 0 <= i < used - 1 ==> counts[i] < setTime
        invariant exists i :: used - 1 <= i < |counts| && counts[i] >= setTime
        decreases |counts| - used
      {
        count := counts[used];
        used := used + 1;
      }
      r := Rtc1Callback(t, ALARM_INT);
    } else {
      r := Arm(t, setTime);
    }
  }

  /** `lp_ticker_disable_interrupt`: switch the alarm off, then mask the
      RTC's alarm interrupt. The alarm register keeps its value. */
  function DisableInterrupt(t: Ticker): (r: Ticker)
    ensures !r.alarmEnabled && !r.alarmIntEnabled
    ensures r.alarmValue == t.alarmValue && r.irqCalls == t.irqCalls
  {
    t.(alarmEnabled := false).(alarmIntEnabled := false)
  }

  /** Disabling twice is disabling once. */
  lemma DisableIdempotent(t: Ticker)
    ensures DisableInterrupt(DisableInterrupt(t)) == DisableInterrupt(t)
  {
  }

  /** An alarm armed for a future target and then disabled is neither
      enabled nor unmasked, and the handler was never called. */
  lemma ArmThenDisable(t: Ticker, setTime: u32, rtcCount: u32)
    requires Classify(setTime, rtcCount) == Future
    ensures var r := DisableInterrupt(Schedule(t, setTime, rtcCount));
            && !r.alarmEnabled && !r.alarmIntEnabled
            && r.alarmValue == setTime
            && r.irqCalls == t.irqCalls
  {
  }

  /** `lp_ticker_clear_interrupt`: the RTC driver clears the interrupt
      itself, so this changes nothing. */
  function ClearInterrupt(t: Ticker): (r: Ticker)
    ensures r == t
  {
    t
  }
}
