/** One CPU's performance counter as core_pmu.c programs it, and the books of an
    overflow-sampling run: misses, NMIs, and what is lost between a wrap and its NMI.

    Hardware: the counter advances modulo 2^48 on a user-mode miss while its selector
    and the global control enable it; a wrap sets the overflow status and, when the
    selector asks for it, leaves one NMI pending. Nothing else causes an NMI. */
module OverflowCpu {
  import opened Kernel

  /** predefined_event_map: unit mask and event select. */
  const EVENT_MAP: seq<int> := [0x003c, 0x00c0, 0x013c, 0x4f2e, 0x412e, 0x00c4, 0x00c5]
  const LLC_MISSES: int := 4

  type Event = e: int | 0 <= e < 7

  /** The event selector word: code, and the USR, INT and EN bits. */
  datatype EventSel = EventSel(code: int, usr: bool, intr: bool, en: bool)

  const NO_EVENT := EventSel(0, false, false, false)

  function Selector(event: Event): EventSel {
    EventSel(EVENT_MAP[event], true, true, true)
  }

  /** PMC0, PERFEVTSEL0, bit 0 of GLOBAL_CTRL and of GLOBAL_STATUS, the pending NMI, and
      PERCPU_NMI_TIMES. History: the value PMC0 was last loaded with, the misses counted
      since, and every NMI ever handled. */
  datatype Cpu = Cpu(
    pmc: int, sel: EventSel, ctrl: bool, overflow: bool, pending: bool, nmiTimes: nat,
    loaded: int, since: nat, handled: nat)

  predicate Counting(c: Cpu) {
    c.sel.en && c.sel.usr && c.ctrl
  }

  /** A user-mode miss. */
  function Miss(c: Cpu): Cpu {
    if !Counting(c) then c
    else if c.pmc + 1 == WIDTH then
      c.(pmc := 0, overflow := true, pending := c.pending || c.sel.intr, since := c.since + 1)
    else c.(pmc := c.pmc + 1, since := c.since + 1)
  }

  function WritePmc(c: Cpu, v: int): Cpu {
    c.(pmc := v, loaded := v, since := 0)
  }

  /** Ones written to OVF_CTRL clear status bits; the code writes zero. */
  function WriteOvfCtrl(c: Cpu, bit0: bool): Cpu {
    c.(overflow := c.overflow && !bit0)
  }

  function ClearMsrs(c: Cpu): Cpu {
    WriteOvfCtrl(WritePmc(c, 0).(sel := NO_EVENT, ctrl := false), false)
  }

  /** __core_pmu_enable_predefined_event: the global period masked to 48 bits. */
  function EnablePredefinedEvent(c: Cpu, initValue: int, event: Event): Cpu {
    WritePmc(c, Wrap48(initValue)).(sel := Selector(event))
  }

  /** core_pmu_nmi_handler. */
  function Handler(c: Cpu, initValue: int, event: Event): Cpu {
    if !c.overflow then c
    else
      var restarted := EnablePredefinedEvent(ClearMsrs(c), initValue, event).(ctrl := true);
      restarted.(nmiTimes := c.nmiTimes + 1, handled := c.handled + 1)
  }

  /** Delivery of the pending NMI, if there is one. */
  function Nmi(c: Cpu, initValue: int, event: Event): Cpu {
    if c.pending then Handler(c.(pending := false), initValue, event) else c
  }

  /** What holds of every CPU at all times. */
  predicate CpuOk(c: Cpu) {
    && 0 <= c.loaded < 0x1_0000_0000_0000
    && c.pmc == Wrap48(c.loaded + c.since)
    && (c.pending ==> c.overflow)
  }

  /** A selector that counts also asks for an NMI. */
  predicate Signals(c: Cpu) {
    c.sel.en ==> c.sel.intr
  }

  /** No wrap has gone unnoticed: with no NMI due, the load has not run out. */
  predicate Timely(c: Cpu) {
    Signals(c) && (!c.pending ==> c.since < 0x1_0000_0000_0000 - c.loaded)
  }

  predicate Loaded(c: Cpu, initValue: int) {
    CpuOk(c) && Timely(c) && c.loaded == Wrap48(initValue)
  }

  predicate Selected(c: Cpu, initValue: int, event: Event) {
    Loaded(c, initValue) && c.sel == Selector(event)
  }

  /** Sampling with the given period is in force. */
  predicate Armed(c: Cpu, initValue: int, event: Event) {
    Selected(c, initValue, event) && c.ctrl
  }

  /** A miss is counted exactly while the selector's EN and USR bits and the global control
      are set; whether it asks for an NMI does not matter. */
  lemma CountsIff(c: Cpu)
    ensures Miss(c).since == (if c.sel.en && c.sel.usr && c.ctrl then c.since + 1 else c.since)
  {
  }

  /** An armed CPU counts: its selector is the event's code with the USR, INT and EN bits
      set, and the next miss moves its counter. */
  lemma ArmedCounts(c: Cpu, initValue: int, event: Event)
    requires Armed(c, initValue, event)
    ensures c.sel.usr && c.sel.intr && c.sel.en && c.ctrl
    ensures event == LLC_MISSES ==> c.sel == EventSel(0x412e, true, true, true)
    ensures Miss(c).since == c.since + 1 && Miss(c).pmc == (c.pmc + 1) % 0x1_0000_0000_0000
  {
  }

  /** Counting is off at the global control, the last word on it. */
  predicate Stopped(c: Cpu) {
    !c.ctrl
  }

  /** A miss or an NMI at any moment undoes none of this. */
  lemma MissKeeps(c: Cpu, initValue: int, event: Event)
    requires CpuOk(c)
    ensures CpuOk(Miss(c))
    ensures Loaded(c, initValue) ==> Loaded(Miss(c), initValue)
    ensures Selected(c, initValue, event) ==> Selected(Miss(c), initValue, event)
    ensures Armed(c, initValue, event) ==> Armed(Miss(c), initValue, event)
    ensures Signals(c) ==> Signals(Miss(c))
    ensures Stopped(c) ==> Miss(c) == c
  {
  }

  lemma NmiKeeps(c: Cpu, initValue: int, event: Event)
    requires CpuOk(c)
    ensures CpuOk(Nmi(c, initValue, event))
    ensures Signals(c) ==> Signals(Nmi(c, initValue, event))
    ensures Loaded(c, initValue) ==> Loaded(Nmi(c, initValue, event), initValue)
    ensures Selected(c, initValue, event) ==> Selected(Nmi(c, initValue, event), initValue, event)
    ensures Armed(c, initValue, event) ==> Armed(Nmi(c, initValue, event), initValue, event)
    ensures c.pending ==> Armed(Nmi(c, initValue, event), initValue, event)
    ensures c.pending ==> !Nmi(c, initValue, event).pending
  {
  }

  // ---------- The books of a sampling run ----------

  datatype Action = UserMiss | DeliverNmi

  /** Misses since the books were opened, those thrown away because they came between a
      wrap and its NMI, and the part of a counted period that no miss stands behind. */
  datatype Books = Books(cpu: Cpu, misses: nat, dropped: nat, credited: nat)

  function Open(c: Cpu): Books {
    Books(c, 0, 0, 0)
  }

  /** Misses past the wrap, and misses still wanting before it. */
  function Late(c: Cpu, period: int): nat {
    if c.since > period then c.since - period else 0
  }

  function Short(c: Cpu, period: int): nat {
    if c.since < period then period - c.since else 0
  }

  function Do(b: Books, a: Action, initValue: int, event: Event): Books {
    match a
    case UserMiss =>
      if Counting(b.cpu) then Books(Miss(b.cpu), b.misses + 1, b.dropped, b.credited) else b
    case DeliverNmi =>
      if b.cpu.pending
      then Books(Nmi(b.cpu, initValue, event), b.misses,
                 b.dropped + Late(b.cpu, Period(initValue)), b.credited + Short(b.cpu, Period(initValue)))
      else b
  }

  function Run(b: Books, actions: seq<Action>, initValue: int, event: Event): Books {
    if actions == [] then b
    else Do(Run(b, actions[..|actions| - 1], initValue, event), actions[|actions| - 1], initValue, event)
  }

  /** The sampling period the preload encodes: 2^48 for a preload of zero. */
  function Period(initValue: int): (n: int)
    ensures 1 <= n <= 0x1_0000_0000_0000
  {
    0x1_0000_0000_0000 - Wrap48(initValue)
  }

  /** An NMI is pending although the period it will be counted for is not over. */
  predicate Stale(c: Cpu, initValue: int) {
    c.pending && c.since < Period(initValue)
  }

  /** Misses, those behind the load the books were opened on included, against periods
      counted, the counter, and what was dropped. Only a stale NMI at the start can have
      been credited with more than was missed. */
  predicate Balanced(start: Cpu, b: Books, initValue: int, event: Event) {
    var n := Period(initValue);
    var nmis := b.cpu.nmiTimes - start.nmiTimes;
    && Armed(b.cpu, initValue, event)
    && nmis >= 0
    && b.misses + start.since + b.credited == n * nmis + b.cpu.since + b.dropped
    && (!Stale(start, initValue) ==> b.credited == 0 && !Stale(b.cpu, initValue))
    && (nmis > 0 ==> !Stale(b.cpu, initValue))
  }

  lemma MissKeepsBalance(start: Cpu, b: Books, initValue: int, event: Event)
    requires Balanced(start, b, initValue, event)
    ensures Balanced(start, Do(b, UserMiss, initValue, event), initValue, event)
  {
    WrapsAtPeriod(b.cpu, initValue);
    MissKeeps(b.cpu, initValue, event);
    hide Period, Armed, Selected, Loaded, CpuOk, Wrap48, Selector;
  }

  /** The first wrap after a load comes after exactly one period. */
  lemma WrapsAtPeriod(c: Cpu, initValue: int)
    requires Loaded(c, initValue)
    ensures c.since < Period(initValue) ==> (c.pmc + 1 == WIDTH <==> c.since + 1 == Period(initValue))
  {
  }

  lemma NmiKeepsBalance(start: Cpu, b: Books, initValue: int, event: Event)
    requires Balanced(start, b, initValue, event)
    ensures Balanced(start, Do(b, DeliverNmi, initValue, event), initValue, event)
  {
    var n := Period(initValue);
    var nmis := b.cpu.nmiTimes - start.nmiTimes;
    NmiKeeps(b.cpu, initValue, event);
    assert n * (nmis + 1) == n * nmis + n;
  }

  lemma {:induction false} RunKeepsBalance(start: Cpu, actions: seq<Action>, initValue: int, event: Event)
    requires Armed(start, initValue, event)
    ensures Balanced(start, Run(Open(start), actions, initValue, event), initValue, event)
  {
    if actions != [] {
      var k := |actions| - 1;
      RunKeepsBalance(start, actions[..k], initValue, event);
      var b := Run(Open(start), actions[..k], initValue, event);
      hide Balanced;
      match actions[k]
      case UserMiss => MissKeepsBalance(start, b, initValue, event);
      case DeliverNmi => NmiKeepsBalance(start, b, initValue, event);
    }
  }

  function MissesIn(actions: seq<Action>): nat {
    if actions == [] then 0
    else MissesIn(actions[..|actions| - 1]) + (if actions[|actions| - 1].UserMiss? then 1 else 0)
  }

  /** No miss goes unseen: the books of an armed CPU have every one of the run. */
  lemma {:induction false} EveryMissIsCounted(start: Cpu, actions: seq<Action>, initValue: int, event: Event)
    requires Armed(start, initValue, event)
    ensures Run(Open(start), actions, initValue, event).misses == MissesIn(actions)
  {
    if actions != [] {
      var k := |actions| - 1;
      EveryMissIsCounted(start, actions[..k], initValue, event);
      RunKeepsBalance(start, actions[..k], initValue, event);
      ArmedCounts(Run(Open(start), actions[..k], initValue, event).cpu, initValue, event);
    }
  }

  /** The books the sampler is meant to keep: every miss is in a counted period, in the
      counter, or was dropped between a wrap and its NMI. */
  predicate Promise(start: Cpu, b: Books, initValue: int) {
    && b.misses + start.since == Period(initValue) * (b.cpu.nmiTimes - start.nmiTimes) + b.cpu.since + b.dropped
    && b.cpu.pmc == Wrap48(Wrap48(initValue) + b.cpu.since)
  }

  ghost predicate KeepsPromise(start: Cpu, initValue: int, event: Event) {
    forall actions :: Promise(start, Run(Open(start), actions, initValue, event), initValue)
  }

  lemma StaleBreaksPromise(start: Cpu, initValue: int, event: Event)
    requires Armed(start, initValue, event) && Stale(start, initValue)
    ensures !Promise(start, Run(Open(start), [DeliverNmi], initValue, event), initValue)
  {
    var one := [DeliverNmi];
    assert one[..0] == [];
    assert Run(Open(start), one, initValue, event) == Do(Open(start), DeliverNmi, initValue, event);
    hide Run;
    NmiKeeps(start, initValue, event);
  }

  /** They are kept on every run of an armed CPU exactly when no NMI was pending too early
      at its start: one that was is counted although its period was never sampled. */
  lemma PromiseKeptIff(start: Cpu, initValue: int, event: Event)
    requires Armed(start, initValue, event)
    ensures KeepsPromise(start, initValue, event) <==> !Stale(start, initValue)
  {
    if Stale(start, initValue) {
      StaleBreaksPromise(start, initValue, event);
    } else {
      forall actions ensures Promise(start, Run(Open(start), actions, initValue, event), initValue) {
        RunKeepsBalance(start, actions, initValue, event);
      }
    }
  }

  /** Every NMI is taken before the next miss is counted. */
  predicate Immediate(b: Books, actions: seq<Action>, initValue: int, event: Event) {
    actions == [] ||
    (var k := |actions| - 1;
     && Immediate(b, actions[..k], initValue, event)
     && (actions[k].UserMiss? ==> !Run(b, actions[..k], initValue, event).cpu.pending))
  }

  lemma {:induction false} ImmediateDropsNothing(start: Cpu, actions: seq<Action>, initValue: int, event: Event)
    requires Armed(start, initValue, event) && !start.pending
    requires Immediate(Open(start), actions, initValue, event)
    ensures var b := Run(Open(start), actions, initValue, event);
            b.dropped == 0 && b.cpu.since <= Period(initValue)
  {
    if actions != [] {
      var k := |actions| - 1;
      ImmediateDropsNothing(start, actions[..k], initValue, event);
      RunKeepsBalance(start, actions[..k], initValue, event);
    }
  }

  /** With immediate delivery the NMI count is the exact quotient of the misses by the
      period and the counter holds the exact remainder. */
  lemma ImmediateIsExact(start: Cpu, actions: seq<Action>, initValue: int, event: Event)
    requires Armed(start, initValue, event) && !start.pending
    requires Immediate(Open(start), actions, initValue, event)
    ensures var b := Run(Open(start), actions, initValue, event);
            !b.cpu.pending ==>
              && b.cpu.nmiTimes - start.nmiTimes == (b.misses + start.since) / Period(initValue)
              && b.cpu.pmc - Wrap48(initValue) == (b.misses + start.since) % Period(initValue)
  {
    RunKeepsBalance(start, actions, initValue, event);
    ImmediateDropsNothing(start, actions, initValue, event);
    var b := Run(Open(start), actions, initValue, event);
    hide Run, Immediate, Armed, Selected;
    if !b.cpu.pending {
      assert b.cpu.pmc == Wrap48(initValue) + b.cpu.since by { NotWrapped(b.cpu, initValue, event); }
      DivModUnique(b.misses + start.since, Period(initValue), b.cpu.nmiTimes - start.nmiTimes, b.cpu.since);
    }
  }

  lemma NotWrapped(c: Cpu, initValue: int, event: Event)
    requires Armed(c, initValue, event) && !c.pending
    ensures c.pmc == Wrap48(initValue) + c.since && c.since < Period(initValue)
  {
  }

  lemma DivModUnique(x: int, n: int, q: int, r: int)
    requires n > 0 && 0 <= r < n && x == n * q + r
    ensures x / n == q && x % n == r
  {
    var d, m := x / n, x % n;
    assert x == n * d + m;
    assert n * (d - q) == r - m;
    assert d - q >= 1 ==> n * (d - q) >= n;
    assert d - q <= -1 ==> n * (d - q) <= -n;
  }

  /** Late NMIs can only lose samples, never invent them. */
  lemma NeverOvercounts(start: Cpu, actions: seq<Action>, initValue: int, event: Event)
    requires Armed(start, initValue, event) && !Stale(start, initValue)
    ensures var b := Run(Open(start), actions, initValue, event);
            Period(initValue) * (b.cpu.nmiTimes - start.nmiTimes) <= b.misses + start.since
  {
    RunKeepsBalance(start, actions, initValue, event);
  }

  lemma {:induction false} StoppedStays(c: Cpu, actions: seq<Action>, initValue: int, event: Event)
    requires Stopped(c) && !c.pending
    ensures Run(Open(c), actions, initValue, event) == Open(c)
  {
    if actions != [] {
      StoppedStays(c, actions[..|actions| - 1], initValue, event);
    }
  }

  ghost predicate StaysStopped(c: Cpu, initValue: int, event: Event) {
    forall actions :: Stopped(Run(Open(c), actions, initValue, event).cpu)
  }

  /** Stopping a CPU's counter lasts exactly when no NMI is pending: a late one finds the
      overflow status still set and starts the counter again. */
  lemma StopLastsIff(c: Cpu, initValue: int, event: Event)
    requires Stopped(c) && CpuOk(c)
    ensures StaysStopped(c, initValue, event) <==> !c.pending
  {
    if c.pending {
      var one := [DeliverNmi];
      assert one[..0] == [];
      assert Run(Open(c), one, initValue, event) == Do(Open(c), DeliverNmi, initValue, event);
    } else {
      forall actions ensures Stopped(Run(Open(c), actions, initValue, event).cpu) {
        StoppedStays(c, actions, initValue, event);
      }
    }
  }
}
