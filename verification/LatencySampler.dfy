/** The latency injection of emulate_nvm.c on the home-agent box of uncore_hswep.c, as a
    transition system. Every register access of the start sequence and of the timer
    handler is one step; read requests may arrive between any two of them.

    Hardware: the counter advances modulo 2^48, only while the box is not frozen and the
    selector has its enable bit. Writing the reset bits of the box control clears the
    selector and the counter, and the bits read back as zero. */
module LatencySampler {
  import opened Kernel
  import opened CounterAccess
  import opened Totals

  /** The split access of CounterAccess at the home agent's width. */
  function ReadBack(low: int, high: int): int {
    Wrap48(high * 0x1_0000_0000 + low)
  }

  /** The box control word: its two self-clearing reset bits, bit 8 that freezes every
      counter of the box, and the remaining bits. */
  datatype BoxCtl = BoxCtl(resetCtrl: bool, resetCtrs: bool, freeze: bool, rest: nat)

  /** HSWEP_PCI_BOX_CTL_INIT and an all-zero word, free or frozen. */
  const INIT := BoxCtl(true, true, false, 0)
  const FREE := BoxCtl(false, false, false, 0)
  const FROZEN := BoxCtl(false, false, true, 0)

  /** The event selector word: bit 22, and the rest of the event code. */
  datatype Selector = Selector(enabled: bool, code: nat)

  /** Box control, the overflow flags of the box status, the event selector, and the
      counter's two dwords. */
  datatype Regs = Regs(ctl: BoxCtl, status: set<nat>, sel: Selector, lo: int, hi: int)

  predicate RegsOk(r: Regs) {
    0 <= r.lo < 0x1_0000_0000 && 0 <= r.hi < 0x1_0000
  }

  function Count(r: Regs): int {
    r.hi * 0x1_0000_0000 + r.lo
  }

  predicate Counting(r: Regs) {
    !r.ctl.freeze && r.sel.enabled
  }

  function SetCount(r: Regs, c: int): Regs {
    r.(lo := c % 0x1_0000_0000, hi := c / 0x1_0000_0000)
  }

  function Events(r: Regs, n: nat): Regs {
    if Counting(r) then SetCount(r, Wrap48(Count(r) + n)) else r
  }

  function WriteCtl(r: Regs, v: BoxCtl): Regs {
    var r1 := r.(ctl := v.(resetCtrl := false, resetCtrs := false));
    var r2 := if v.resetCtrl then r1.(sel := Selector(false, 0)) else r1;
    if v.resetCtrs then r2.(lo := 0, hi := 0) else r2
  }

  /** Write one to clear. */
  function WriteStatus(r: Regs, bits: set<nat>): Regs {
    r.(status := r.status - bits)
  }

  /** Where the polling CPU is, with the local variables it holds there. The first
      seven belong to start_emulate_latency, the rest to emulate_nvm_hrtimer. */
  datatype Phase =
    | ResetBox | ClearOverflow | StartRead | StartFreeze(config: BoxCtl) | SelectEvent
    | StartReread | StartUnfreeze(config: BoxCtl)
    | Waiting | Freeze(config: BoxCtl) | ReadLow | ReadHigh(low: int) | Charge(counts: int)
    | ZeroLow | ZeroHigh | Reread | Unfreeze(config: BoxCtl) | CountJiffy

  /** `counted`, `periods` and `period` are history: every event the counter has seen
      since the box was reset, split at the samples. */
  datatype Sys = Sys(
    regs: Regs, phase: Phase,
    procCounts: int, jiffies: nat,
    charged: seq<int>, delays: seq<int>, waits: seq<int>,
    counted: nat, periods: seq<int>, period: nat)

  /** The event's selector word and the extra latency per read. */
  datatype Config = Config(enable: Selector, delta: nat)

  datatype Action = Arrive(n: nat) | Advance

  function Initial(regs: Regs): Sys {
    Sys(regs, ResetBox, 0, 0, [], [], [], 0, [], 0)
  }

  /** counts_to_delay_ns, a 64-bit product. */
  function DelayNs(counts: int, delta: nat): int {
    Wrap64(counts * delta)
  }

  /** One access, or one local computation, of the polling CPU. */
  function Step(cfg: Config, s: Sys): Sys {
    match s.phase
    case ResetBox =>
      s.(regs := WriteCtl(s.regs, INIT), phase := ClearOverflow, counted := 0, period := 0)
    case ClearOverflow => s.(regs := WriteStatus(s.regs, {0, 1, 2, 3}), phase := StartRead)
    case StartRead => s.(phase := StartFreeze(s.regs.ctl))
    case StartFreeze(config) => s.(regs := WriteCtl(s.regs, config.(freeze := true)), phase := SelectEvent)
    case SelectEvent => s.(regs := s.regs.(sel := cfg.enable), phase := StartReread)
    case StartReread => s.(phase := StartUnfreeze(s.regs.ctl))
    case StartUnfreeze(config) => s.(regs := WriteCtl(s.regs, config.(freeze := false)), phase := Waiting)
    case Waiting => s.(phase := Freeze(s.regs.ctl))
    case Freeze(config) => s.(regs := WriteCtl(s.regs, config.(freeze := true)), phase := ReadLow)
    case ReadLow => s.(phase := ReadHigh(s.regs.lo))
    case ReadHigh(low) => s.(phase := Charge(ReadBack(low, s.regs.hi)))
    case Charge(counts) =>
      var delay := DelayNs(counts, cfg.delta);
      s.(phase := ZeroLow, procCounts := counts,
         charged := s.charged + [counts], delays := s.delays + [delay], waits := s.waits + [delay / 1000],
         periods := s.periods + [s.period], period := 0)
    case ZeroLow => s.(regs := s.regs.(lo := 0), phase := ZeroHigh)
    case ZeroHigh => s.(regs := s.regs.(hi := 0), phase := Reread)
    case Reread => s.(phase := Unfreeze(s.regs.ctl))
    case Unfreeze(config) => s.(regs := WriteCtl(s.regs, config.(freeze := false)), phase := CountJiffy)
    case CountJiffy => s.(phase := Waiting, jiffies := s.jiffies + 1)
  }

  function Do(cfg: Config, s: Sys, a: Action): Sys {
    match a
    case Advance => Step(cfg, s)
    case Arrive(n) =>
      if Counting(s.regs)
      then s.(regs := Events(s.regs, n), counted := s.counted + n, period := s.period + n)
      else s
  }

  function Run(cfg: Config, s: Sys, actions: seq<Action>): Sys {
    if actions == [] then s
    else Do(cfg, Run(cfg, s, actions[..|actions| - 1]), actions[|actions| - 1])
  }

  lemma RunSnoc(cfg: Config, s: Sys, actions: seq<Action>, a: Action)
    ensures Run(cfg, s, actions + [a]) == Do(cfg, Run(cfg, s, actions), a)
  {
    assert (actions + [a])[..|actions|] == actions;
  }

  // ---------- The invariant ----------

  /** Each sample is its period's events, modulo the counter's width. */
  predicate Accounted(s: Sys) {
    && s.counted == Sum(s.periods) + s.period
    && |s.charged| == |s.periods|
    && forall i :: 0 <= i < |s.periods| ==> 0 <= s.periods[i] && s.charged[i] == Wrap48(s.periods[i])
  }

  predicate Delayed(cfg: Config, s: Sys) {
    && |s.charged| == |s.delays| == |s.waits|
    && forall i :: 0 <= i < |s.charged| ==>
        && s.delays[i] == DelayNs(s.charged[i], cfg.delta)
        && s.waits[i] == s.delays[i] / 1000
  }

  /** What the registers hold at each point. In particular nothing is counted from the
      write that freezes the box until the one that releases it. */
  predicate AtPhase(cfg: Config, s: Sys) {
    var r := s.regs;
    match s.phase
    case ResetBox => s.charged == []
    case ClearOverflow => Still(r, FREE, Selector(false, 0), s) && s.charged == []
    case StartRead => Still(r, FREE, Selector(false, 0), s) && s.charged == []
    case StartFreeze(config) => Still(r, FREE, Selector(false, 0), s) && config == FREE && s.charged == []
    case SelectEvent => Still(r, FROZEN, Selector(false, 0), s) && s.charged == []
    case StartReread => Still(r, FROZEN, cfg.enable, s) && s.charged == []
    case StartUnfreeze(config) => Still(r, FROZEN, cfg.enable, s) && config == FROZEN && s.charged == []
    case Waiting => Pending(r, FREE, cfg, s)
    case Freeze(config) => Pending(r, FREE, cfg, s) && config == FREE
    case ReadLow => Pending(r, FROZEN, cfg, s)
    case ReadHigh(low) => Pending(r, FROZEN, cfg, s) && low == r.lo
    case Charge(counts) => Pending(r, FROZEN, cfg, s) && counts == Count(r)
    case ZeroLow => r.ctl == FROZEN && r.sel == cfg.enable && s.period == 0
    case ZeroHigh => r.ctl == FROZEN && r.sel == cfg.enable && s.period == 0 && r.lo == 0
    case Reread => Still(r, FROZEN, cfg.enable, s)
    case Unfreeze(config) => Still(r, FROZEN, cfg.enable, s) && config == FROZEN
    case CountJiffy => Pending(r, FREE, cfg, s)
  }

  predicate Still(r: Regs, ctl: BoxCtl, sel: Selector, s: Sys) {
    r.ctl == ctl && r.sel == sel && Count(r) == 0 && s.period == 0
  }

  predicate Pending(r: Regs, ctl: BoxCtl, cfg: Config, s: Sys) {
    r.ctl == ctl && r.sel == cfg.enable && Count(r) == Wrap48(s.period)
  }

  /** The timer count trails the samples only inside a tick. */
  predicate Timed(s: Sys) {
    s.jiffies + (if InTick(s.phase) then 1 else 0) == |s.charged|
  }

  predicate InTick(p: Phase) {
    p.ZeroLow? || p.ZeroHigh? || p.Reread? || p.Unfreeze? || p.CountJiffy?
  }

  predicate Inv(cfg: Config, s: Sys) {
    && RegsOk(s.regs)
    && AtPhase(cfg, s)
    && (!s.phase.ResetBox? ==> Accounted(s))
    && (s.phase.ResetBox? ==> s.charged == s.periods == [])
    && Delayed(cfg, s)
    && Timed(s)
    && (s.charged != [] ==> s.procCounts == s.charged[|s.charged| - 1])
  }

  lemma EventsCount(r: Regs, n: nat)
    requires RegsOk(r)
    ensures RegsOk(Events(r, n))
    ensures Counting(r) ==> Count(Events(r, n)) == Wrap48(Count(r) + n)
  {
  }

  lemma AddMod(period: nat, n: nat)
    ensures Wrap48(Wrap48(period) + n) == Wrap48(period + n)
  {
  }

  lemma ReadWhole(r: Regs)
    requires RegsOk(r)
    ensures ReadBack(r.lo, r.hi) == Count(r)
  {
  }

  /** The accesses above are the general ones of CounterAccess for a 48-bit box. */
  lemma SplitAccessAtThisWidth(low: int, high: int)
    ensures ReadBack(low, high) == Combine(low, high, 48)
    ensures LowDword(0) == 0 && HighDword(0, 48) == 0
  {
    Pow2At48();
  }

  lemma ArriveKeepsInv(cfg: Config, s: Sys, n: nat)
    requires Inv(cfg, s)
    ensures Inv(cfg, Do(cfg, s, Arrive(n)))
  {
    if Counting(s.regs) {
      EventsCount(s.regs, n);
      AddMod(s.period, n);
    }
  }

  lemma StepKeepsRegisters(cfg: Config, s: Sys)
    requires RegsOk(s.regs) && AtPhase(cfg, s)
    ensures RegsOk(Step(cfg, s).regs) && AtPhase(cfg, Step(cfg, s))
  {
    ReadWhole(s.regs);
    hide ReadBack, DelayNs;
  }

  /** Only the charge step writes the books, and the reset opens them. */
  lemma StepKeepsBooks(cfg: Config, s: Sys)
    requires Inv(cfg, s)
    ensures !Step(cfg, s).phase.ResetBox? && Accounted(Step(cfg, s))
    ensures Delayed(cfg, Step(cfg, s)) && Timed(Step(cfg, s))
    ensures var t := Step(cfg, s); t.charged != [] ==> t.procCounts == t.charged[|t.charged| - 1]
  {
    if s.phase.Charge? {
      assert s.phase.counts == Wrap48(s.period);
      hide RegsOk, DelayNs, ReadBack, AtPhase, Wrap48;
      ChargeKeepsBooks(cfg, s, s.phase.counts);
    } else if s.phase.ResetBox? {
      hide RegsOk, DelayNs, ReadBack, WriteCtl, WriteStatus;
    } else {
      hide AtPhase, RegsOk;
      OtherStepsKeepBooks(cfg, s);
    }
  }

  lemma OtherStepsKeepBooks(cfg: Config, s: Sys)
    requires Accounted(s) && Delayed(cfg, s) && Timed(s) && !s.phase.Charge? && !s.phase.ResetBox?
    requires s.charged != [] ==> s.procCounts == s.charged[|s.charged| - 1]
    ensures var t := Step(cfg, s);
            && !t.phase.ResetBox? && Accounted(t) && Delayed(cfg, t) && Timed(t)
            && (t.charged != [] ==> t.procCounts == t.charged[|t.charged| - 1])
  {
    hide DelayNs, ReadBack, WriteCtl, WriteStatus, Wrap48, Sum;
    var t := Step(cfg, s);
    assert t.charged == s.charged && t.periods == s.periods && t.delays == s.delays && t.waits == s.waits;
  }

  lemma ChargeKeepsBooks(cfg: Config, s: Sys, counts: int)
    requires s.phase == Charge(counts) && counts == Wrap48(s.period)
    requires Accounted(s) && Delayed(cfg, s) && Timed(s)
    ensures var t := Step(cfg, s);
            && Accounted(t) && Delayed(cfg, t) && Timed(t)
            && t.charged != [] && t.procCounts == t.charged[|t.charged| - 1]
  {
    hide Wrap48, DelayNs;
    SumSnoc(s.periods, s.period);
    hide Sum;
  }

  lemma StepKeepsInv(cfg: Config, s: Sys)
    requires Inv(cfg, s)
    ensures Inv(cfg, Step(cfg, s))
  {
    StepKeepsRegisters(cfg, s);
    StepKeepsBooks(cfg, s);
    hide AtPhase, RegsOk, Accounted, Delayed, Timed, Step;
  }

  lemma {:induction false} RunKeepsInv(cfg: Config, s: Sys, actions: seq<Action>)
    requires Inv(cfg, s)
    ensures Inv(cfg, Run(cfg, s, actions))
  {
    if actions != [] {
      var n := |actions| - 1;
      RunKeepsInv(cfg, s, actions[..n]);
      var before := Run(cfg, s, actions[..n]);
      match actions[n]
      case Arrive(k) => ArriveKeepsInv(cfg, before, k);
      case Advance => StepKeepsInv(cfg, before);
    }
  }

  // ---------- The promises ----------

  /** Whatever the registers held before and whenever requests arrive, the start
      sequence releases the box with a zero counter and the event selected. */
  lemma StartsFromZero(cfg: Config, regs: Regs, actions: seq<Action>)
    requires RegsOk(regs)
    ensures var s := Run(cfg, Initial(regs), actions);
            s.phase.StartUnfreeze? ==>
              && Count(s.regs) == 0 && s.regs.sel == cfg.enable
              && (var t := Step(cfg, s); t.phase.Waiting? && !t.regs.ctl.freeze && Count(t.regs) == 0)
  {
    RunKeepsInv(cfg, Initial(regs), actions);
  }

  /** Reducing every element modulo 2^48 changes the sum by a multiple of it, and leaves
      it alone exactly when every element was already below. */
  lemma {:induction false} SumOfWrapped(s: seq<int>, t: seq<int>) returns (k: nat)
    requires |s| == |t|
    requires forall i :: 0 <= i < |s| ==> 0 <= s[i] && t[i] == Wrap48(s[i])
    ensures Sum(s) == Sum(t) + 0x1_0000_0000_0000 * k
    ensures k == 0 <==> forall i :: 0 <= i < |s| ==> s[i] < WIDTH
  {
    k := 0;
    if s != [] {
      var n := |s| - 1;
      k := SumOfWrapped(s[..n], t[..n]);
      k := k + s[n] / 0x1_0000_0000_0000;
      assert forall i :: 0 <= i < n ==> s[..n][i] == s[i];
    }
  }

  lemma BooksBalance(s: Sys, pending: int)
    requires Accounted(s) && pending == Wrap48(s.period)
    ensures Wrap48(s.counted - Sum(s.charged) - pending) == 0
    ensures s.counted == Sum(s.charged) + pending
            <==> s.period < WIDTH && forall i :: 0 <= i < |s.periods| ==> s.periods[i] < WIDTH
  {
    var k := SumOfWrapped(s.periods, s.charged);
    var q := s.period / 0x1_0000_0000_0000;
    assert s.counted - Sum(s.charged) - pending == 0x1_0000_0000_0000 * (k + q);
  }

  /** No event is lost or charged twice, over every interleaving. Modulo the counter's
      width the books always balance; they balance exactly precisely when no period
      between two samples saw 2^48 events. */
  lemma NothingLostOrDoubled(cfg: Config, regs: Regs, actions: seq<Action>)
    requires RegsOk(regs)
    ensures var s := Run(cfg, Initial(regs), actions);
            s.phase.Waiting? ==>
              && Wrap48(s.counted - Sum(s.charged) - Count(s.regs)) == 0
              && (s.counted == Sum(s.charged) + Count(s.regs)
                  <==> s.period < WIDTH && forall i :: 0 <= i < |s.periods| ==> s.periods[i] < WIDTH)
  {
    RunKeepsInv(cfg, Initial(regs), actions);
    hide *;
    BooksWhileWaiting(cfg, Run(cfg, Initial(regs), actions));
  }

  lemma BooksWhileWaiting(cfg: Config, s: Sys)
    requires Inv(cfg, s)
    ensures s.phase.Waiting? ==>
      && Wrap48(s.counted - Sum(s.charged) - Count(s.regs)) == 0
      && (s.counted == Sum(s.charged) + Count(s.regs)
          <==> s.period < WIDTH && forall i :: 0 <= i < |s.periods| ==> s.periods[i] < WIDTH)
  {
    if s.phase.Waiting? {
      assert Accounted(s) && Count(s.regs) == Wrap48(s.period);
      hide *;
      BooksBalance(s, Count(s.regs));
    }
  }

  /** What the invariant says where the code can see it. */
  lemma InvMeans(cfg: Config, s: Sys)
    requires Inv(cfg, s)
    ensures s.phase.Charge? ==> s.phase.counts == Wrap48(s.period)
    ensures s.phase.Waiting? || s.phase.CountJiffy? ==>
      !s.regs.ctl.freeze && s.regs.sel == cfg.enable && Count(s.regs) == Wrap48(s.period)
    ensures s.phase.StartReread? || s.phase.Reread? ==> s.period == 0
  {
  }

  /** From the write that freezes the box to the one that releases it. */
  predicate Frozen(p: Phase) {
    p.ReadLow? || p.ReadHigh? || p.Charge? || p.ZeroLow? || p.ZeroHigh? || p.Reread? || p.Unfreeze?
    || p.SelectEvent? || p.StartReread? || p.StartUnfreeze?
  }

  /** The box is released and its event is selected. */
  predicate Open(p: Phase) {
    p.Waiting? || p.Freeze? || p.CountJiffy?
  }

  lemma ArrivalByPhase(cfg: Config, s: Sys, n: nat)
    requires Inv(cfg, s)
    ensures var t := Do(cfg, s, Arrive(n));
            && (Frozen(s.phase) ==> t == s)
            && (Open(s.phase) ==> t.period == s.period + if cfg.enable.enabled then n else 0)
  {
  }

  /** The two-dword read is never torn: what is charged is the counter's value, which
      does not move from the freeze to the release. */
  lemma ReadsAreWhole(cfg: Config, regs: Regs, actions: seq<Action>, n: nat)
    requires RegsOk(regs)
    ensures var s := Run(cfg, Initial(regs), actions);
            && (s.phase.Charge? ==> s.phase.counts == Count(s.regs) == Wrap48(s.period))
            && (Frozen(s.phase) ==> Do(cfg, s, Arrive(n)) == s)
  {
    RunKeepsInv(cfg, Initial(regs), actions);
    var s := Run(cfg, Initial(regs), actions);
    hide Run;
    ArrivalByPhase(cfg, s, n);
  }

  lemma ProductFits(counts: int, delta: nat)
    requires 0 <= counts < WIDTH && delta < 0x1_0000
    ensures DelayNs(counts, delta) == delta * counts
  {
    assert counts * delta <= counts * 0x1_0000;
    assert 0 <= counts * delta;
  }

  lemma {:induction false} WaitsTrailDelays(delays: seq<int>, waits: seq<int>)
    requires |delays| == |waits|
    requires forall i :: 0 <= i < |delays| ==> waits[i] == delays[i] / 1000
    ensures 0 <= Sum(delays) - 1000 * Sum(waits) <= 999 * |delays|
  {
    if delays != [] {
      var n := |delays| - 1;
      WaitsTrailDelays(delays[..n], waits[..n]);
    }
  }

  lemma DelaysAreExact(cfg: Config, s: Sys)
    requires Delayed(cfg, s) && cfg.delta < 0x1_0000
    requires forall i :: 0 <= i < |s.charged| ==> 0 <= s.charged[i] < WIDTH
    ensures Sum(s.delays) == cfg.delta * Sum(s.charged)
    ensures 0 <= Sum(s.delays) - 1000 * Sum(s.waits) <= 999 * |s.charged|
  {
    forall i | 0 <= i < |s.charged| ensures s.delays[i] == cfg.delta * s.charged[i] {
      ProductFits(s.charged[i], cfg.delta);
    }
    SumScaled(s.charged, s.delays, cfg.delta);
    WaitsTrailDelays(s.delays, s.waits);
  }

  /** The emulation itself: with an extra latency below 2^16 ns no product overflows, and
      the microseconds actually waited make up for the latency of every read seen by the
      last sample to within 999 ns a tick, as long as no period saw 2^48 reads. */
  lemma InjectedDelay(cfg: Config, regs: Regs, actions: seq<Action>)
    requires RegsOk(regs) && cfg.delta < 0x1_0000
    ensures var s := Run(cfg, Initial(regs), actions);
            && Sum(s.delays) == cfg.delta * Sum(s.charged)
            && 0 <= Sum(s.delays) - 1000 * Sum(s.waits) <= 999 * |s.charged|
            && (!s.phase.ResetBox? && (forall i :: 0 <= i < |s.periods| ==> s.periods[i] < WIDTH) ==>
                  0 <= cfg.delta * (s.counted - s.period) - 1000 * Sum(s.waits) <= 999 * |s.charged|)
  {
    RunKeepsInv(cfg, Initial(regs), actions);
    var s := Run(cfg, Initial(regs), actions);
    hide Run, AtPhase, RegsOk, Timed;
    DelaysAreExact(cfg, s);
    if !s.phase.ResetBox? && forall i :: 0 <= i < |s.periods| ==> s.periods[i] < WIDTH {
      SamplesAreReads(s);
    }
    hide Delayed, Accounted, Sum;
  }

  lemma SamplesAreReads(s: Sys)
    requires Accounted(s) && forall i :: 0 <= i < |s.periods| ==> s.periods[i] < WIDTH
    ensures s.counted - s.period == Sum(s.charged)
  {
    var k := SumOfWrapped(s.periods, s.charged);
  }

  function Advances(actions: seq<Action>): nat {
    if actions == [] then 0
    else Advances(actions[..|actions| - 1]) + (if actions[|actions| - 1].Advance? then 1 else 0)
  }

  function Position(p: Phase): nat {
    match p
    case ResetBox => 0
    case ClearOverflow => 1
    case StartRead => 2
    case StartFreeze(_) => 3
    case SelectEvent => 4
    case StartReread => 5
    case StartUnfreeze(_) => 6
    case Waiting => 7
    case Freeze(_) => 8
    case ReadLow => 9
    case ReadHigh(_) => 10
    case Charge(_) => 11
    case ZeroLow => 12
    case ZeroHigh => 13
    case Reread => 14
    case Unfreeze(_) => 15
    case CountJiffy => 16
  }

  /** Arrivals never delay the polling CPU: seven steps start it and every ten more are
      one tick, so the number of samples is known from the number of steps alone. */
  lemma {:induction false} TicksKeepPace(cfg: Config, regs: Regs, actions: seq<Action>)
    ensures var s := Run(cfg, Initial(regs), actions);
            && Advances(actions) == Position(s.phase) + 10 * s.jiffies
            && (s.jiffies > 0 ==> Position(s.phase) >= 7)
  {
    if actions != [] {
      var n := |actions| - 1;
      TicksKeepPace(cfg, regs, actions[..n]);
      PositionMoves(cfg, Run(cfg, Initial(regs), actions[..n]), actions[n]);
      hide Position, Do;
    }
  }

  lemma PositionMoves(cfg: Config, s: Sys, a: Action)
    ensures var t := Do(cfg, s, a);
            && Position(t.phase) + 10 * t.jiffies
               == Position(s.phase) + 10 * s.jiffies + (if a.Advance? then 1 else 0)
            && t.jiffies >= s.jiffies
            && (Position(s.phase) >= 7 ==> Position(t.phase) >= 7)
            && (t.jiffies > s.jiffies ==> Position(t.phase) >= 7)
  {
    hide WriteCtl, WriteStatus, ReadBack, Events, DelayNs;
  }
}
