/** The code that runs on the polling CPU: the box operations of uncore_hswep.c, and the
    start sequence and timer handler of emulate_nvm.c that call them. Every method takes
    the number of read requests that arrive in each gap between its register accesses,
    and its ghost trace shows it to be a run of LatencySampler. */
module LatencyEmulator {
  import opened Kernel
  import opened LatencySampler

  class HomeAgent {
    // The device's registers and the module's variables.
    var regs: Regs
    var procCounts: int
    var jiffies: nat
    // The udelay calls made on the emulating CPU, in microseconds.
    var waits: seq<int>
    const cfg: Config

    ghost const prior: Regs
    ghost var trace: seq<Action>
    ghost var sys: Sys

    ghost predicate Valid()
      reads this
    {
      && RegsOk(prior)
      && sys == Run(cfg, Initial(prior), trace) && Inv(cfg, sys)
      && regs == sys.regs && procCounts == sys.procCounts && jiffies == sys.jiffies && waits == sys.waits
    }

    constructor (regs: Regs, cfg: Config)
      requires RegsOk(regs)
      ensures Valid() && sys.phase.ResetBox? && trace == []
      ensures this.regs == regs && this.cfg == cfg && prior == regs
    {
      this.regs, this.cfg, this.prior := regs, cfg, regs;
      procCounts, jiffies, waits := 0, 0, [];
      trace, sys := [], Initial(regs);
    }

    ghost method Record(a: Action)
      requires sys == Run(cfg, Initial(prior), trace) && Inv(cfg, sys)
      modifies this`trace, this`sys
      ensures trace == old(trace) + [a]
      ensures sys == Do(cfg, old(sys), a) == Run(cfg, Initial(prior), trace)
      ensures Inv(cfg, sys)
    {
      RunSnoc(cfg, Initial(prior), trace, a);
      match a {
        case Arrive(n) => ArriveKeepsInv(cfg, sys, n);
        case Advance => StepKeepsInv(cfg, sys);
      }
      trace, sys := trace + [a], Do(cfg, sys, a);
    }

    /** Requests reach the memory controller. */
    method Arrive(n: nat)
      requires Valid()
      modifies this`regs, this`trace, this`sys
      ensures Valid() && trace == old(trace) + [LatencySampler.Arrive(n)]
      ensures sys.phase == old(sys.phase) && sys.charged == old(sys.charged)
      ensures regs.status == old(regs.status)
      ensures Frozen(sys.phase) ==> sys == old(sys)
      ensures Open(sys.phase) ==> sys.period == old(sys.period) + if cfg.enable.enabled then n else 0
    {
      hide Run, Inv;
      ArrivalByPhase(cfg, sys, n);
      if Counting(regs) {
        regs := Events(regs, n);
      }
      Record(LatencySampler.Arrive(n));
    }

    method InitBox(gap: nat)
      requires Valid() && sys.phase.ResetBox?
      modifies this`regs, this`trace, this`sys
      ensures Valid() && sys.phase.StartRead?
      ensures regs.status == old(regs.status) - {0, 1, 2, 3}
      ensures trace == old(trace) + [Advance, LatencySampler.Arrive(gap), Advance]
    {
      hide Run, Inv;
      regs := WriteCtl(regs, INIT);
      Record(Advance);
      Arrive(gap);
      regs := WriteStatus(regs, {0, 1, 2, 3});
      Record(Advance);
    }

    /** hswep_uncore_pci_disable_box: read, set the freeze bit, write. */
    method DisableBox(gap: nat)
      requires Valid() && (sys.phase.StartRead? || sys.phase.Waiting?)
      modifies this`regs, this`trace, this`sys
      ensures Valid()
      ensures regs.status == old(regs.status)
      ensures old(sys.phase.StartRead?) ==> sys.phase.SelectEvent?
      ensures old(sys.phase.Waiting?) ==> sys.phase.ReadLow?
      ensures sys.charged == old(sys.charged)
      ensures old(sys.phase.Waiting?) ==> sys.period == old(sys.period) + if cfg.enable.enabled then gap else 0
      ensures trace == old(trace) + [Advance, LatencySampler.Arrive(gap), Advance]
    {
      hide Run, Inv;
      var config := regs.ctl;
      Record(Advance);
      Arrive(gap);
      regs := WriteCtl(regs, config.(freeze := true));
      Record(Advance);
    }

    /** hswep_uncore_pci_enable_box: read, clear the freeze bit, write. */
    method EnableBox(gap: nat)
      requires Valid() && (sys.phase.StartReread? || sys.phase.Reread?)
      modifies this`regs, this`trace, this`sys
      ensures Valid()
      ensures regs.status == old(regs.status)
      ensures old(sys.phase.StartReread?) ==> sys.phase.Waiting?
      ensures old(sys.phase.Reread?) ==> sys.phase.CountJiffy?
      ensures sys.charged == old(sys.charged) && sys.period == old(sys.period)
      ensures trace == old(trace) + [Advance, LatencySampler.Arrive(gap), Advance]
    {
      hide Run, Inv;
      var config := regs.ctl;
      Record(Advance);
      Arrive(gap);
      regs := WriteCtl(regs, config.(freeze := false));
      Record(Advance);
    }

    method EnableEvent()
      requires Valid() && sys.phase.SelectEvent?
      modifies this`regs, this`trace, this`sys
      ensures Valid() && sys.phase.StartReread? && trace == old(trace) + [Advance]
      ensures regs.status == old(regs.status)
    {
      hide Run, Inv;
      regs := regs.(sel := cfg.enable);
      Record(Advance);
    }

    /** hswep_uncore_pci_read_counter. */
    method ReadCounter(gap: nat) returns (counts: int)
      requires Valid() && sys.phase.ReadLow?
      modifies this`regs, this`trace, this`sys
      ensures Valid() && sys.phase == Charge(counts) && counts == Wrap48(sys.period)
      ensures sys.charged == old(sys.charged) && sys.period == old(sys.period)
      ensures trace == old(trace) + [Advance, LatencySampler.Arrive(gap), Advance]
    {
      hide Run, Inv;
      var low := regs.lo;
      Record(Advance);
      Arrive(gap);
      counts := ReadBack(low, regs.hi);
      Record(Advance);
      InvMeans(cfg, sys);
    }

    /** hswep_uncore_pci_write_counter with the value zero. */
    method WriteCounterZero(gap: nat)
      requires Valid() && sys.phase.ZeroLow?
      modifies this`regs, this`trace, this`sys
      ensures Valid() && sys.phase.Reread?
      ensures sys.charged == old(sys.charged) && sys.period == old(sys.period)
      ensures regs == old(regs).(lo := 0, hi := 0)
      ensures trace == old(trace) + [Advance, LatencySampler.Arrive(gap), Advance]
    {
      hide Run, Inv;
      regs := regs.(lo := 0);
      Record(Advance);
      Arrive(gap);
      regs := regs.(hi := 0);
      Record(Advance);
    }

    /** start_emulate_latency once its box has been found: whatever the registers held,
        the box ends up released with its event selected and a zero counter. */
    method StartEmulateLatency(g: seq<nat>)
      requires Valid() && sys.phase.ResetBox? && |g| == 6
      modifies this`regs, this`trace, this`sys
      ensures Valid() && sys.phase.Waiting?
      ensures trace == old(trace) + StartTrace(g)
      ensures !regs.ctl.freeze && regs.sel == cfg.enable && Count(regs) == 0
      ensures regs.status == old(regs.status) - {0, 1, 2, 3}
    {
      hide Run, Inv;
      InitBox(g[0]);
      Arrive(g[1]);
      DisableBox(g[2]);
      Arrive(g[3]);
      EnableEvent();
      Arrive(g[4]);
      InvMeans(cfg, sys);
      EnableBox(g[5]);
      InvMeans(cfg, sys);
    }

    /** emulate_nvm_hrtimer: one tick. The sample is exactly what the counter had plus what
        arrived before the freeze, nothing that arrives until the release is counted, and
        what arrives afterwards waits for the next tick. */
    method TimerHandler(g: seq<nat>)
      requires Valid() && sys.phase.Waiting? && |g| == 9
      modifies this
      ensures Valid() && sys.phase.Waiting?
      ensures trace == old(trace) + TickTrace(g)
      ensures jiffies == old(jiffies) + 1
      ensures sys.charged == old(sys.charged) + [procCounts]
      ensures waits == old(waits) + [DelayNs(procCounts, cfg.delta) / 1000]
      ensures procCounts == Wrap48(old(sys.period) + if cfg.enable.enabled then g[0] else 0)
      ensures Count(regs) == Wrap48(if cfg.enable.enabled then g[8] else 0)
    {
      hide Valid, Wrap48, DelayNs, Count;
      DisableBox(g[0]);
      Arrive(g[1]);
      var counts := ReadCounter(g[2]);
      Arrive(g[3]);
      ChargeAndWait(counts);
      Arrive(g[4]);
      WriteCounterZero(g[5]);
      Arrive(g[6]);
      EnableBox(g[7]);
      Arrive(g[8]);
      CountThisJiffy();
    }

    /** Step II of the handler: publish the count, translate it and send it to the
        emulating CPU, which waits whole microseconds. */
    method ChargeAndWait(counts: int)
      requires Valid() && sys.phase == Charge(counts)
      modifies this`procCounts, this`waits, this`trace, this`sys
      ensures Valid() && sys.phase.ZeroLow? && sys.period == 0
      ensures procCounts == counts && sys.charged == old(sys.charged) + [counts]
      ensures waits == old(waits) + [DelayNs(counts, cfg.delta) / 1000]
      ensures trace == old(trace) + [Advance]
    {
      hide Run, Inv;
      procCounts := counts;
      var delay := DelayNs(counts, cfg.delta);
      waits := waits + [delay / 1000];
      Record(Advance);
    }

    method CountThisJiffy()
      requires Valid() && sys.phase.CountJiffy?
      modifies this`jiffies, this`trace, this`sys
      ensures Valid() && sys.phase.Waiting? && Count(regs) == Wrap48(sys.period)
      ensures jiffies == old(jiffies) + 1
      ensures sys.charged == old(sys.charged) && sys.period == old(sys.period)
      ensures trace == old(trace) + [Advance]
    {
      hide Run, Inv;
      jiffies := jiffies + 1;
      Record(Advance);
      InvMeans(cfg, sys);
    }
  }

  /** The seven accesses of the start sequence and the arrivals in their six gaps. */
  function StartTrace(g: seq<nat>): seq<Action>
    requires |g| == 6
  {
    [Advance, LatencySampler.Arrive(g[0]), Advance, LatencySampler.Arrive(g[1]),
     Advance, LatencySampler.Arrive(g[2]), Advance, LatencySampler.Arrive(g[3]),
     Advance, LatencySampler.Arrive(g[4]), Advance, LatencySampler.Arrive(g[5]), Advance]
  }

  /** The ten steps of one tick and the arrivals in their nine gaps. */
  function TickTrace(g: seq<nat>): seq<Action>
    requires |g| == 9
  {
    [Advance, LatencySampler.Arrive(g[0]), Advance, LatencySampler.Arrive(g[1]),
     Advance, LatencySampler.Arrive(g[2]), Advance, LatencySampler.Arrive(g[3]),
     Advance, LatencySampler.Arrive(g[4]), Advance, LatencySampler.Arrive(g[5]),
     Advance, LatencySampler.Arrive(g[6]), Advance, LatencySampler.Arrive(g[7]),
     Advance, LatencySampler.Arrive(g[8]), Advance]
  }
}
