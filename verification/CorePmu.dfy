/** The all-CPU side of core_pmu.c and the command switch of core_proc.c. Each MSR write
    of an IPI is one step; before every step the environment may let any CPU miss or
    take its pending NMI, as the given adversary decides. The contracts hold for every
    adversary, so they hold wherever NMIs strike. */
module CorePmu {
  import opened Kernel
  import opened OverflowCpu

  datatype EnvAction = EnvMiss(cpu: nat) | EnvNmi(cpu: nat)

  /** What a walk over the online CPUs does to each of them, left alone. */
  datatype Visit = Recount | Clear | Enable(initValue: int, event: Event) | Count | Start(initValue: int)

  function Visited(c: Cpu, visit: Visit): Cpu {
    match visit
    case Recount => c.(nmiTimes := 0)
    case Clear => ClearMsrs(c)
    case Enable(initValue, event) => EnablePredefinedEvent(c, initValue, event)
    case Count => c.(ctrl := true)
    case Start(initValue) => EnablePredefinedEvent(ClearMsrs(c), initValue, LLC_MISSES).(ctrl := true)
  }

  /** One write to a model-specific register. */
  datatype Msr = Pmc(value: int) | EvtSel(sel: EventSel) | GlobalCtrl(on: bool) | OvfCtrl(bit0: bool)

  function Write(c: Cpu, msr: Msr): Cpu {
    match msr
    case Pmc(value) => WritePmc(c, value)
    case EvtSel(sel) => c.(sel := sel)
    case GlobalCtrl(on) => c.(ctrl := on)
    case OvfCtrl(bit0) => WriteOvfCtrl(c, bit0)
  }

  predicate PromptActions(acts: seq<EnvAction>) {
    forall k :: 0 <= k < |acts| && acts[k].EnvMiss? ==>
      k + 1 < |acts| && acts[k + 1] == EnvNmi(acts[k].cpu)
  }

  datatype Reply = Done | Einval | Efault

  class Sampler {
    // cpu_online_mask and one performance counter per CPU.
    const online: seq<bool>
    var cpus: seq<Cpu>
    // pre_event_init_value and pre_event_info.event.
    var initValue: int
    var event: Event
    // What happens around the k-th step.
    const adversary: nat -> seq<EnvAction>
    var steps: nat

    ghost predicate Valid()
      reads this
    {
      |cpus| == |online| && forall i :: 0 <= i < |cpus| ==> CpuOk(cpus[i])
    }

    constructor (online: seq<bool>, cpus: seq<Cpu>, initValue: int, event: Event, adversary: nat -> seq<EnvAction>)
      requires |cpus| == |online| && forall i :: 0 <= i < |cpus| ==> CpuOk(cpus[i])
      ensures Valid() && this.online == online && this.cpus == cpus && this.adversary == adversary
      ensures this.initValue == initValue && this.event == event
    {
      this.online, this.cpus, this.initValue, this.event := online, cpus, initValue, event;
      this.adversary, steps := adversary, 0;
    }

    /** Nothing ever happens between steps. Runs of this kind are where each method's
        contract pins down every register. */
    ghost predicate Quiet() {
      forall k :: adversary(k) == []
    }

    /** Every wrap's NMI is delivered at once, whenever the wraps come. */
    ghost predicate Prompt() {
      forall k :: PromptActions(adversary(k))
    }

    /** No online CPU has an NMI pending. */
    ghost predicate Calm()
      reads this`cpus
    {
      |cpus| == |online| && forall i :: 0 <= i < |cpus| && online[i] ==> !cpus[i].pending
    }

    /** How far CPU `i` has got with the restart: nothing, counter loaded, event
        selected, or counting. */
    ghost predicate Reached(i: int, stage: int)
      requires 0 <= i < |cpus|
      reads this
    {
      && (stage >= 1 ==> Loaded(cpus[i], initValue))
      && (stage >= 2 ==> Selected(cpus[i], initValue, event))
      && (stage >= 3 ==> Armed(cpus[i], initValue, event))
    }

    /** Misses and NMIs before the next step. */
    method Interfere()
      requires Valid()
      modifies this`cpus, this`steps
      ensures Valid() && AllDisturbed(old(cpus), cpus)
      ensures Quiet() ==> cpus == old(cpus)
      ensures Prompt() && old(Calm()) ==> Calm()
    {
      AnyDisturbed();
      var acts := adversary(steps);
      steps := steps + 1;
      for k := 0 to |acts|
        invariant Valid() && AllDisturbed(old(cpus), cpus)
        invariant Quiet() ==> acts == [] && cpus == old(cpus)
        invariant Prompt() && old(Calm()) ==> PromptActions(acts)
        invariant Prompt() && old(Calm()) ==>
          forall i :: 0 <= i < |cpus| && online[i] && cpus[i].pending ==> k > 0 && acts[k - 1] == EnvMiss(i)
      {
        hide Disturbed, CpuOk, Handler;
        var i := acts[k].cpu;
        if i < |cpus| && online[i] {
          var now := match acts[k]
            case EnvMiss(_) => Miss(cpus[i])
            case EnvNmi(_) => Nmi(cpus[i], initValue, event);
          StrikeDisturbs(cpus[i], now, acts[k], initValue, event);
          DisturbedCompose(old(cpus[i]), cpus[i], now, true, initValue, event);
          cpus := cpus[i := now];
        }
      }
    }

    lemma AnyDisturbed()
      ensures forall c: Cpu, on: bool :: Disturbed(c, c, on, initValue, event)
    {
    }

    ghost predicate AllDisturbed(before: seq<Cpu>, after: seq<Cpu>)
      reads this`initValue, this`event
    {
      OthersDisturbed(before, after, |online|)
    }

    /** Every CPU but one saw only misses and NMIs. */
    ghost predicate OthersDisturbed(before: seq<Cpu>, after: seq<Cpu>, cpu: nat)
      reads this`initValue, this`event
    {
      && |before| == |after| == |online|
      && forall i :: 0 <= i < |after| && i != cpu ==>
           Disturbed(before[i], after[i], online[i], initValue, event)
    }

    lemma OthersCompose(a: seq<Cpu>, b: seq<Cpu>, c: seq<Cpu>, cpu: nat)
      requires OthersDisturbed(a, b, cpu) && OthersDisturbed(b, c, cpu)
      ensures OthersDisturbed(a, c, cpu)
    {
      forall i | 0 <= i < |c| && i != cpu
        ensures Disturbed(a[i], c[i], online[i], initValue, event)
      {
        DisturbedCompose(a[i], b[i], c[i], online[i], initValue, event);
      }
    }

    /** core_pmu_wrmsr on one CPU, at any moment: it hits the registers as misses and NMIs
        have left them. The sampler only ever writes zero to OVF_CTRL. */
    method WriteMsr(cpu: nat, msr: Msr) returns (ghost was: Cpu)
      requires Valid() && cpu < |cpus| && online[cpu]
      requires msr.Pmc? ==> 0 <= msr.value < 0x1_0000_0000_0000
      requires msr.OvfCtrl? ==> !msr.bit0
      modifies this`cpus, this`steps
      ensures Valid() && OthersDisturbed(old(cpus), cpus, cpu)
      ensures CpuOk(was) && Disturbed(old(cpus[cpu]), was, true, initValue, event)
      ensures cpus[cpu] == Write(was, msr)
      ensures Quiet() ==> cpus == old(cpus)[cpu := Write(old(cpus[cpu]), msr)]
      ensures Prompt() && old(Calm()) ==> Calm()
    {
      Interfere();
      hide Disturbed;
      was := cpus[cpu];
      cpus := cpus[cpu := Write(cpus[cpu], msr)];
    }

    /** Every online CPU went through this visit and nothing else. */
    ghost predicate Became(before: seq<Cpu>, after: seq<Cpu>, visit: Visit) {
      BecameUpTo(before, after, visit, |online|)
    }

    ghost predicate BecameUpTo(before: seq<Cpu>, after: seq<Cpu>, visit: Visit, n: nat) {
      && |before| == |after| == |online|
      && forall i :: 0 <= i < |after| ==>
           after[i] == if i < n && online[i] then Visited(before[i], visit) else before[i]
    }

    /** core_pmu_clear_counter. */
    method ClearCounter()
      requires Valid()
      modifies this`cpus, this`steps
      ensures Valid()
      ensures forall i :: 0 <= i < |cpus| && online[i] ==> Recounted(old(cpus[i]), cpus[i])
      ensures forall i :: 0 <= i < |cpus| && !online[i] ==> cpus[i] == old(cpus[i])
      ensures Quiet() ==> Became(old(cpus), cpus, Recount)
      ensures Prompt() && old(Calm()) ==> Calm()
    {
      hide Prompt, Armed, Selected, Loaded, Signals, Stopped;
      for cpu := 0 to |online|
        invariant Valid()
        invariant forall i :: 0 <= i < |cpus| ==> old(cpus[i]).handled <= cpus[i].handled
        invariant Quiet() ==> BecameUpTo(old(cpus), cpus, Recount, cpu)
        invariant Prompt() && old(Calm()) ==> Calm()
        invariant forall i :: 0 <= i < cpu && online[i] ==> Recounted(old(cpus[i]), cpus[i])
        invariant forall i :: 0 <= i < |cpus| && !online[i] ==> cpus[i] == old(cpus[i])
      {
        Interfere();
        if online[cpu] {
          cpus := cpus[cpu := cpus[cpu].(nmiTimes := 0)];
        }
      }
    }

    /** __core_pmu_clear_msrs on one CPU: four writes. It ends up stopped, or restarted by
        an NMI of its own that came after the third, which takes one that was late. */
    method ClearMsrsOn(cpu: nat)
      requires Valid() && cpu < |cpus| && online[cpu]
      modifies this`cpus, this`steps
      ensures Valid() && OthersDisturbed(old(cpus), cpus, cpu)
      ensures Off(cpu) && Tallied(old(cpus[cpu]), cpus[cpu])
      ensures Quiet() ==> cpus == old(cpus)[cpu := ClearMsrs(old(cpus[cpu]))]
      ensures Prompt() && old(Calm()) ==> Calm() && Stopped(cpus[cpu])
    {
      hide Prompt, Disturbed, OthersDisturbed, CpuOk, Signals, Stopped, Armed, Tallied;
      var x1 := WriteMsr(cpu, Pmc(0));
      ghost var s1 := cpus;
      var x2 := WriteMsr(cpu, EvtSel(NO_EVENT));
      OthersCompose(old(cpus), s1, cpus, cpu);
      ghost var s2 := cpus;
      var x3 := WriteMsr(cpu, GlobalCtrl(false));
      OthersCompose(old(cpus), s2, cpus, cpu);
      ghost var s3 := cpus;
      var x4 := WriteMsr(cpu, OvfCtrl(false));
      OthersCompose(old(cpus), s3, cpus, cpu);
      ClearedOff(old(cpus[cpu]), x1, x2, x3, x4, initValue, event);
      ClearedStopped(x3, x4, initValue, event);
    }

    ghost predicate Off(i: int)
      requires 0 <= i < |cpus|
      reads this
    {
      Signals(cpus[i]) && (Stopped(cpus[i]) || Armed(cpus[i], initValue, event))
    }

    /** core_pmu_clear_msrs. */
    method ClearAllMsrs()
      requires Valid()
      modifies this`cpus, this`steps
      ensures Valid()
      ensures forall i :: 0 <= i < |cpus| && online[i] ==> Off(i)
      ensures Quiet() ==> Became(old(cpus), cpus, Clear)
      ensures Prompt() && old(Calm()) ==> Calm() && forall i :: 0 <= i < |cpus| && online[i] ==> Stopped(cpus[i])
      ensures forall i :: 0 <= i < |cpus| && !online[i] ==> cpus[i] == old(cpus[i])
      ensures forall i :: 0 <= i < |cpus| ==> Tallied(old(cpus[i]), cpus[i])
    {
      for cpu := 0 to |online|
        invariant Valid()
        invariant forall i :: 0 <= i < cpu && online[i] ==> Off(i)
        invariant Quiet() ==> BecameUpTo(old(cpus), cpus, Clear, cpu)
        invariant Prompt() && old(Calm()) ==>
          Calm() && forall i :: 0 <= i < cpu && online[i] ==> Stopped(cpus[i])
        invariant forall i :: 0 <= i < |cpus| && !online[i] ==> cpus[i] == old(cpus[i])
        invariant forall i :: 0 <= i < |cpus| ==> Tallied(old(cpus[i]), cpus[i])
      {
        if online[cpu] {
          ClearMsrsOn(cpu);
        }
      }
    }

    /** __core_pmu_enable_predefined_event on one CPU, whatever its counter held. */
    method EnableEventOn(cpu: nat)
      requires Valid() && cpu < |cpus| && online[cpu] && Signals(cpus[cpu])
      modifies this`cpus, this`steps
      ensures Valid() && OthersDisturbed(old(cpus), cpus, cpu)
      ensures Reached(cpu, 2) && Tallied(old(cpus[cpu]), cpus[cpu])
      ensures Quiet() ==> cpus == old(cpus)[cpu := EnablePredefinedEvent(old(cpus[cpu]), initValue, event)]
      ensures Prompt() && old(Calm()) ==> Calm()
    {
      hide Prompt, Disturbed, OthersDisturbed, CpuOk, Signals, Armed, Selected, Tallied, Selector;
      var val := Wrap48(initValue);
      var x1 := WriteMsr(cpu, Pmc(val));
      ghost var s1 := cpus;
      var x2 := WriteMsr(cpu, EvtSel(Selector(event)));
      OthersCompose(old(cpus), s1, cpus, cpu);
      EventSelected(old(cpus[cpu]), x1, x2, initValue, event);
    }

    /** core_pmu_enable_predefined_event. */
    method EnableAllEvents(newEvent: Event)
      requires Valid() && forall i :: 0 <= i < |cpus| && online[i] ==> Signals(cpus[i])
      modifies this`cpus, this`event, this`steps
      ensures Valid() && event == newEvent
      ensures forall i :: 0 <= i < |cpus| && online[i] ==> Reached(i, 2)
      ensures Quiet() ==> Became(old(cpus), cpus, Enable(initValue, newEvent))
      ensures Prompt() && old(Calm()) ==> Calm()
      ensures forall i :: 0 <= i < |cpus| && !online[i] ==> cpus[i] == old(cpus[i])
      ensures forall i :: 0 <= i < |cpus| ==> Tallied(old(cpus[i]), cpus[i])
    {
      event := newEvent;
      for cpu := 0 to |online|
        invariant Valid() && event == newEvent
        invariant forall i :: 0 <= i < |cpus| && online[i] ==> Signals(cpus[i])
        invariant Quiet() ==> BecameUpTo(old(cpus), cpus, Enable(initValue, newEvent), cpu)
        invariant Prompt() && old(Calm()) ==> Calm()
        invariant forall i :: 0 <= i < cpu && online[i] ==> Reached(i, 2)
        invariant forall i :: 0 <= i < |cpus| && !online[i] ==> cpus[i] == old(cpus[i])
        invariant forall i :: 0 <= i < |cpus| ==> Tallied(old(cpus[i]), cpus[i])
      {
        if online[cpu] {
          EnableEventOn(cpu);
        }
      }
    }

    /** core_pmu_enable_counting. */
    method EnableAllCounting()
      requires Valid()
      requires forall i :: 0 <= i < |cpus| && online[i] ==> Reached(i, 2)
      modifies this`cpus, this`steps
      ensures Valid()
      ensures forall i :: 0 <= i < |cpus| && online[i] ==> Reached(i, 3)
      ensures Quiet() ==> Became(old(cpus), cpus, Count)
      ensures Prompt() && old(Calm()) ==> Calm()
      ensures forall i :: 0 <= i < |cpus| && !online[i] ==> cpus[i] == old(cpus[i])
      ensures forall i :: 0 <= i < |cpus| ==> Tallied(old(cpus[i]), cpus[i])
    {
      hide Selector, Wrap48;
      for cpu := 0 to |online|
        invariant Valid()
        invariant forall i :: 0 <= i < |cpus| && online[i] ==> Reached(i, 2)
        invariant forall i :: 0 <= i < cpu && online[i] ==> Reached(i, 3)
        invariant Quiet() ==> BecameUpTo(old(cpus), cpus, Count, cpu)
        invariant Prompt() && old(Calm()) ==> Calm()
        invariant forall i :: 0 <= i < |cpus| && !online[i] ==> cpus[i] == old(cpus[i])
        invariant forall i :: 0 <= i < |cpus| ==> Tallied(old(cpus[i]), cpus[i])
      {
        if online[cpu] {
          var was := WriteMsr(cpu, GlobalCtrl(true));
        }
      }
    }

    /** core_pmu_start_sampling: from any register contents, every online CPU ends up
        sampling last-level-cache misses with the current period. */
    method StartSampling()
      requires Valid()
      modifies this`cpus, this`event, this`steps
      ensures Valid()
      ensures event == LLC_MISSES
      ensures forall i :: 0 <= i < |cpus| && online[i] ==> Armed(cpus[i], initValue, LLC_MISSES)
      ensures forall i :: 0 <= i < |cpus| && online[i] ==>
        cpus[i].sel == EventSel(0x412e, true, true, true) && cpus[i].ctrl
      ensures forall i :: 0 <= i < |cpus| && !online[i] ==> cpus[i] == old(cpus[i])
      ensures forall i :: 0 <= i < |cpus| ==> Tallied(old(cpus[i]), cpus[i])
      ensures Quiet() ==> Became(old(cpus), cpus, Start(initValue))
      ensures Prompt() && old(Calm()) ==> Calm()
    {
      hide Prompt, Selected, Loaded, Stopped;
      ClearAllMsrs();
      EnableAllEvents(LLC_MISSES);
      EnableAllCounting();
      assert forall i :: 0 <= i < |cpus| && online[i] ==> Reached(i, 3);
      forall i | 0 <= i < |cpus| && online[i]
        ensures cpus[i].sel == EventSel(0x412e, true, true, true) && cpus[i].ctrl
      {
        ArmedCounts(cpus[i], initValue, LLC_MISSES);
      }
    }

    /** The command switch of core_pmu_proc_write. '1' to '4' leave every online CPU armed
        with the chosen period and its NMI count restarted, and from there the books balance
        on every run, up to the credit of one stale NMI. '0' leaves each one stopped, or
        restarted by a late NMI. When NMIs are prompt and none was pending before, there is
        no such credit and no such restart; and none was pending before is exactly the
        condition when nothing else happens during the command. Everything else changes
        nothing. */
    method ProcWrite(command: char, count: nat, offset: nat, copied: bool) returns (reply: Reply)
      requires Valid()
      modifies this`cpus, this`event, this`initValue, this`steps
      ensures Valid()
      ensures count != 2 || offset != 0 ==> reply == Einval
      ensures count == 2 && offset == 0 && !copied ==> reply == Efault
      ensures count == 2 && offset == 0 && copied ==>
                reply == (if command in {'0', '1', '2', '3', '4'} then Done else Einval)
      ensures reply != Done ==>
                cpus == old(cpus) && initValue == old(initValue) && event == old(event) && steps == old(steps)
      ensures reply == Done && command != '0' ==>
                && (command == '1' ==> Period(initValue) == 32 && initValue == 0x1_0000_0000_0000_0000 - 32)
                && (command == '2' ==> Period(initValue) == 64 && initValue == 0x1_0000_0000_0000_0000 - 64)
                && (command == '3' ==> Period(initValue) == 128 && initValue == 0x1_0000_0000_0000_0000 - 128)
                && (command == '4' ==> Period(initValue) == 256 && initValue == 0x1_0000_0000_0000_0000 - 256)
                && (forall i :: 0 <= i < |cpus| && online[i] ==> Armed(cpus[i], initValue, LLC_MISSES))
                && (forall i, actions :: 0 <= i < |cpus| && online[i] ==>
                      Balanced(cpus[i], Run(Open(cpus[i]), actions, initValue, LLC_MISSES), initValue, LLC_MISSES))
                && (Prompt() && old(Calm()) ==>
                      forall i :: 0 <= i < |cpus| && online[i] ==> KeepsPromise(cpus[i], initValue, LLC_MISSES))
                && (Quiet() ==> forall i :: 0 <= i < |cpus| && online[i] ==>
                      && cpus[i] == Visited(Visited(old(cpus[i]), Recount), Start(initValue))
                      && (KeepsPromise(cpus[i], initValue, LLC_MISSES) <==> !old(cpus[i]).pending))
      ensures reply == Done && command == '0' ==>
                && initValue == 0 && event == old(event)
                && (forall i :: 0 <= i < |cpus| && online[i] ==> Stopped(cpus[i]) || Armed(cpus[i], 0, event))
                && (Prompt() && old(Calm()) ==>
                      forall i :: 0 <= i < |cpus| && online[i] ==> Stopped(cpus[i]) && StaysStopped(cpus[i], 0, event))
                && (Quiet() ==> forall i :: 0 <= i < |cpus| && online[i] ==>
                      && cpus[i] == Visited(Visited(old(cpus[i]), Recount), Clear)
                      && (StaysStopped(cpus[i], 0, event) <==> !old(cpus[i]).pending))
      ensures reply == Done ==> forall i :: 0 <= i < |cpus| && online[i] ==> Recounted(old(cpus[i]), cpus[i])
      ensures forall i :: 0 <= i < |cpus| && !online[i] ==> cpus[i] == old(cpus[i])
    {
      hide Prompt, Armed, Balanced, KeepsPromise, StaysStopped;
      if count != 2 || offset != 0 { return Einval; }
      if !copied { return Efault; }
      match command {
        case '0' => Stop();
        case '1' => Restart(Negated(32));
        case '2' => Restart(Negated(64));
        case '3' => Restart(Negated(128));
        case '4' => Restart(Negated(256));
        case _ => return Einval;
      }
      reply := Done;
    }

    method Stop()
      requires Valid()
      modifies this`cpus, this`initValue, this`steps
      ensures Valid() && initValue == 0
      ensures forall i :: 0 <= i < |cpus| && online[i] ==> Stopped(cpus[i]) || Armed(cpus[i], 0, event)
      ensures forall i :: 0 <= i < |cpus| && online[i] ==> Recounted(old(cpus[i]), cpus[i])
      ensures forall i :: 0 <= i < |cpus| && !online[i] ==> cpus[i] == old(cpus[i])
      ensures Prompt() && old(Calm()) ==>
        forall i :: 0 <= i < |cpus| && online[i] ==> Stopped(cpus[i]) && StaysStopped(cpus[i], 0, event)
      ensures Quiet() ==> forall i :: 0 <= i < |cpus| && online[i] ==>
        && cpus[i] == Visited(Visited(old(cpus[i]), Recount), Clear)
        && (StaysStopped(cpus[i], 0, event) <==> !old(cpus[i]).pending)
    {
      hide Prompt, StaysStopped, Armed, CpuOk;
      initValue := 0;
      ClearCounter();
      ClearAllMsrs();
      assert forall i :: 0 <= i < |cpus| && online[i] ==> Off(i);
      forall i | 0 <= i < |cpus| && online[i] && Stopped(cpus[i])
        ensures StaysStopped(cpus[i], 0, event) <==> !cpus[i].pending
      {
        StopLastsIff(cpus[i], 0, event);
      }
    }

    method Restart(value: int)
      requires Valid()
      modifies this`cpus, this`event, this`initValue, this`steps
      ensures Valid() && initValue == value
      ensures forall i :: 0 <= i < |cpus| && online[i] ==> Armed(cpus[i], initValue, LLC_MISSES)
      ensures forall i :: 0 <= i < |cpus| && online[i] ==> Recounted(old(cpus[i]), cpus[i])
      ensures forall i :: 0 <= i < |cpus| && !online[i] ==> cpus[i] == old(cpus[i])
      ensures forall i, actions :: 0 <= i < |cpus| && online[i] ==>
        Balanced(cpus[i], Run(Open(cpus[i]), actions, initValue, LLC_MISSES), initValue, LLC_MISSES)
      ensures Prompt() && old(Calm()) ==>
        forall i :: 0 <= i < |cpus| && online[i] ==> KeepsPromise(cpus[i], initValue, LLC_MISSES)
      ensures Quiet() ==> forall i :: 0 <= i < |cpus| && online[i] ==>
        && cpus[i] == Visited(Visited(old(cpus[i]), Recount), Start(value))
        && (KeepsPromise(cpus[i], initValue, LLC_MISSES) <==> !old(cpus[i]).pending)
    {
      hide Prompt, Armed, CpuOk, Balanced, KeepsPromise, Run, Stale;
      initValue := value;
      ClearCounter();
      StartSampling();
      forall i, actions | 0 <= i < |cpus| && online[i]
        ensures Balanced(cpus[i], Run(Open(cpus[i]), actions, initValue, LLC_MISSES), initValue, LLC_MISSES)
      {
        RunKeepsBalance(cpus[i], actions, initValue, LLC_MISSES);
      }
      forall i | 0 <= i < |cpus| && online[i]
        ensures KeepsPromise(cpus[i], initValue, LLC_MISSES) <==> !Stale(cpus[i], initValue)
        ensures !cpus[i].pending ==> !Stale(cpus[i], initValue)
        ensures cpus[i].since == 0 && cpus[i].pending ==> Stale(cpus[i], initValue)
      {
        PromiseKeptIff(cpus[i], initValue, LLC_MISSES);
        StaleMeans(cpus[i], initValue);
      }
    }
  }

  /** A negative literal assigned to the 64-bit period variable. */
  function Negated(n: int): int {
    0x1_0000_0000_0000_0000 - n
  }

  /** Every NMI handled in between was counted, and nothing else was. */
  predicate Tallied(before: Cpu, after: Cpu) {
    after.nmiTimes - before.nmiTimes == after.handled - before.handled >= 0
  }

  /** The published count was reset, so it holds no NMI from before. */
  predicate Recounted(before: Cpu, after: Cpu) {
    after.nmiTimes <= after.handled - before.handled
  }

  /** One miss or one NMI is a disturbance, and only a miss can leave an NMI pending. */
  lemma StrikeDisturbs(c: Cpu, after: Cpu, act: EnvAction, initValue: int, event: Event)
    requires CpuOk(c)
    requires after == match act
      case EnvMiss(_) => Miss(c)
      case EnvNmi(_) => Nmi(c, initValue, event)
    ensures CpuOk(after) && Disturbed(c, after, true, initValue, event)
    ensures act.EnvNmi? ==> !after.pending
  {
    MissKeeps(c, initValue, event);
    NmiKeeps(c, initValue, event);
  }

  lemma DisturbedCompose(a: Cpu, b: Cpu, c: Cpu, online: bool, initValue: int, event: Event)
    requires Disturbed(a, b, online, initValue, event) && Disturbed(b, c, online, initValue, event)
    ensures Disturbed(a, c, online, initValue, event)
  {
    hide Signals, Loaded, Selected, Armed;
  }

  /** The four writes, each on what misses and NMIs made of the one before. */
  lemma ClearedOff(c: Cpu, x1: Cpu, x2: Cpu, x3: Cpu, x4: Cpu, initValue: int, event: Event)
    requires CpuOk(x4) && Disturbed(c, x1, true, initValue, event)
    requires Disturbed(Write(x1, Pmc(0)), x2, true, initValue, event)
    requires Disturbed(Write(x2, EvtSel(NO_EVENT)), x3, true, initValue, event)
    requires Disturbed(Write(x3, GlobalCtrl(false)), x4, true, initValue, event)
    ensures var after := Write(x4, OvfCtrl(false));
            Signals(after) && (Stopped(after) || Armed(after, initValue, event)) && Tallied(c, after)
  {
    assert Write(x4, OvfCtrl(false)) == x4;
    assert Signals(Write(x2, EvtSel(NO_EVENT)));
    hide Selector, Wrap48;
  }

  lemma ClearedStopped(x3: Cpu, x4: Cpu, initValue: int, event: Event)
    requires Disturbed(Write(x3, GlobalCtrl(false)), x4, true, initValue, event)
    ensures !x3.pending ==> Stopped(Write(x4, OvfCtrl(false)))
  {
  }

  lemma StaleMeans(c: Cpu, initValue: int)
    ensures !c.pending ==> !Stale(c, initValue)
    ensures c.pending && c.since == 0 ==> Stale(c, initValue)
  {
  }

  /** The preload and the selector, in that order. */
  lemma EventSelected(c: Cpu, x1: Cpu, x2: Cpu, initValue: int, event: Event)
    requires CpuOk(x1) && CpuOk(x2) && Signals(c) && Disturbed(c, x1, true, initValue, event)
    requires Disturbed(Write(x1, Pmc(Wrap48(initValue))), x2, true, initValue, event)
    ensures Selected(Write(x2, EvtSel(Selector(event))), initValue, event)
    ensures Tallied(c, Write(x2, EvtSel(Selector(event))))
  {
    assert Loaded(Write(x1, Pmc(Wrap48(initValue))), initValue);
  }

  /** What the environment can do to one CPU between two steps: no stage it had reached is
      lost, a stopped one stays stopped unless its own NMI restarts it, and an offline one
      does not move. */
  ghost predicate Disturbed(before: Cpu, after: Cpu, online: bool, initValue: int, event: Event) {
    && (!online ==> after == before)
    && Tallied(before, after)
    && (Stopped(before) ==> Stopped(after) || Armed(after, initValue, event))
    && (Stopped(before) && !before.pending ==> after == before)
    && (Signals(before) ==> Signals(after))
    && (Loaded(before, initValue) ==> Loaded(after, initValue))
    && (Selected(before, initValue, event) ==> Selected(after, initValue, event))
    && (Armed(before, initValue, event) ==> Armed(after, initValue, event))
  }

  // ---------- What a pending NMI does to a command ----------

  /** One CPU, sampling with a period of 32, whose counter has just wrapped. */
  const WRAPPED := Cpu(0, Selector(LLC_MISSES), true, true, true, 0, 0x1_0000_0000_0000 - 32, 32, 0)

  /** Command '1' with that NMI still to come: the CPU is armed, but the NMI will be
      counted for a period that has only begun. */
  method RestartWithPendingNmi() returns (c: Cpu, initValue: int)
    ensures Armed(c, initValue, LLC_MISSES) && Stale(c, initValue)
    ensures exists actions :: !Promise(c, Run(Open(c), actions, initValue, LLC_MISSES), initValue)
  {
    var sampler := new Sampler([true], [WRAPPED], Negated(32), LLC_MISSES, _ => []);
    var _ := sampler.ProcWrite('1', 2, 0, true);
    c, initValue := sampler.cpus[0], sampler.initValue;
    PromiseKeptIff(c, initValue, LLC_MISSES);
  }

  /** Command '0' at the same moment: the CPU is stopped, and the NMI starts it again. */
  method StopWithPendingNmi() returns (c: Cpu, initValue: int, event: Event)
    ensures Stopped(c) && c.pending
    ensures exists actions :: !Stopped(Run(Open(c), actions, initValue, event).cpu)
  {
    var sampler := new Sampler([true], [WRAPPED], Negated(32), LLC_MISSES, _ => []);
    var _ := sampler.ProcWrite('0', 2, 0, true);
    c, initValue, event := sampler.cpus[0], sampler.initValue, sampler.event;
    StopLastsIff(c, initValue, event);
  }
}
