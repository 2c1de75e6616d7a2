/** CPU hotplug in emulate_nvm.c: the loops that take CPUs down and bring them up walk a
    node's CPU mask, and every step they take changes that mask. */
module Hotplug {
  import opened Kernel

  /** What hotplug does not change: the CPUs that exist, their nodes, and the CPUs whose
      cpu_down or cpu_up fails. Masks are maskBits wide; valid CPUs are below nrCpus. */
  datatype Machine = Machine(
    nrCpus: nat, maskBits: nat, present: set<nat>, nodeOf: nat -> int,
    wontStop: set<nat>, wontStart: set<nat>)
  {
    ghost predicate Sane(online: set<nat>) {
      && online <= present && online != {}
      && nrCpus <= maskBits
      && forall c :: c in present ==> c < nrCpus
    }

    /** cpumask_of_node: it only ever holds online CPUs. */
    function Mask(online: set<nat>, node: int): set<nat> {
      set c | c in online && nodeOf(c) == node
    }

    /** cpu_down: the kernel keeps the last CPU running. */
    function CpuDown(online: set<nat>, cpu: nat): set<nat> {
      if cpu in online && cpu !in wontStop && online != {cpu} then online - {cpu} else online
    }

    /** cpu_up: nothing for a CPU that is absent or already running. */
    function CpuUp(online: set<nat>, cpu: nat): set<nat> {
      if cpu in present && cpu !in wontStart then online + {cpu} else online
    }

    /** A node's CPUs are down except the chosen one, those that refuse, and the last one
        the machine has. Everything else is as before. */
    ghost predicate Thinned(before: set<nat>, after: set<nat>, node: int, keep: nat) {
      && {} < after <= before
      && (forall c :: c in before && (nodeOf(c) != node || c == keep || c in wontStop) ==> c in after)
      && (forall c :: c in after && nodeOf(c) == node && c != keep && c !in wontStop ==>
            after == {c} && forall b :: b in before ==> b <= c)
    }

    ghost predicate Prepared(before: set<nat>, after: set<nat>, e: nat, p: nat) {
      exists mid :: Thinned(before, mid, nodeOf(e), e) && Thinned(mid, after, nodeOf(p), p)
    }

    /** Every CPU the machine has is up, except one that would not start and the
        emulating CPU, which is left as it was. */
    ghost predicate Restored(before: set<nat>, after: set<nat>, e: nat) {
      after == before + set c | c in present && c != e && c !in wontStart
    }

    /** The state the emulation asks for: one CPU per chosen node. */
    ghost predicate Isolated(online: set<nat>, e: nat, p: nat) {
      Mask(online, nodeOf(e)) == {e} && Mask(online, nodeOf(p)) == {p}
    }

    /** Preparing isolates the two CPUs exactly when they are on different nodes, or are
        the same one, and no neighbour refuses to stop. */
    lemma PreparedIsIsolatedIff(before: set<nat>, after: set<nat>, e: nat, p: nat)
      requires Prepared(before, after, e, p) && e in before && p in before
      ensures Isolated(after, e, p) <==>
        && (nodeOf(e) != nodeOf(p) || e == p)
        && forall c :: c in before && c != e && c != p && c in wontStop ==>
             nodeOf(c) != nodeOf(e) && nodeOf(c) != nodeOf(p)
    {
      var mid :| Thinned(before, mid, nodeOf(e), e) && Thinned(mid, after, nodeOf(p), p);
      if Isolated(after, e, p) {
        assert e in Mask(after, nodeOf(e)) && p in Mask(after, nodeOf(p));
        forall c | c in before && c != e && c != p && c in wontStop
          ensures nodeOf(c) != nodeOf(e) && nodeOf(c) != nodeOf(p)
        {
          assert c in after;
          assert c !in Mask(after, nodeOf(e)) && c !in Mask(after, nodeOf(p));
        }
      }
    }

    /** CPUs on other nodes are never touched. */
    lemma OtherNodesKept(before: set<nat>, after: set<nat>, e: nat, p: nat, node: int)
      requires Prepared(before, after, e, p) && node != nodeOf(e) && node != nodeOf(p)
      ensures Mask(after, node) == Mask(before, node)
    {
      var mid :| Thinned(before, mid, nodeOf(e), e) && Thinned(mid, after, nodeOf(p), p);
      assert Mask(mid, node) == Mask(before, node);
    }

    /** Can the emulating CPU be lost: it shares its node with another polling CPU, it
        agrees to stop, and something else will be running when its turn comes. */
    ghost predicate Exposed(before: set<nat>, e: nat, p: nat) {
      && nodeOf(e) == nodeOf(p) && e != p && e !in wontStop
      && exists c :: c in before && c != e && (nodeOf(c) != nodeOf(e) || c in wontStop)
    }

    /** A CPU that preparing stops, when both chosen ones are online. */
    ghost predicate Stops(c: nat, e: nat, p: nat) {
      && c != e && c !in wontStop
      && (nodeOf(c) == nodeOf(e) || (nodeOf(c) == nodeOf(p) && c != p))
    }

    lemma StopsIff(before: set<nat>, mid: set<nat>, e: nat, p: nat, c: nat)
      requires Prepared(before, mid, e, p) && e in before && p in before && c in before && c != e
      ensures c !in mid <==> Stops(c, e, p)
    {
      var first :| Thinned(before, first, nodeOf(e), e) && Thinned(first, mid, nodeOf(p), p);
      assert e in first;
    }

    lemma EmulatingCpuKeptIff(before: set<nat>, mid: set<nat>, e: nat, p: nat)
      requires Prepared(before, mid, e, p) && e in before
      ensures e in mid <==> !Exposed(before, e, p)
    {
      var first :| Thinned(before, first, nodeOf(e), e) && Thinned(first, mid, nodeOf(p), p);
      if Exposed(before, e, p) {
        var c :| c in before && c != e && (nodeOf(c) != nodeOf(e) || c in wontStop);
        assert c in first && c in mid;
      } else if nodeOf(e) == nodeOf(p) && e != p && e !in wontStop {
        assert forall c :: c in first && c != e ==> first == {c};
        assert first == {e};
      }
    }

    /** Restoring after preparing brings back every CPU that was online exactly when the
        emulating CPU was not exposed and nothing that was stopped refuses to start. */
    lemma RoundTripIff(before: set<nat>, mid: set<nat>, after: set<nat>, e: nat, p: nat)
      requires Sane(before) && Prepared(before, mid, e, p) && Restored(mid, after, e)
      ensures before <= after <==>
        && !(e in before && Exposed(before, e, p))
        && forall c :: c in before && c !in mid && c != e ==> c !in wontStart
      ensures e in before && p in before ==>
        (before <= after <==>
          !Exposed(before, e, p) && forall c :: c in before && Stops(c, e, p) ==> c !in wontStart)
    {
      if e in before {
        EmulatingCpuKeptIff(before, mid, e, p);
        if p in before {
          forall c | c in before && c != e ensures c !in mid <==> Stops(c, e, p) {
            StopsIff(before, mid, e, p, c);
          }
        }
      }
      assert mid <= before by { Shrinks(before, mid, e, p); }
      hide Exposed, Prepared, Stops;
    }

    lemma Shrinks(before: set<nat>, mid: set<nat>, e: nat, p: nat)
      requires Prepared(before, mid, e, p)
      ensures mid <= before
    {
    }

    /** It restores the exact set if and only if, besides, every CPU that was present but
        offline is the emulating one or refuses to start: all others come up as well. */
    lemma RestoresExactlyIff(before: set<nat>, mid: set<nat>, after: set<nat>, e: nat, p: nat)
      requires Sane(before) && Prepared(before, mid, e, p) && Restored(mid, after, e)
      ensures after == before <==>
        && before <= after
        && forall c :: c in present && c !in before && c != e ==> c in wontStart
    {
      Shrinks(before, mid, e, p);
    }
  }

  class Platform {
    const m: Machine
    var online: set<nat>

    constructor (m: Machine, online: set<nat>)
      ensures this.m == m && this.online == online
    {
      this.m, this.online := m, online;
    }

    /** cpumask_next on a node's mask as it is now. */
    method NextInMask(cpu: int, node: int) returns (next: nat)
      requires m.Sane(online) && -1 <= cpu < m.maskBits
      ensures cpu < next <= m.maskBits
      ensures next < m.maskBits ==> next in m.Mask(online, node)
      ensures forall c :: c in online && m.nodeOf(c) == node && cpu < c ==> next <= c
    {
      next := cpu + 1;
      while next < m.maskBits && next !in m.Mask(online, node)
        invariant cpu < next <= m.maskBits
        invariant forall c :: c in online && m.nodeOf(c) == node && cpu < c ==> next <= c
      {
        next := next + 1;
      }
    }

    /** cpumask_next_zero. */
    method NextNotInMask(cpu: int, node: int) returns (next: nat)
      requires m.Sane(online) && -1 <= cpu < m.maskBits
      ensures cpu < next <= m.maskBits
      ensures next < m.maskBits ==> next !in m.Mask(online, node)
      ensures forall c: nat :: cpu < c < next ==> c in online && m.nodeOf(c) == node
    {
      next := cpu + 1;
      while next < m.maskBits && next in m.Mask(online, node)
        invariant cpu < next <= m.maskBits
        invariant forall c: nat :: cpu < c < next ==> c in online && m.nodeOf(c) == node
      {
        next := next + 1;
      }
    }

    /** One for_each_cpu loop of prepare_platform_configuration. */
    method DownAllBut(node: int, keep: nat)
      requires m.Sane(online)
      modifies this
      ensures m.Sane(online) && m.Thinned(old(online), online, node, keep)
    {
      var cpu := NextInMask(-1, node);
      while cpu < m.nrCpus
        invariant m.Sane(online) && cpu <= m.maskBits && online <= old(online)
        invariant cpu < m.nrCpus ==> cpu in m.Mask(online, node)
        invariant forall c :: c in old(online) && (m.nodeOf(c) != node || c == keep || c in m.wontStop) ==> c in online
        invariant forall c :: c in old(online) && cpu <= c ==> c in online
        invariant forall c :: c in online && m.nodeOf(c) == node && c < cpu && c != keep && c !in m.wontStop ==>
          online == {c} && forall b :: b in old(online) ==> b <= c
        decreases m.maskBits - cpu
      {
        if cpu != keep {
          online := m.CpuDown(online, cpu);
        }
        cpu := NextInMask(cpu, node);
      }
    }

    /** prepare_platform_configuration. */
    method PreparePlatform(current: nat, e: nat, p: nat) returns (ret: int)
      requires m.Sane(online)
      modifies this
      ensures m.Sane(online)
      ensures ret == if current != p then -1 else 0
      ensures ret != 0 ==> online == old(online)
      ensures ret == 0 ==> m.Prepared(old(online), online, e, p)
    {
      if current != p { return -1; }
      DownAllBut(m.nodeOf(e), e);
      DownAllBut(m.nodeOf(p), p);
      ret := 0;
    }

    /** restore_platform_configuration. The first loop walks the complement of the
        emulating node's mask, so it visits the CPUs of every node; the second finds
        nothing left to do. */
    method RestorePlatform(e: nat, p: nat)
      requires m.Sane(online)
      modifies this
      ensures m.Sane(online) && m.Restored(old(online), online, e)
    {
      var node := m.nodeOf(e);
      var cpu := NextNotInMask(-1, node);
      while cpu < m.nrCpus
        invariant m.Sane(online) && cpu <= m.maskBits
        invariant cpu < m.nrCpus ==> cpu !in m.Mask(online, node)
        invariant online == old(online) + set c | c in m.present && c < cpu && c != e && c !in m.wontStart
        decreases m.maskBits - cpu
      {
        if cpu != e {
          online := m.CpuUp(online, cpu);
        }
        cpu := NextNotInMask(cpu, node);
      }
      ghost var done := online;
      cpu := NextInMask(-1, m.nodeOf(p));
      while cpu < m.nrCpus
        invariant online == done && cpu <= m.maskBits
        invariant cpu < m.nrCpus ==> cpu in online
        decreases m.maskBits - cpu
      {
        if cpu != p {
          online := m.CpuUp(online, cpu);
        }
        cpu := NextInMask(cpu, m.nodeOf(p));
      }
    }

    /** first_online_cpu_of_node. Its test for an empty mask is `>` where the sentinel can
        equal nr_cpu_ids: it reports -1 exactly when the node is empty and masks are wider
        than the number of CPUs; an empty node otherwise yields the number of a CPU that
        does not exist. */
    method FirstOnlineCpuOfNode(node: int) returns (cpu: int)
      requires m.Sane(online)
      ensures m.Mask(online, node) != {} ==>
        cpu in m.Mask(online, node) && forall c :: c in m.Mask(online, node) ==> cpu <= c
      ensures cpu == -1 <==> m.Mask(online, node) == {} && m.maskBits > m.nrCpus
      ensures m.Mask(online, node) == {} && m.maskBits == m.nrCpus ==> cpu == m.nrCpus
    {
      cpu := NextInMask(-1, node);
      if c :| c in m.Mask(online, node) {
        assert cpu <= c < m.nrCpus;
      }
      if cpu > m.nrCpus {
        cpu := -1;
      }
    }

    /** Who uncore_call_function_on_node calls, or its error. */
    method CallTarget(node: nat, nrNodes: nat) returns (cpu: int)
      requires m.Sane(online)
      ensures cpu == EINVAL <==> node > nrNodes
      ensures node <= nrNodes && m.Mask(online, node) != {} ==>
        cpu in m.Mask(online, node) && forall c :: c in m.Mask(online, node) ==> cpu <= c
      ensures cpu != EINVAL && m.Mask(online, node) == {} ==>
        cpu == if m.maskBits > m.nrCpus then ENXIO else m.nrCpus
    {
      if node > nrNodes { return EINVAL; }
      cpu := FirstOnlineCpuOfNode(node);
      if cpu < 0 { return ENXIO; }
    }
  }

  // ---------- Where the code falls short, on small machines ----------

  /** CPUs 0 and 1 on node 0 and CPUs 2 and 3 on node 1; node 2 has none. */
  function TwoNodes(): Machine {
    Machine(4, 4, {0, 1, 2, 3}, (c: nat) => if c < 2 then 0 else 1, {}, {})
  }

  /** Emulating on CPU 0 and polling on its neighbour: after prepare and restore CPU 0 is
      the one CPU that is still down. */
  method NeighboursLoseTheEmulatingCpu() returns (online: set<nat>)
    ensures online == {1, 2, 3}
  {
    var platform := new Platform(TwoNodes(), {0, 1, 2, 3});
    var _ := platform.PreparePlatform(1, 0, 1);
    ghost var mid := platform.online;
    assert TwoNodes().Exposed({0, 1, 2, 3}, 0, 1) by {
      assert 2 in {0, 1, 2, 3} && TwoNodes().nodeOf(2) != TwoNodes().nodeOf(0);
    }
    TwoNodes().EmulatingCpuKeptIff({0, 1, 2, 3}, mid, 0, 1);
    TwoNodes().Shrinks({0, 1, 2, 3}, mid, 0, 1);
    platform.RestorePlatform(0, 1);
    online := platform.online;
  }

  /** Two CPUs on different nodes with CPU 3 offline: restoring starts CPU 3 as well. */
  method RestoreStartsMore() returns (online: set<nat>)
    ensures online == {0, 1, 2, 3}
  {
    var platform := new Platform(TwoNodes(), {0, 1, 2});
    var _ := platform.PreparePlatform(2, 0, 2);
    ghost var mid := platform.online;
    assert !TwoNodes().Exposed({0, 1, 2}, 0, 2);
    TwoNodes().EmulatingCpuKeptIff({0, 1, 2}, mid, 0, 2);
    TwoNodes().Shrinks({0, 1, 2}, mid, 0, 2);
    platform.RestorePlatform(0, 2);
    online := platform.online;
  }

  /** Asked for a CPU of the empty node, the code names one that does not exist. */
  method EmptyNodeYieldsACpu() returns (cpu: int)
    ensures cpu == 4 && cpu !in TwoNodes().present
  {
    var platform := new Platform(TwoNodes(), {0, 1, 2, 3});
    cpu := platform.CallTarget(2, 2);
  }
}
