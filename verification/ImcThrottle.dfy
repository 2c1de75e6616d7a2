/** Bandwidth throttling across sockets: uncore_imc.c's walks over the list of memory
    controllers, with their early exits and rollbacks. */
module ImcThrottle {
  import opened Kernel
  import opened ImcDevice

  predicate HasImc(imcs: seq<Imc>, node: nat) {
    exists i :: 0 <= i < |imcs| && imcs[i].nodeid == node
  }

  predicate Refuses(ops: ImcOps, imc: Imc, node: nat, change: Change) {
    imc.nodeid == node && Error(ops, imc, change) != 0
  }

  predicate AnyRefuses(ops: ImcOps, imcs: seq<Imc>, node: nat, change: Change) {
    exists i :: 0 <= i < |imcs| && Refuses(ops, imcs[i], node, change)
  }

  /** `after` is `before` with the node's controllers among the first n changed. */
  ghost predicate ChangedUpTo(ops: ImcOps, before: seq<Imc>, after: seq<Imc>, node: nat, change: Change, n: int) {
    && |after| == |before|
    && forall i :: 0 <= i < |before| ==>
         after[i] == if i < n && before[i].nodeid == node then Changed(ops, before[i], change) else before[i]
  }

  /** A walk over the node's controllers that ended with the given code: it changed all
      of them, or stopped at the first one that refused, which was changed last. */
  ghost predicate Walked(ops: ImcOps, before: seq<Imc>, after: seq<Imc>, node: nat, change: Change, ret: int) {
    if node > UNCORE_MAX_SOCKET then after == before && ret == EINVAL
    else if !AnyRefuses(ops, before, node, change) then
      && ChangedUpTo(ops, before, after, node, change, |before|)
      && ret == if HasImc(before, node) then 0 else ENXIO
    else exists n :: 0 < n <= |before| && FirstRefusal(ops, before, after, node, change, ret, n)
  }

  predicate FirstToRefuse(ops: ImcOps, imcs: seq<Imc>, node: nat, change: Change, n: int)
    requires 0 <= n < |imcs|
  {
    Refuses(ops, imcs[n], node, change) && forall i :: 0 <= i < n ==> !Refuses(ops, imcs[i], node, change)
  }

  ghost predicate FirstRefusal(ops: ImcOps, before: seq<Imc>, after: seq<Imc>,
                               node: nat, change: Change, ret: int, n: int)
    requires 0 < n <= |before|
  {
    && FirstToRefuse(ops, before, node, change, n - 1)
    && ChangedUpTo(ops, before, after, node, change, n)
    && ret == Error(ops, before[n - 1], change)
  }

  /** Membership in the online mask, walked in ascending order. */
  predicate Ascending(s: seq<nat>) {
    forall i, j :: 0 <= i < j < |s| ==> s[i] < s[j]
  }

  /** Every walk over these nodes would succeed. */
  ghost predicate AllReady(ops: ImcOps, imcs: seq<Imc>, nodes: seq<nat>, change: Change) {
    forall k :: 0 <= k < |nodes| ==>
      nodes[k] <= UNCORE_MAX_SOCKET && HasImc(imcs, nodes[k]) && !AnyRefuses(ops, imcs, nodes[k], change)
  }

  /** The controllers of these nodes are changed, the others untouched. */
  ghost predicate ChangedOn(ops: ImcOps, before: seq<Imc>, after: seq<Imc>, nodes: seq<nat>, change: Change) {
    && |after| == |before|
    && forall i :: 0 <= i < |before| ==>
         after[i] == if before[i].nodeid in nodes then Changed(ops, before[i], change) else before[i]
  }

  lemma UntouchedNode(ops: ImcOps, before: seq<Imc>, after: seq<Imc>, done: seq<nat>, node: nat, change: Change)
    requires ChangedOn(ops, before, after, done, change) && node !in done
    ensures HasImc(after, node) <==> HasImc(before, node)
    ensures AnyRefuses(ops, after, node, change) <==> AnyRefuses(ops, before, node, change)
  {
    forall i | 0 <= i < |before|
      ensures after[i].nodeid == before[i].nodeid
      ensures Refuses(ops, after[i], node, change) <==> Refuses(ops, before[i], node, change)
    {
    }
    if HasImc(before, node) {
      var i :| 0 <= i < |before| && before[i].nodeid == node;
      assert after[i].nodeid == node;
    }
    if AnyRefuses(ops, before, node, change) {
      var i :| 0 <= i < |before| && Refuses(ops, before[i], node, change);
      assert Refuses(ops, after[i], node, change);
    }
  }

  function On(ops: ImcOps, imc: Imc): Imc { Changed(ops, imc, TurnOn) }
  function Off(ops: ImcOps, imc: Imc): Imc { Changed(ops, imc, TurnOff) }

  /** A controller of a node whose enabling failed: turned off, reached or not. */
  predicate RolledBack(ops: ImcOps, before: Imc, after: Imc) {
    after == Off(ops, before) || after == Off(ops, On(ops, before))
  }

  /** The whole node after the n-th controller of the list refused: up to that one they
      were turned on and off, the ones behind it only off. */
  ghost predicate RolledBackAt(ops: ImcOps, before: seq<Imc>, after: seq<Imc>, node: nat, n: int) {
    && |after| == |before|
    && forall i :: 0 <= i < |before| && before[i].nodeid == node ==>
         after[i] == if i <= n then Off(ops, On(ops, before[i])) else Off(ops, before[i])
  }

  ghost predicate SameBits(before: seq<Imc>, after: seq<Imc>, node: nat)
    requires |after| == |before|
  {
    forall i, k :: 0 <= i < |before| && before[i].nodeid == node && 0 <= k < 3 ==>
      EnableBit(after[i].words[k]) == EnableBit(before[i].words[k])
  }

  predicate NodeOff(imcs: seq<Imc>, node: nat) {
    forall i :: 0 <= i < |imcs| && imcs[i].nodeid == node ==> AllOff(imcs[i])
  }

  /** What enabling a node does: nothing beyond the last node, all of it if nobody
      refuses, and otherwise a rollback behind the first refusal. */
  ghost predicate EnabledOrNot(ops: ImcOps, before: seq<Imc>, after: seq<Imc>, node: nat, ret: int) {
    && |after| == |before|
    && (forall i :: 0 <= i < |before| && before[i].nodeid != node ==> after[i] == before[i])
    && (forall i :: 0 <= i < |before| ==> after[i].nodeid == before[i].nodeid)
    && if node > UNCORE_MAX_SOCKET then after == before && ret == EINVAL
       else if !AnyRefuses(ops, before, node, TurnOn) then
         && ChangedOn(ops, before, after, [node], TurnOn)
         && ret == if HasImc(before, node) then 0 else ENXIO
       else exists n :: 0 <= n < |before| && RefusedAt(ops, before, after, node, ret, n)
  }

  ghost predicate RefusedAt(ops: ImcOps, before: seq<Imc>, after: seq<Imc>, node: nat, ret: int, n: int)
    requires 0 <= n < |before|
  {
    && FirstToRefuse(ops, before, node, TurnOn, n)
    && ret == Error(ops, before[n], TurnOn)
    && RolledBackAt(ops, before, after, node, n)
  }

  /** Success exactly when the node can be enabled, and what that leaves. */
  lemma EnableOutcome(ops: ImcOps, before: seq<Imc>, after: seq<Imc>, node: nat, ret: int)
    requires EnabledOrNot(ops, before, after, node, ret)
    ensures ret == 0 <==>
      node <= UNCORE_MAX_SOCKET && HasImc(before, node) && !AnyRefuses(ops, before, node, TurnOn)
    ensures ret == 0 ==> ChangedOn(ops, before, after, [node], TurnOn)
    ensures |after| == |before|
    ensures ret != 0 ==> forall i :: 0 <= i < |before| ==>
      if Reachable(before[i], [node]) then RolledBack(ops, before[i], after[i]) else after[i] == before[i]
  {
    if ret != 0 && node <= UNCORE_MAX_SOCKET && !AnyRefuses(ops, before, node, TurnOn) {
      NothingThere(before, node);
    }
  }

  lemma NothingThere(imcs: seq<Imc>, node: nat)
    ensures !HasImc(imcs, node) ==> forall i :: 0 <= i < |imcs| ==> imcs[i].nodeid != node
  {
  }

  /** The disabling walk behind a refusal at n makes the node rolled back at n. */
  lemma RollbackDone(ops: ImcOps, before: seq<Imc>, mid: seq<Imc>, after: seq<Imc>, node: nat, n: int)
    requires 0 <= n < |before| && node <= UNCORE_MAX_SOCKET && FirstToRefuse(ops, before, node, TurnOn, n)
    requires ChangedUpTo(ops, before, mid, node, TurnOn, n + 1)
    requires ChangedUpTo(ops, mid, after, node, TurnOff, |mid|)
    ensures EnabledOrNot(ops, before, after, node, Error(ops, before[n], TurnOn))
    ensures Lawful(ops) ==> (SameBits(before, after, node) <==> NodeOff(before, node))
  {
    assert RolledBackAt(ops, before, after, node, n);
    assert RefusedAt(ops, before, after, node, Error(ops, before[n], TurnOn), n);
    assert AnyRefuses(ops, before, node, TurnOn);
    if Lawful(ops) {
      RollbackRestoresIff(ops, before, after, node, n);
    }
  }

  lemma NodeWithoutBits(before: seq<Imc>, after: seq<Imc>, node: nat)
    requires |after| == |before| && !HasImc(before, node)
    ensures SameBits(before, after, node) && NodeOff(before, node)
  {
  }

  lemma Untouched(imcs: seq<Imc>, node: nat)
    ensures SameBits(imcs, imcs, node)
  {
  }

  /** A rollback restores the enable bits of its node exactly when none of them was set. */
  lemma RollbackRestoresIff(ops: ImcOps, before: seq<Imc>, after: seq<Imc>, node: nat, n: int)
    requires Lawful(ops) && RolledBackAt(ops, before, after, node, n)
    ensures SameBits(before, after, node) <==> NodeOff(before, node)
  {
    forall i | 0 <= i < |before| && before[i].nodeid == node ensures AllOff(after[i]) {
    }
    if SameBits(before, after, node) {
      forall i | 0 <= i < |before| && before[i].nodeid == node ensures AllOff(before[i]) {
        assert AllOff(after[i]);
      }
    }
  }

  /** On a node that a walk over these nodes gets to. */
  predicate Reachable(imc: Imc, nodes: seq<nat>) {
    imc.nodeid in nodes && imc.nodeid <= UNCORE_MAX_SOCKET
  }

  /** A walk over all nodes that gave up at the n-th, or had none to visit. */
  ghost predicate SetBefore(ops: ImcOps, nodes: seq<nat>, before: seq<Imc>, after: seq<Imc>, threshold: nat, n: int)
    requires 0 <= n <= |nodes|
  {
    && |after| == |before|
    && AllReady(ops, before, nodes[..n], SetTo(threshold))
    && (n < |nodes| ==> !AllReady(ops, before, [nodes[n]], SetTo(threshold)))
    && (forall i :: 0 <= i < |before| ==>
      && (before[i].nodeid in nodes[..n] ==> after[i] == Changed(ops, before[i], SetTo(threshold)))
      && (before[i].nodeid !in nodes[..n] && (n == |nodes| || before[i].nodeid != nodes[n]) ==>
            after[i] == before[i]))
    && (n < |nodes| ==> StoppedWithin(ops, before, after, nodes[n], SetTo(threshold)))
  }

  /** What a failed walk leaves of its own node: everything up to and including the first
      controller that refused is changed, and nothing at all on a node beyond the last. */
  ghost predicate StoppedWithin(ops: ImcOps, before: seq<Imc>, after: seq<Imc>, node: nat, change: Change)
    requires |after| == |before|
  {
    if node > UNCORE_MAX_SOCKET then
      forall i :: 0 <= i < |before| && before[i].nodeid == node ==> after[i] == before[i]
    else if !HasImc(before, node) then true
    else
      exists r :: 0 <= r < |before| && FirstToRefuse(ops, before, node, change, r)
        && forall i :: 0 <= i < |before| && before[i].nodeid == node ==>
             after[i] == if i <= r then Changed(ops, before[i], change) else before[i]
  }

  /** A walk's code says whether its node was ready, and then all of it is changed. */
  lemma WalkOutcome(ops: ImcOps, before: seq<Imc>, after: seq<Imc>, node: nat, change: Change, ret: int)
    requires Walked(ops, before, after, node, change, ret)
    ensures ret == 0 <==> node <= UNCORE_MAX_SOCKET && HasImc(before, node) && !AnyRefuses(ops, before, node, change)
    ensures ret == 0 ==> ChangedOn(ops, before, after, [node], change)
  {
  }

  /** A node's own controllers are all a walk looks at. */
  lemma WalkStopped(ops: ImcOps, before: seq<Imc>, mid: seq<Imc>, after: seq<Imc>,
                    node: nat, change: Change, ret: int)
    requires |mid| == |before| && Walked(ops, mid, after, node, change, ret) && ret != 0
    requires forall i :: 0 <= i < |before| ==> mid[i].nodeid == before[i].nodeid
    requires forall i :: 0 <= i < |before| && before[i].nodeid == node ==> mid[i] == before[i]
    ensures |after| == |before| && StoppedWithin(ops, before, after, node, change)
    ensures forall i :: 0 <= i < |before| && before[i].nodeid != node ==> after[i] == mid[i]
    ensures forall i :: 0 <= i < |before| ==> after[i].nodeid == before[i].nodeid
  {
    if node <= UNCORE_MAX_SOCKET && HasImc(before, node) {
      var k :| 0 <= k < |before| && before[k].nodeid == node;
      assert mid[k].nodeid == node;
      assert AnyRefuses(ops, mid, node, change);
      var n :| 0 < n <= |mid| && FirstRefusal(ops, mid, after, node, change, ret, n);
      assert FirstToRefuse(ops, before, node, change, n - 1) by {
        assert forall i :: 0 <= i < n ==>
          (Refuses(ops, before[i], node, change) <==> Refuses(ops, mid[i], node, change));
      }
    }
  }

  /** What enabling everything can have done to one controller: nothing, success, or one
      of the ways the two rollbacks overlap. */
  predicate Toggled(ops: ImcOps, before: Imc, after: Imc) {
    || after == before
    || after == On(ops, before)
    || RolledBack(ops, before, after)
    || RolledBack(ops, Off(ops, before), after)
    || after == Off(ops, Off(ops, On(ops, before)))
  }

  /** Three stages of a failed walk over all nodes: what was done, the failing node's own
      rollback, and the final rollback of everything. */
  lemma RollbackComposes(ops: ImcOps, nodes: seq<nat>, n: nat, a: seq<Imc>, b: seq<Imc>, c: seq<Imc>, d: seq<Imc>)
    requires Lawful(ops) && Ascending(nodes) && n < |nodes|
    requires ChangedOn(ops, a, b, nodes[..n], TurnOn)
    requires |c| == |d| == |a|
    requires forall i :: 0 <= i < |a| ==>
      if Reachable(b[i], [nodes[n]]) then RolledBack(ops, b[i], c[i]) else c[i] == b[i]
    requires forall i :: 0 <= i < |a| ==> d[i] == if Reachable(c[i], nodes) then Off(ops, c[i]) else c[i]
    requires AllReady(ops, a, nodes[..n], TurnOn)
    ensures forall i :: 0 <= i < |a| ==> Toggled(ops, a[i], d[i]) && d[i].nodeid == a[i].nodeid
    ensures forall i :: 0 <= i < |a| ==> if Reachable(a[i], nodes) then AllOff(d[i]) else d[i] == a[i]
  {
    forall i | 0 <= i < |a|
      ensures Toggled(ops, a[i], d[i]) && d[i].nodeid == a[i].nodeid
      ensures if Reachable(a[i], nodes) then AllOff(d[i]) else d[i] == a[i]
    {
      assert nodes[n] !in nodes[..n];
      assert b[i].nodeid == a[i].nodeid == c[i].nodeid;
      if a[i].nodeid in nodes[..n] {
        assert Reachable(a[i], nodes);
      }
    }
  }

  class ImcLayer {
    const ops: ImcOps
    const online: seq<nat>
    var imcs: seq<Imc>

    constructor (ops: ImcOps, online: seq<nat>, imcs: seq<Imc>)
      ensures this.ops == ops && this.online == online && this.imcs == imcs
    {
      this.ops, this.online, this.imcs := ops, online, imcs;
    }

    /** uncore_imc_set_threshold. */
    method SetThreshold(node: nat, threshold: nat) returns (ret: int)
      modifies this`imcs
      ensures Walked(ops, old(imcs), imcs, node, SetTo(threshold), ret)
    {
      ret := ENXIO;
      if node > UNCORE_MAX_SOCKET { return EINVAL; }
      for i := 0 to |imcs|
        invariant ChangedUpTo(ops, old(imcs), imcs, node, SetTo(threshold), i)
        invariant forall k :: 0 <= k < i ==> !Refuses(ops, old(imcs)[k], node, SetTo(threshold))
        invariant ret == if exists k :: 0 <= k < i && old(imcs)[k].nodeid == node then 0 else ENXIO
      {
        if imcs[i].nodeid == node {
          ret := ops.setThreshold(imcs[i], threshold).1;
          imcs := imcs[i := imcs[i].(words := ops.setThreshold(imcs[i], threshold).0)];
          if ret != 0 {
            assert Refuses(ops, old(imcs)[i], node, SetTo(threshold));
            assert FirstRefusal(ops, old(imcs), imcs, node, SetTo(threshold), ret, i + 1);
            return;
          }
        }
      }
    }

    /** uncore_imc_disable_throttle. */
    method DisableThrottle(node: nat)
      modifies this`imcs
      ensures ChangedUpTo(ops, old(imcs), imcs, node, TurnOff, if node > UNCORE_MAX_SOCKET then 0 else |imcs|)
    {
      if node > UNCORE_MAX_SOCKET { return; }
      for i := 0 to |imcs|
        invariant ChangedUpTo(ops, old(imcs), imcs, node, TurnOff, i)
      {
        if imcs[i].nodeid == node {
          imcs := imcs[i := imcs[i].(words := ops.disableThrottle(imcs[i]))];
        }
      }
    }

    /** uncore_imc_enable_throttle: all of the node's controllers, or a rollback of every
        one of them, including those the walk had not reached. */
    method EnableThrottle(node: nat) returns (ret: int)
      modifies this`imcs
      ensures EnabledOrNot(ops, old(imcs), imcs, node, ret)
      ensures Lawful(ops) && ret != 0 ==>
        (SameBits(old(imcs), imcs, node) <==> node > UNCORE_MAX_SOCKET || NodeOff(old(imcs), node))
    {
      hide SameBits, NodeOff, Lawful, RolledBackAt;
      ret := ENXIO;
      if node > UNCORE_MAX_SOCKET {
        Untouched(imcs, node);
        return EINVAL;
      }
      for i := 0 to |imcs|
        invariant ChangedUpTo(ops, old(imcs), imcs, node, TurnOn, i)
        invariant forall k :: 0 <= k < i ==> !Refuses(ops, old(imcs)[k], node, TurnOn)
        invariant ret == if exists k :: 0 <= k < i && old(imcs)[k].nodeid == node then 0 else ENXIO
      {
        if imcs[i].nodeid == node {
          ret := ops.enableThrottle(imcs[i]).1;
          imcs := imcs[i := imcs[i].(words := ops.enableThrottle(imcs[i]).0)];
          if ret != 0 {
            assert FirstToRefuse(ops, old(imcs), node, TurnOn, i);
            ghost var mid := imcs;
            DisableThrottle(node);
            RollbackDone(ops, old(imcs), mid, imcs, node, i);
            return;
          }
        }
      }
      if !HasImc(old(imcs), node) {
        NodeWithoutBits(old(imcs), imcs, node);
      }
    }

    /** uncore_imc_disable_throttle_all. */
    method DisableThrottleAll()
      requires Ascending(online)
      modifies this`imcs
      ensures |imcs| == |old(imcs)|
      ensures forall i :: 0 <= i < |imcs| ==>
        imcs[i] == if Reachable(old(imcs)[i], online) then Changed(ops, old(imcs)[i], TurnOff) else old(imcs)[i]
    {
      for n := 0 to |online|
        invariant |imcs| == |old(imcs)|
        invariant forall i :: 0 <= i < |imcs| ==>
          imcs[i] == if Reachable(old(imcs)[i], online[..n]) then Changed(ops, old(imcs)[i], TurnOff) else old(imcs)[i]
      {
        DisableThrottle(online[n]);
      }
    }

    /** uncore_imc_enable_throttle_all, for any device list and any pattern of failures: it
        succeeds exactly when every online node is ready, and then every one of their
        controllers is on; otherwise none is. Controllers elsewhere are never touched. */
    method EnableThrottleAll() returns (ret: int)
      requires Lawful(ops) && Ascending(online)
      modifies this`imcs
      ensures |imcs| == |old(imcs)|
      ensures ret == 0 <==> online != [] && AllReady(ops, old(imcs), online, TurnOn)
      ensures ret == 0 ==> ChangedOn(ops, old(imcs), imcs, online, TurnOn)
      ensures ret == 0 ==> forall i :: 0 <= i < |imcs| && imcs[i].nodeid in online ==> AllOn(imcs[i])
      ensures ret != 0 ==> forall i :: 0 <= i < |imcs| && Reachable(imcs[i], online) ==> AllOff(imcs[i])
      ensures forall i :: 0 <= i < |imcs| ==> Toggled(ops, old(imcs)[i], imcs[i])
      ensures forall i :: 0 <= i < |imcs| ==> imcs[i].nodeid == old(imcs)[i].nodeid
      ensures forall i :: 0 <= i < |imcs| && !Reachable(imcs[i], online) ==> imcs[i] == old(imcs)[i]
    {
      ret := ENXIO;
      for n := 0 to |online|
        invariant ChangedOn(ops, old(imcs), imcs, online[..n], TurnOn)
        invariant AllReady(ops, old(imcs), online[..n], TurnOn)
        invariant ret == if n == 0 then ENXIO else 0
      {
        assert online[n] !in online[..n];
        UntouchedNode(ops, old(imcs), imcs, online[..n], online[n], TurnOn);
        ghost var before := imcs;
        ret := EnableThrottle(online[n]);
        EnableOutcome(ops, before, imcs, online[n], ret);
        if ret != 0 {
          assert !AllReady(ops, old(imcs), online, TurnOn);
          ghost var failed := imcs;
          DisableThrottleAll();
          RollbackComposes(ops, online, n, old(imcs), before, failed, imcs);
          return;
        }
        assert online[..n + 1] == online[..n] + [online[n]];
      }
      assert online[..|online|] == online;
    }

    /** uncore_imc_set_threshold_all: the nodes before the first failing one are set; that
        one is set up to where its own walk stopped, and the later ones keep what they had. */
    method SetThresholdAll(threshold: nat) returns (ret: int)
      requires Ascending(online)
      modifies this`imcs
      ensures ret == 0 <==> online != [] && AllReady(ops, old(imcs), online, SetTo(threshold))
      ensures ret == 0 ==> ChangedOn(ops, old(imcs), imcs, online, SetTo(threshold))
      ensures |imcs| == |old(imcs)| && forall i :: 0 <= i < |imcs| ==> imcs[i].nodeid == old(imcs)[i].nodeid
      ensures ret != 0 ==>
        exists n :: 0 <= n <= |online| && SetBefore(ops, online, old(imcs), imcs, threshold, n)
    {
      hide Walked, StoppedWithin, HasImc, AnyRefuses;
      ret := ENXIO;
      for n := 0 to |online|
        invariant ChangedOn(ops, old(imcs), imcs, online[..n], SetTo(threshold))
        invariant AllReady(ops, old(imcs), online[..n], SetTo(threshold))
        invariant ret == if n == 0 then ENXIO else 0
      {
        assert online[n] !in online[..n];
        UntouchedNode(ops, old(imcs), imcs, online[..n], online[n], SetTo(threshold));
        ghost var mid := imcs;
        ret := SetThreshold(online[n], threshold);
        WalkOutcome(ops, mid, imcs, online[n], SetTo(threshold), ret);
        if ret != 0 {
          WalkStopped(ops, old(imcs), mid, imcs, online[n], SetTo(threshold), ret);
          assert !AllReady(ops, old(imcs), online, SetTo(threshold));
          assert [online[n]][0] == online[n];
          assert SetBefore(ops, online, old(imcs), imcs, threshold, n);
          return;
        }
        assert online[..n + 1] == online[..n] + [online[n]];
      }
      assert online[..|online|] == online;
      assert online == [] ==> SetBefore(ops, online, old(imcs), imcs, threshold, 0);
    }
  }

  /** A node of two controllers, the first of which refuses and the second of which was
      enabled before: asking for what is half done already undoes it. */
  method RollbackTurnsOff() returns (ret: int, before: seq<Imc>, after: seq<Imc>)
    ensures ret == -5 && |before| == |after| == 2
    ensures AllOn(before[1]) && AllOff(after[1])
  {
    var ops := ImcOps(
      (imc: Imc, t) => (Each(imc.words, SetTo(t)), 0),
      (imc: Imc) => if imc.dev == 0 then (imc.words, -5) else (Each(imc.words, TurnOn), 0),
      (imc: Imc) => Each(imc.words, TurnOff));
    before := [Imc(0, 0, [0x0fff, 0x0fff, 0x0fff]), Imc(0, 1, [0x8fff, 0x8fff, 0x8fff])];
    var layer := new ImcLayer(ops, [0], before);
    assert Refuses(ops, before[0], 0, TurnOn);
    ret := layer.EnableThrottle(0);
    after := layer.imcs;
    EnableOutcome(ops, before, after, 0, ret);
  }
}
