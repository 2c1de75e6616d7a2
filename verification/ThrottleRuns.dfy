/** What any history of throttling requests leaves in the registers of a Haswell-EP, and
    the bandwidth knob of uncore_proc.c and emulate_nvm.c on top of it. */
module ThrottleRuns {
  import opened Kernel
  import opened ImcDevice
  import opened ImcThrottle

  /** One successful node-wide request. */
  datatype Request = Request(node: nat, change: Change)

  function Apply(imcs: seq<Imc>, r: Request): (after: seq<Imc>)
    ensures |after| == |imcs|
    ensures forall i :: 0 <= i < |imcs| ==> after[i] == ApplyTo(imcs[i], r)
  {
    seq(|imcs|, i requires 0 <= i < |imcs| => ApplyTo(imcs[i], r))
  }

  function ApplyTo(imc: Imc, r: Request): Imc {
    if imc.nodeid == r.node <= UNCORE_MAX_SOCKET then imc.(words := Each(imc.words, r.change)) else imc
  }

  function ApplyAll(imcs: seq<Imc>, rs: seq<Request>): (after: seq<Imc>)
    ensures |after| == |imcs|
  {
    if rs == [] then imcs else Apply(ApplyAll(imcs, rs[..|rs| - 1]), rs[|rs| - 1])
  }

  /** A walk of ImcThrottle over devices that cannot fail is one such request. */
  lemma WalkIsApply(before: seq<Imc>, after: seq<Imc>, node: nat, change: Change, ret: int)
    requires Walked(HswepOps(), before, after, node, change, ret)
    ensures after == Apply(before, Request(node, change))
    ensures ret == if node > UNCORE_MAX_SOCKET then EINVAL else if HasImc(before, node) then 0 else ENXIO
  {
    assert !AnyRefuses(HswepOps(), before, node, change);
  }

  /** Whichever operation of the layer serves a request, its whole effect is Apply. */
  method Serve(layer: ImcLayer, r: Request) returns (ret: int)
    requires layer.ops == HswepOps()
    modifies layer`imcs
    ensures layer.imcs == Apply(old(layer.imcs), r)
    ensures !r.change.TurnOff? ==>
      ret == if r.node > UNCORE_MAX_SOCKET then EINVAL else if HasImc(old(layer.imcs), r.node) then 0 else ENXIO
  {
    ghost var before := layer.imcs;
    match r.change {
      case SetTo(threshold) =>
        ret := layer.SetThreshold(r.node, threshold);
        WalkIsApply(before, layer.imcs, r.node, r.change, ret);
      case TurnOn =>
        ret := layer.EnableThrottle(r.node);
        assert !AnyRefuses(HswepOps(), before, r.node, TurnOn);
        EnableOutcome(HswepOps(), before, layer.imcs, r.node, ret);
      case TurnOff =>
        layer.DisableThrottle(r.node);
        ret := 0;
    }
  }

  // ---------- The abstract state of a node ----------

  /** The two things a caller controls on a node. */
  datatype Setting = Setting(enabled: bool, limit: Word)

  function View(w: Word): Setting {
    Setting(EnableBit(w), Limit(w))
  }

  /** What a request means, with no reference to words or masks. */
  function Update(s: Setting, change: Change): Setting {
    match change
    case SetTo(t) => s.(limit := Code(t))
    case TurnOn => s.(enabled := true)
    case TurnOff => s.(enabled := false)
  }

  function UpdateAll(s: Setting, node: nat, rs: seq<Request>): Setting {
    if rs == [] then s
    else
      var before := UpdateAll(s, node, rs[..|rs| - 1]);
      var r := rs[|rs| - 1];
      if r.node == node <= UNCORE_MAX_SOCKET then Update(before, r.change) else before
  }

  /** The registers refine the abstract state, over every history of requests: each of
      the three words is the enable bit and the limit of its node's setting, and requests
      for other nodes leave it alone. */
  lemma {:induction false} RegistersRefine(imcs: seq<Imc>, rs: seq<Request>, i: nat, k: nat)
    requires i < |imcs| && k < 3
    ensures var after := ApplyAll(imcs, rs)[i];
            && after.nodeid == imcs[i].nodeid
            && View(after.words[k]) == UpdateAll(View(imcs[i].words[k]), imcs[i].nodeid, rs)
  {
    if rs != [] {
      var r := rs[|rs| - 1];
      RegistersRefine(imcs, rs[..|rs| - 1], i, k);
      var before := ApplyAll(imcs, rs[..|rs| - 1]);
      WordRefines(before[i].words, r.change, k);
      assert ApplyAll(imcs, rs)[i] == ApplyTo(before[i], r);
      hide Each, View, Update;
    }
  }

  lemma WordRefines(words: Words, change: Change, k: nat)
    requires k < 3
    ensures View(Each(words, change)[k]) == Update(View(words[k]), change)
  {
    WordHalves(words[k], if change.SetTo? then change.threshold else 0);
  }

  /** Only the last ratio and the last enable or disable of a node matter. */
  lemma LastRequestsDecide(s: Setting, node: nat, rs: seq<Request>, a: nat, b: nat)
    requires node <= UNCORE_MAX_SOCKET && a < |rs| && b < |rs|
    requires rs[a].node == node && rs[a].change.SetTo?
    requires rs[b].node == node && !rs[b].change.SetTo?
    requires forall j :: a < j < |rs| && rs[j].node == node ==> !rs[j].change.SetTo?
    requires forall j :: b < j < |rs| && rs[j].node == node ==> rs[j].change.SetTo?
    ensures UpdateAll(s, node, rs) == Setting(rs[b].change.TurnOn?, Code(rs[a].change.threshold))
  {
    LimitDecided(s, node, rs, a);
    EnableDecided(s, node, rs, b);
  }

  lemma {:induction false} LimitDecided(s: Setting, node: nat, rs: seq<Request>, a: nat)
    requires node <= UNCORE_MAX_SOCKET && a < |rs| && rs[a].node == node && rs[a].change.SetTo?
    requires forall j :: a < j < |rs| && rs[j].node == node ==> !rs[j].change.SetTo?
    ensures UpdateAll(s, node, rs).limit == Code(rs[a].change.threshold)
  {
    if a < |rs| - 1 {
      LimitDecided(s, node, rs[..|rs| - 1], a);
    }
  }

  lemma {:induction false} EnableDecided(s: Setting, node: nat, rs: seq<Request>, b: nat)
    requires node <= UNCORE_MAX_SOCKET && b < |rs| && rs[b].node == node && !rs[b].change.SetTo?
    requires forall j :: b < j < |rs| && rs[j].node == node ==> rs[j].change.SetTo?
    ensures UpdateAll(s, node, rs).enabled == rs[b].change.TurnOn?
  {
    if b < |rs| - 1 {
      EnableDecided(s, node, rs[..|rs| - 1], b);
    }
  }

  /** So after any history with a ratio and an enable or disable in it, a word is exactly
      the last of each, joined. */
  lemma HistoryDecidesWords(imcs: seq<Imc>, rs: seq<Request>, i: nat, k: nat, a: nat, b: nat)
    requires i < |imcs| && k < 3 && imcs[i].nodeid <= UNCORE_MAX_SOCKET && a < |rs| && b < |rs|
    requires rs[a].node == imcs[i].nodeid && rs[a].change.SetTo?
    requires rs[b].node == imcs[i].nodeid && !rs[b].change.SetTo?
    requires forall j :: a < j < |rs| && rs[j].node == imcs[i].nodeid ==> !rs[j].change.SetTo?
    requires forall j :: b < j < |rs| && rs[j].node == imcs[i].nodeid ==> rs[j].change.SetTo?
    ensures ApplyAll(imcs, rs)[i].words[k] == Join(rs[b].change.TurnOn?, Code(rs[a].change.threshold))
  {
    RegistersRefine(imcs, rs, i, k);
    LastRequestsDecide(View(imcs[i].words[k]), imcs[i].nodeid, rs, a, b);
    WordHalves(ApplyAll(imcs, rs)[i].words[k], 0);
    hide ApplyAll, UpdateAll;
  }

  /** Setting a ratio commutes with enabling and disabling, on any pair of nodes. */
  lemma SetCommutes(imcs: seq<Imc>, n1: nat, t: nat, n2: nat, onOff: Change)
    requires !onOff.SetTo?
    ensures Apply(Apply(imcs, Request(n1, SetTo(t))), Request(n2, onOff))
         == Apply(Apply(imcs, Request(n2, onOff)), Request(n1, SetTo(t)))
  {
    forall i | 0 <= i < |imcs|
      ensures ApplyTo(ApplyTo(imcs[i], Request(n1, SetTo(t))), Request(n2, onOff))
           == ApplyTo(ApplyTo(imcs[i], Request(n2, onOff)), Request(n1, SetTo(t)))
    {
      EachCommutes(imcs[i].words, t, onOff);
    }
  }

  lemma EachCommutes(words: Words, t: nat, onOff: Change)
    requires !onOff.SetTo?
    ensures Each(Each(words, SetTo(t)), onOff) == Each(Each(words, onOff), SetTo(t))
  {
    forall k | 0 <= k < 3
      ensures ChangeWord(ChangeWord(words[k], SetTo(t)), onOff) == ChangeWord(ChangeWord(words[k], onOff), SetTo(t))
    {
      WordHalves(words[k], t);
      WordHalves(ChangeWord(words[k], SetTo(t)), t);
      WordHalves(ChangeWord(words[k], onOff), t);
    }
  }

  // ---------- The user's knob ----------

  /** The limit in force on a node is the one a ratio asks for. */
  predicate InForce(imcs: seq<Imc>, node: nat, ratio: nat) {
    forall i, k :: 0 <= i < |imcs| && imcs[i].nodeid == node && 0 <= k < 3 ==> Limit(imcs[i].words[k]) == Code(ratio)
  }

  lemma OnOffKeepLimit(imc: Imc, k: nat)
    requires k < 3
    ensures Limit(On(HswepOps(), imc).words[k]) == Limit(imc.words[k])
    ensures Limit(Off(HswepOps(), imc).words[k]) == Limit(imc.words[k])
  {
    WordHalves(imc.words[k], 0);
  }

  lemma ToggleKeepsLimit(before: Imc, after: Imc, k: nat)
    requires k < 3 && Toggled(HswepOps(), before, after)
    ensures Limit(after.words[k]) == Limit(before.words[k])
  {
    OnOffKeepLimit(before, k);
    OnOffKeepLimit(Off(HswepOps(), before), k);
    OnOffKeepLimit(On(HswepOps(), before), k);
    OnOffKeepLimit(Off(HswepOps(), On(HswepOps(), before)), k);
    hide HswepOps, Changed, Limit;
  }

  lemma ApplyInForce(imcs: seq<Imc>, node: nat, ratio: nat)
    requires node <= UNCORE_MAX_SOCKET
    ensures InForce(Apply(imcs, Request(node, SetTo(ratio))), node, ratio)
  {
    var after := Apply(imcs, Request(node, SetTo(ratio)));
    forall i, k | 0 <= i < |after| && after[i].nodeid == node && 0 <= k < 3
      ensures Limit(after[i].words[k]) == Code(ratio)
    {
      assert after[i] == ApplyTo(imcs[i], Request(node, SetTo(ratio)));
      WordHalves(imcs[i].words[k], ratio);
    }
  }

  /** The limits behind the three ratios, each smaller than the one before. */
  lemma LimitsAre(imcs: seq<Imc>, ratio: nat)
    requires InForce(imcs, 0, ratio) && InForce(imcs, 1, ratio)
    ensures forall i, k :: 0 <= i < |imcs| && imcs[i].nodeid < 2 && 0 <= k < 3 ==>
      imcs[i].words[k] % 0x8000 == if ratio == 4 then 0x007f else if ratio == 2 then 0x00ff else 0x0fff
  {
    forall i, k | 0 <= i < |imcs| && imcs[i].nodeid < 2 && 0 <= k < 3
      ensures Limit(imcs[i].words[k]) == Code(ratio)
    {
      assert InForce(imcs, imcs[i].nodeid, ratio);
    }
  }

  lemma ChangedInForce(imc: Imc, ratio: nat, k: nat)
    requires k < 3
    ensures Limit(Changed(HswepOps(), imc, SetTo(ratio)).words[k]) == Code(ratio)
  {
    WordHalves(imc.words[k], ratio);
  }

  predicate SameLimits(before: seq<Imc>, after: seq<Imc>, node: nat) {
    && |after| == |before|
    && forall i, k :: 0 <= i < |before| && before[i].nodeid == node && 0 <= k < 3 ==>
         Limit(after[i].words[k]) == Limit(before[i].words[k])
  }

  /** A walk over all nodes gets past the first n of them. */
  predicate GetsPast(imcs: seq<Imc>, nodes: seq<nat>, n: nat)
    requires n <= |nodes|
  {
    forall j :: 0 <= j < n ==> nodes[j] <= UNCORE_MAX_SOCKET && HasImc(imcs, nodes[j])
  }

  /** Setting every node, seen from one of them: its limit is in force if every earlier
      node has a controller; otherwise it was never reached. */
  lemma NodeSet(nodes: seq<nat>, before: seq<Imc>, after: seq<Imc>, ratio: nat, done: bool, n: nat)
    requires Ascending(nodes) && n < |nodes|
    requires done ==>
      && ChangedOn(HswepOps(), before, after, nodes, SetTo(ratio))
      && AllReady(HswepOps(), before, nodes, SetTo(ratio))
    requires !done ==>
      && !AllReady(HswepOps(), before, nodes, SetTo(ratio))
      && exists m :: 0 <= m <= |nodes| && SetBefore(HswepOps(), nodes, before, after, ratio, m)
    ensures GetsPast(before, nodes, n) && nodes[n] <= UNCORE_MAX_SOCKET ==> InForce(after, nodes[n], ratio)
    ensures !(GetsPast(before, nodes, n) && nodes[n] <= UNCORE_MAX_SOCKET) ==> SameLimits(before, after, nodes[n])
  {
    assert |after| == |before|;
    forall i, k | 0 <= i < |after| && 0 <= k < 3
      ensures Limit(Changed(HswepOps(), before[i], SetTo(ratio)).words[k]) == Code(ratio)
    {
      ChangedInForce(before[i], ratio, k);
    }
    hide Changed, Limit, HswepOps, Code;
    if !done {
      var m :| 0 <= m <= |nodes| && SetBefore(HswepOps(), nodes, before, after, ratio, m);
      assert m < |nodes| by { assert nodes[..|nodes|] == nodes; }
      assert nodes[m] <= UNCORE_MAX_SOCKET ==> !HasImc(before, nodes[m]) by { NotReady(before, nodes[m], ratio); }
      assert forall j :: 0 <= j < m ==> nodes[..m][j] == nodes[j];
    }
  }

  lemma NotReady(before: seq<Imc>, node: nat, ratio: nat)
    ensures node <= UNCORE_MAX_SOCKET && !AllReady(HswepOps(), before, [node], SetTo(ratio)) ==> !HasImc(before, node)
  {
    assert !AnyRefuses(HswepOps(), before, node, SetTo(ratio));
  }

  lemma ToggleKeepsNode(before: seq<Imc>, limited: seq<Imc>, after: seq<Imc>, node: nat, ratio: nat)
    requires |after| == |limited|
    requires forall i :: 0 <= i < |limited| ==>
      Toggled(HswepOps(), limited[i], after[i]) && after[i].nodeid == limited[i].nodeid
    ensures InForce(limited, node, ratio) ==> InForce(after, node, ratio)
    ensures |before| == |limited| && SameLimits(before, limited, node) ==> SameLimits(before, after, node)
  {
    forall i, k | 0 <= i < |limited| && 0 <= k < 3
      ensures Limit(after[i].words[k]) == Limit(limited[i].words[k])
    {
      ToggleKeepsLimit(limited[i], after[i], k);
    }
    hide Toggled, Limit, Code;
  }

  /** The walk over all nodes gets to this one. */
  ghost predicate Gets(imcs: seq<Imc>, nodes: seq<nat>, node: nat) {
    node <= UNCORE_MAX_SOCKET && exists n :: 0 <= n < |nodes| && nodes[n] == node && GetsPast(imcs, nodes, n)
  }

  /** Full circle for one node, on any list of nodes: after setting them all and toggling
      some, a limit is in force exactly if the walk got to the node or it was before. */
  lemma NodeLimited(nodes: seq<nat>, before: seq<Imc>, limited: seq<Imc>, after: seq<Imc>,
                    ratio: nat, done: bool, node: nat)
    requires Ascending(nodes) && |before| == |limited| == |after|
    requires done ==>
      && ChangedOn(HswepOps(), before, limited, nodes, SetTo(ratio))
      && AllReady(HswepOps(), before, nodes, SetTo(ratio))
    requires !done ==>
      && !AllReady(HswepOps(), before, nodes, SetTo(ratio))
      && exists m :: 0 <= m <= |nodes| && SetBefore(HswepOps(), nodes, before, limited, ratio, m)
    requires forall i :: 0 <= i < |limited| ==>
      && Toggled(HswepOps(), limited[i], after[i])
      && after[i].nodeid == limited[i].nodeid == before[i].nodeid
      && (!Reachable(before[i], nodes) ==> after[i] == before[i])
    ensures InForce(after, node, ratio) <==> Gets(before, nodes, node) || InForce(before, node, ratio)
  {
    hide Changed, ChangedOn, Toggled, HswepOps, AllReady, SetBefore, InForce, SameLimits, GetsPast, HasImc;
    if node in nodes {
      var n :| 0 <= n < |nodes| && nodes[n] == node;
      NodeSet(nodes, before, limited, ratio, done, n);
      ToggleKeepsNode(before, limited, after, node, ratio);
    } else {
      assert SameLimits(before, after, node) by { Framed(before, after, node); }
    }
    if SameLimits(before, after, node) {
      SameInForce(before, after, node, ratio);
    }
  }

  lemma Framed(before: seq<Imc>, after: seq<Imc>, node: nat)
    requires |after| == |before|
    requires forall i :: 0 <= i < |before| && before[i].nodeid == node ==> after[i] == before[i]
    ensures SameLimits(before, after, node)
  {
  }

  lemma SameInForce(before: seq<Imc>, after: seq<Imc>, node: nat, ratio: nat)
    requires SameLimits(before, after, node)
    requires forall i :: 0 <= i < |before| ==> after[i].nodeid == before[i].nodeid
    ensures InForce(after, node, ratio) <==> InForce(before, node, ratio)
  {
    hide Limit, Code;
  }

  /** A set walk leaves everything it cannot reach alone. */
  lemma SetFrames(nodes: seq<nat>, before: seq<Imc>, after: seq<Imc>, ratio: nat, done: bool)
    requires |after| == |before|
    requires done ==>
      && ChangedOn(HswepOps(), before, after, nodes, SetTo(ratio))
      && AllReady(HswepOps(), before, nodes, SetTo(ratio))
    requires !done ==>
      && !AllReady(HswepOps(), before, nodes, SetTo(ratio))
      && exists m :: 0 <= m <= |nodes| && SetBefore(HswepOps(), nodes, before, after, ratio, m)
    ensures forall i :: 0 <= i < |before| && !Reachable(before[i], nodes) ==> after[i] == before[i]
  {
    if !done {
      var m :| 0 <= m <= |nodes| && SetBefore(HswepOps(), nodes, before, after, ratio, m);
      assert forall j :: 0 <= j < m ==> nodes[..m][j] == nodes[j];
    }
    hide HswepOps, Changed;
  }

  /** Enabling succeeds on every node of these exactly when a walk gets past all of them. */
  lemma ReadyIsPast(before: seq<Imc>, limited: seq<Imc>, nodes: seq<nat>)
    requires |limited| == |before|
    requires forall i :: 0 <= i < |before| ==> limited[i].nodeid == before[i].nodeid
    ensures AllReady(HswepOps(), limited, nodes, TurnOn) <==> GetsPast(before, nodes, |nodes|)
  {
    forall node: nat ensures HasImc(limited, node) <==> HasImc(before, node) {
      if HasImc(before, node) {
        var i :| 0 <= i < |before| && before[i].nodeid == node;
        assert limited[i].nodeid == node;
      }
    }
    assert forall node: nat :: !AnyRefuses(HswepOps(), limited, node, TurnOn);
    hide AnyRefuses, HasImc;
  }

  /** On a machine whose first nodes are the two the knob speaks of. */
  lemma FirstTwo(before: seq<Imc>, after: seq<Imc>, nodes: seq<nat>, ratio: nat)
    requires Ascending(nodes) && |nodes| >= 2 && nodes[0] == 0 && nodes[1] == 1
    requires forall node: nat ::
      InForce(after, node, ratio) <==> Gets(before, nodes, node) || InForce(before, node, ratio)
    ensures InForce(after, 0, ratio) && InForce(after, 1, ratio) <==> HasImc(before, 0) || InForce(before, 1, ratio)
  {
    hide InForce;
    assert GetsPast(before, nodes, 0);
    assert GetsPast(before, nodes, 1) <==> HasImc(before, 0);
    assert forall n :: 0 <= n < |nodes| && nodes[n] == 1 ==> n == 1;
    assert Gets(before, nodes, 0);
    assert Gets(before, nodes, 1) <==> HasImc(before, 0);
  }

  class BandwidthKnob {
    const layer: ImcLayer
    var bwRatio: nat

    /** What /proc shows is what both sockets enforce. */
    ghost predicate Agrees()
      reads this, layer`imcs
    {
      InForce(layer.imcs, 0, bwRatio) && InForce(layer.imcs, 1, bwRatio)
    }

    constructor (layer: ImcLayer)
      ensures this.layer == layer && bwRatio == 1
    {
      this.layer, bwRatio := layer, 1;
    }

    /** start_emulate_bandwidth, both results ignored, on any machine: full bandwidth is in
        force on a node exactly if the first walk gets to it or it had that limit before,
        whatever the second walk does; that one leaves throttling on everywhere if every
        online node has a controller, and off everywhere if one has not. Controllers that
        no walk reaches keep all of their registers. */
    method StartEmulateBandwidth()
      requires layer.ops == HswepOps() && Ascending(layer.online) && bwRatio == 1
      modifies layer`imcs
      ensures |layer.imcs| == |old(layer.imcs)|
      ensures forall i :: 0 <= i < |layer.imcs| ==> layer.imcs[i].nodeid == old(layer.imcs)[i].nodeid
      ensures forall i :: 0 <= i < |layer.imcs| && !Reachable(layer.imcs[i], layer.online) ==>
        layer.imcs[i] == old(layer.imcs)[i]
      ensures forall node: nat ::
        InForce(layer.imcs, node, 1) <==>
          Gets(old(layer.imcs), layer.online, node) || InForce(old(layer.imcs), node, 1)
      ensures forall i :: 0 <= i < |layer.imcs| && Reachable(layer.imcs[i], layer.online) ==>
        if GetsPast(old(layer.imcs), layer.online, |layer.online|)
        then AllOn(layer.imcs[i])
        else AllOff(layer.imcs[i])
      ensures |layer.online| >= 2 && layer.online[0] == 0 && layer.online[1] == 1 ==>
        (Agrees() <==> HasImc(old(layer.imcs), 0) || InForce(old(layer.imcs), 1, 1))
    {
      HswepIsLawful();
      hide HswepOps, Lawful, Toggled, HasImc, AllOn, AllOff, Ascending, Limit, Code;
      ghost var nodes, before := layer.online, layer.imcs;
      var r := layer.SetThresholdAll(1);
      ghost var limited := layer.imcs;
      var _ := layer.EnableThrottleAll();
      hide AllReady, SetBefore, InForce, SameLimits, GetsPast, Gets;
      ReadyIsPast(before, limited, nodes);
      if nodes != [] {
        SetFrames(nodes, before, limited, 1, r == 0);
        forall node: nat
          ensures InForce(layer.imcs, node, 1) <==> Gets(before, nodes, node) || InForce(before, node, 1)
        {
          NodeLimited(nodes, before, limited, layer.imcs, 1, r == 0, node);
        }
      }
      if |nodes| >= 2 && nodes[0] == 0 && nodes[1] == 1 {
        FirstTwo(before, layer.imcs, nodes, 1);
      }
    }

    /** The command switch of uncore_proc_write. Accepted commands make the knob and the
        registers of nodes 0 and 1 agree whatever they held; the rest change nothing. */
    method ProcWrite(command: char, count: nat, offset: nat, copied: bool) returns (accepted: bool)
      requires layer.ops == HswepOps()
      modifies this`bwRatio, layer`imcs
      ensures accepted <==> count == 2 && offset == 0 && copied && command in {'0', '2', '4'}
      ensures !accepted ==> bwRatio == old(bwRatio) && layer.imcs == old(layer.imcs)
      ensures accepted ==> bwRatio == (if command == '2' then 2 else if command == '4' then 4 else 1)
      ensures accepted ==> Agrees()
      ensures accepted ==> forall i, k :: 0 <= i < |layer.imcs| && layer.imcs[i].nodeid < 2 && 0 <= k < 3 ==>
        layer.imcs[i].words[k] % 0x8000 ==
          if command == '4' then 0x007f else if command == '2' then 0x00ff else 0x0fff
      ensures accepted ==>
        layer.imcs == Apply(Apply(old(layer.imcs), Request(0, SetTo(bwRatio))), Request(1, SetTo(bwRatio)))
    {
      hide InForce, Apply, Walked;
      if count != 2 || offset != 0 || !copied { return false; }
      match command {
        case '0' => bwRatio := 1;
        case '2' => bwRatio := 2;
        case '4' => bwRatio := 4;
        case _ => return false;
      }
      var r0 := layer.SetThreshold(0, bwRatio);
      ghost var first := layer.imcs;
      WalkIsApply(old(layer.imcs), first, 0, SetTo(bwRatio), r0);
      var r1 := layer.SetThreshold(1, bwRatio);
      WalkIsApply(first, layer.imcs, 1, SetTo(bwRatio), r1);
      ApplyInForce(old(layer.imcs), 0, bwRatio);
      AgreementSurvives(first, 0, bwRatio, Request(1, SetTo(bwRatio)));
      ApplyInForce(first, 1, bwRatio);
      LimitsAre(layer.imcs, bwRatio);
      accepted := true;
    }
  }

  /** Throttling a node on or off, or touching a third node, never breaks the agreement. */
  lemma AgreementSurvives(imcs: seq<Imc>, node: nat, ratio: nat, r: Request)
    requires InForce(imcs, node, ratio)
    requires r.change.SetTo? ==> r.node != node
    ensures InForce(Apply(imcs, r), node, ratio)
  {
    var after := Apply(imcs, r);
    forall i, k | 0 <= i < |after| && after[i].nodeid == node && 0 <= k < 3
      ensures Limit(after[i].words[k]) == Code(ratio)
    {
      assert after[i] == ApplyTo(imcs[i], r);
      WordHalves(imcs[i].words[k], 0);
    }
  }

  /** A machine whose only controller is on node 1, limited to a quarter: the knob says
      full bandwidth after start-up, the controller does not. */
  method StartWithoutNodeZero() returns (imcs: seq<Imc>, bwRatio: nat)
    ensures bwRatio == 1 && !InForce(imcs, 1, bwRatio)
  {
    var before := [Imc(1, 0, [0x007f, 0x007f, 0x007f])];
    var layer := new ImcLayer(HswepOps(), [0, 1], before);
    var knob := new BandwidthKnob(layer);
    assert !HasImc(before, 0);
    assert Limit(before[0].words[0]) != Code(1);
    assert !InForce(before, 1, 1);
    knob.StartEmulateBandwidth();
    imcs, bwRatio := layer.imcs, knob.bwRatio;
    assert InForce(imcs, 0, 1);
  }
}
