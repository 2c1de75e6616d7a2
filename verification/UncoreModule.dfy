/** Module bring-up and exit of uncore_pmu.c and uncore_imc.c: enumeration of PCI devices
    with their reference counts, allocations that may fail at any point, and the goto
    chain that unwinds them. */
module UncoreModule {
  import opened Kernel
  import opened BoxRegistry
  import opened Enumeration

  function Bump(s: seq<int>, d: nat, k: int): (r: seq<int>)
    requires d < |s|
    ensures |r| == |s|
  {
    s[d := s[d] + k]
  }

  /** The reference an enumeration cursor holds. */
  function One(d: Option<nat>): multiset<nat> {
    if d.None? then multiset{} else multiset{d.value}
  }

  /** Every entry has its device. */
  predicate Backed(boxes: seq<Box>, n: nat) {
    forall i :: 0 <= i < |boxes| ==> boxes[i].pdev.Some? && boxes[i].pdev.value < n
  }

  predicate AllBacked(types: seq<BoxType>, n: nat) {
    forall t :: 0 <= t < |types| ==> Backed(types[t].boxes, n)
  }

  /** The first device from `first` on that the id matches, or the end of the bus. */
  method NextMatch(devs: seq<PciDev>, id: PciId, first: nat) returns (d: nat)
    requires first <= |devs|
    ensures first <= d <= |devs|
    ensures forall k :: first <= k < d ==> !Match(id, devs[k])
    ensures d < |devs| ==> Match(id, devs[d])
    ensures d < |devs| ==> devs[d].vendor == id.vendor && devs[d].device == id.device
    ensures forall k :: first <= k < d ==> devs[k].vendor != id.vendor || devs[k].device != id.device
  {
    d := first;
    while d < |devs| && !Match(id, devs[d])
      invariant first <= d <= |devs|
      invariant forall k :: first <= k < d ==> !Match(id, devs[k])
    {
      d := d + 1;
    }
  }

  class Uncore {
    // The machine: devices in bus order, the node of each bus, and which allocations fail.
    const devs: seq<PciDev>
    const nodeOfBus: seq<int>
    const allocates: nat -> bool
    // The module's tables: ids, and the initial num_boxes of each type.
    const pciIds: seq<PciId>
    const imcIds: seq<PciId>
    const pciTable: seq<nat>
    const msrTable: seq<nat>

    var pciTypes: seq<BoxType>
    var msrTypes: seq<BoxType>
    var imcs: seq<Box>
    var refs: seq<int>
    var live: int
    var allocs: nat

    // The counts before the module was loaded, and the references that no list owns.
    ghost const baseRefs: seq<int>
    ghost const baseLive: int
    ghost var extra: multiset<nat>

    ghost predicate Tables()
    {
      && (forall d :: 0 <= d < |devs| ==> devs[d].bus < |nodeOfBus|)
      && (forall k :: 0 <= k < |pciIds| ==> DevType(pciIds[k]) <= |pciTable|)
    }

    /** Conservation: every reference and every allocation is owned by a list entry. */
    ghost predicate Valid()
      reads this
    {
      && Tables()
      && |refs| == |baseRefs| == |devs|
      && (forall d :: 0 <= d < |devs| ==>
            refs[d] == baseRefs[d] + Count(pciTypes, Some(d)) + CountIn(imcs, Some(d)) + extra[d])
      && AllBacked(pciTypes, |devs|) && Backed(imcs, |devs|)
      && live == baseLive + Count(pciTypes, None) + Count(msrTypes, None) + CountIn(imcs, None)
    }

    /** The two enumerations bring-up makes. */
    ghost function PciHunt(): Hunt {
      Hunt(devs, pciIds, Some(|pciTable|), allocates)
    }

    ghost function ImcHunt(): Hunt {
      Hunt(devs, imcIds, None, allocates)
    }

    ghost predicate Settled()
      reads this
    {
      extra == multiset{}
    }

    ghost predicate NothingHeld()
      reads this
    {
      Empty(pciTypes) && Empty(msrTypes) && imcs == []
    }

    constructor (devs: seq<PciDev>, nodeOfBus: seq<int>, allocates: nat -> bool,
                 pciIds: seq<PciId>, imcIds: seq<PciId>, pciTable: seq<nat>, msrTable: seq<nat>,
                 refs: seq<int>, live: int)
      requires |refs| == |devs|
      requires forall d :: 0 <= d < |devs| ==> devs[d].bus < |nodeOfBus|
      requires forall k :: 0 <= k < |pciIds| ==> DevType(pciIds[k]) <= |pciTable|
      ensures Valid() && Settled() && NothingHeld()
      ensures this.devs == devs && this.pciIds == pciIds && this.imcIds == imcIds && this.nodeOfBus == nodeOfBus
      ensures this.pciTable == pciTable && this.msrTable == msrTable
      ensures this.allocates == allocates && allocs == 0
      ensures this.refs == baseRefs == refs && this.live == baseLive == live
    {
      this.devs, this.nodeOfBus, this.allocates := devs, nodeOfBus, allocates;
      this.pciIds, this.imcIds, this.pciTable, this.msrTable := pciIds, imcIds, pciTable, msrTable;
      pciTypes, msrTypes, imcs := [], [], [];
      this.refs, this.live, allocs := refs, live, 0;
      baseRefs, baseLive, extra := refs, live, multiset{};
    }

    method PutDevice(d: nat)
      requires Valid() && d < |devs| && d in extra
      modifies this`refs, this`extra
      ensures Valid() && extra == old(extra) - multiset{d}
    {
      hide Count, CountIn, AllBacked, Backed;
      refs, extra := Bump(refs, d, -1), extra - multiset{d};
    }

    /** get_device, called by hand on every device found. */
    method GetDevice(d: nat)
      requires Valid() && d < |devs|
      modifies this`refs, this`extra
      ensures Valid() && extra == old(extra) + multiset{d}
    {
      hide Count, CountIn, AllBacked, Backed;
      refs, extra := Bump(refs, d, 1), extra + multiset{d};
    }

    /** pci_get_device: drops the reference on `from` and takes one on the result. */
    method PciGetDevice(id: PciId, from: Option<nat>) returns (next: Option<nat>)
      requires Valid() && (from.Some? ==> from.value < |devs| && from.value in extra)
      modifies this`refs, this`extra
      ensures Valid()
      ensures next.Some? ==> next.value < |devs| && Match(id, devs[next.value])
      ensures extra == old(extra) - One(from) + One(next)
      ensures var first := if from.None? then 0 else from.value + 1;
              first <= Reach(next) <= |devs| && forall d :: first <= d < Reach(next) ==> !Match(id, devs[d])
    {
      hide Valid;
      var d := NextMatch(devs, id, if from.None? then 0 else from.value + 1);
      if from.Some? {
        PutDevice(from.value);
      }
      next := None;
      if d < |devs| {
        next := Some(d);
        GetDevice(d);
      }
    }

    /** uncore_pci_new_box: the new entry takes over one reference of the device. */
    method PciNewBox(pdev: nat, id: PciId) returns (ret: int)
      requires Valid() && pdev < |devs| && pdev in extra && DevType(id) <= |pciTypes|
      requires forall t :: 0 <= t < |pciTypes| ==> InOrder(pciTypes[t])
      modifies this`pciTypes, this`live, this`allocs, this`extra
      ensures Valid()
      ensures ret == (if DevType(id) == |old(pciTypes)| then EFAULT
                      else if !allocates(old(allocs)) then ENOMEM else 0)
      ensures allocs == old(allocs) + (if DevType(id) == |old(pciTypes)| then 0 else 1)
      ensures ret == 0 ==>
        && DevType(id) < |old(pciTypes)|
        && (var t := DevType(id);
            pciTypes == old(pciTypes)[t := Append(old(pciTypes)[t], nodeOfBus[devs[pdev].bus], Some(pdev))])
        && extra == old(extra) - multiset{pdev}
      ensures ret != 0 ==> pciTypes == old(pciTypes) && extra == old(extra)
    {
      hide Count, CountIn, AllBacked, Backed, Append, InOrder, DevType;
      var t := DevType(id);
      if t == |pciTypes| { return EFAULT; }
      allocs := allocs + 1;
      if !allocates(allocs - 1) { return ENOMEM; }
      live := live + 1;
      var grown := Append(pciTypes[t], nodeOfBus[devs[pdev].bus], Some(pdev));
      GrowthCounts(pciTypes, t, nodeOfBus[devs[pdev].bus], pdev, |devs|);
      pciTypes := pciTypes[t := grown];
      extra := extra - multiset{pdev};
      ret := 0;
    }

    static lemma GrowthCounts(types: seq<BoxType>, t: nat, nodeid: int, pdev: nat, n: nat)
      requires t < |types| && InOrder(types[t]) && AllBacked(types, n) && pdev < n
      ensures var after := types[t := Append(types[t], nodeid, Some(pdev))];
              && AllBacked(after, n)
              && Count(after, None) == Count(types, None) + 1
              && forall d: nat :: Count(after, Some(d)) == Count(types, Some(d)) + (if d == pdev then 1 else 0)
    {
      var grown := Append(types[t], nodeid, Some(pdev));
      var b := Box(|types[t].boxes|, nodeid, Some(pdev));
      AppendKeepsOrder(types[t], nodeid, Some(pdev));
      CountUpdate(types, t, grown, None);
      CountInAppend(types[t].boxes, b, None);
      forall d: nat
        ensures Count(types[t := grown], Some(d)) == Count(types, Some(d)) + (if d == pdev then 1 else 0)
      {
        CountUpdate(types, t, grown, Some(d));
        CountInAppend(types[t].boxes, b, Some(d));
      }
    }

    /** uncore_pci_exit: every entry gives back its reference and its memory. Running it
        again does nothing. */
    method PciExit()
      requires Valid()
      modifies this`pciTypes, this`refs, this`live
      ensures Valid() && Empty(pciTypes)
      ensures old(Empty(pciTypes)) ==> refs == old(refs) && live == old(live) && pciTypes == old(pciTypes)
    {
      hide Valid;
      for t := 0 to |pciTypes|
        invariant Valid() && |pciTypes| == |old(pciTypes)|
        invariant forall i :: 0 <= i < t ==> pciTypes[i].boxes == []
        invariant old(Empty(pciTypes)) ==> refs == old(refs) && live == old(live) && pciTypes == old(pciTypes)
      {
        while pciTypes[t].boxes != []
          invariant Valid() && |pciTypes| == |old(pciTypes)|
          invariant forall i :: 0 <= i < t ==> pciTypes[i].boxes == []
          invariant old(Empty(pciTypes)) ==> refs == old(refs) && live == old(live) && pciTypes == old(pciTypes)
          decreases |pciTypes[t].boxes|
        {
          DropFirst(t);
        }
      }
    }

    method DropFirst(t: nat)
      requires Valid() && t < |pciTypes| && pciTypes[t].boxes != []
      modifies this`pciTypes, this`refs, this`live
      ensures Valid()
      ensures pciTypes == old(pciTypes)[t := old(pciTypes)[t].(boxes := old(pciTypes)[t].boxes[1..])]
    {
      var box := pciTypes[t].boxes[0];
      var rest := pciTypes[t].(boxes := pciTypes[t].boxes[1..]);
      hide Count, CountIn, AllBacked, Backed;
      ShrinkCounts(pciTypes, t, |devs|);
      pciTypes := pciTypes[t := rest];
      refs := Bump(refs, box.pdev.value, -1);
      live := live - 1;
    }

    static lemma ShrinkCounts(types: seq<BoxType>, t: nat, n: nat)
      requires t < |types| && types[t].boxes != [] && AllBacked(types, n)
      ensures types[t].boxes[0].pdev.Some? && types[t].boxes[0].pdev.value < n
      ensures var after := types[t := types[t].(boxes := types[t].boxes[1..])];
              && AllBacked(after, n)
              && Count(after, None) == Count(types, None) - 1
              && forall d: nat :: Count(after, Some(d))
                                  == Count(types, Some(d)) - (if types[t].boxes[0].pdev == Some(d) then 1 else 0)
    {
      var rest := types[t].(boxes := types[t].boxes[1..]);
      CountUpdate(types, t, rest, None);
      forall d: nat
        ensures Count(types[t := rest], Some(d))
                == Count(types, Some(d)) - (if types[t].boxes[0].pdev == Some(d) then 1 else 0)
      {
        CountUpdate(types, t, rest, Some(d));
      }
    }

    /** Everything the first k ids and, of the next one, the devices before `upTo` gave. */
    ghost predicate Enumerated(types: seq<BoxType>, k: nat, upTo: nat)
      requires k < |pciIds| && upTo <= |devs|
    {
      && |types| == |pciTable|
      && forall t :: 0 <= t < |types| ==>
           && InOrder(types[t])
           && Holds(devs, nodeOfBus, types[t].boxes, FoundUpTo(k, upTo, t))
    }

    ghost function FoundUpTo(k: nat, upTo: nat, t: nat): seq<nat>
      requires k < |pciIds| && upTo <= |devs|
    {
      Found(devs, pciIds[..k], t) + if DevType(pciIds[k]) == t then Matches(devs, pciIds[k], upTo) else []
    }

    ghost predicate FullyEnumerated(types: seq<BoxType>, k: nat)
      requires k <= |pciIds|
    {
      && |types| == |pciTable|
      && forall t :: 0 <= t < |types| ==>
           InOrder(types[t]) && Holds(devs, nodeOfBus, types[t].boxes, Found(devs, pciIds[..k], t))
    }

    lemma NextId(types: seq<BoxType>, k: nat)
      requires k < |pciIds|
      ensures FullyEnumerated(types, k) ==> Enumerated(types, k, 0)
      ensures Enumerated(types, k, |devs|) ==> FullyEnumerated(types, k + 1)
    {
      assert pciIds[..k + 1][..k] == pciIds[..k];
      forall t: nat ensures FoundUpTo(k, 0, t) == Found(devs, pciIds[..k], t) {
      }
    }

    lemma NextDevice(types: seq<BoxType>, k: nat, d: nat)
      requires Tables() && k < |pciIds| && d < |devs| && Enumerated(types, k, d)
      requires Match(pciIds[k], devs[d]) && DevType(pciIds[k]) < |types|
      ensures var t := DevType(pciIds[k]);
              Enumerated(types[t := Append(types[t], nodeOfBus[devs[d].bus], Some(d))], k, d + 1)
    {
      var t := DevType(pciIds[k]);
      var node := nodeOfBus[devs[d].bus];
      var after := types[t := Append(types[t], node, Some(d))];
      AppendKeepsOrder(types[t], node, Some(d));
      assert FoundUpTo(k, d + 1, t) == FoundUpTo(k, d, t) + [d];
      forall u | 0 <= u < |after|
        ensures InOrder(after[u]) && Holds(devs, nodeOfBus, after[u].boxes, FoundUpTo(k, d + 1, u))
      {
        if u != t {
          assert FoundUpTo(k, d + 1, u) == FoundUpTo(k, d, u);
        }
      }
    }

    lemma SkipDevices(types: seq<BoxType>, k: nat, a: nat, b: nat)
      requires k < |pciIds| && a <= b <= |devs| && Enumerated(types, k, a)
      requires forall d :: a <= d < b ==> !Match(pciIds[k], devs[d])
      ensures Enumerated(types, k, b)
    {
      NoMatchBetween(devs, pciIds[k], a, b);
      forall t | 0 <= t < |types| ensures FoundUpTo(k, a, t) == FoundUpTo(k, b, t) {
      }
    }

    lemma TablesHold()
      requires Valid()
      ensures Tables()
    {
    }

    lemma Numbered(types: seq<BoxType>, k: nat, d: nat)
      requires Tables() && k < |pciIds| && d <= |devs| && Enumerated(types, k, d)
      ensures |types| == |pciTable| && DevType(pciIds[k]) <= |types|
      ensures forall t :: 0 <= t < |types| ==> InOrder(types[t])
    {
    }

    /** Where an enumeration stands when its cursor is on this device, or at the end. */
    ghost function Reach(next: Option<nat>): nat {
      if next.None? then |devs| else next.value
    }

    /** The cursor's device gets a reference of its own and a box. */
    method ListOne(k: nat, d: nat, ghost from: nat) returns (ret: int)
      requires Valid() && k < |pciIds| && d < |devs| && Match(pciIds[k], devs[d])
      requires Enumerated(pciTypes, k, d) && extra == multiset{d} && PciHunt().At(k, d, from, allocs)
      modifies this`pciTypes, this`refs, this`live, this`allocs, this`extra
      ensures Valid()
      ensures ret == 0 ==>
        extra == multiset{d} && Enumerated(pciTypes, k, d + 1) && PciHunt().At(k, d + 1, from, allocs)
      ensures ret != 0 ==> PciHunt().Faults(from) && extra == PciHunt().Leak(from) == Twice(d)
    {
      hide Valid, Tables, Enumerated, InOrder, Append, DevType, Match, Hunt.At, Hunt.Leak, Hunt.Faults;
      TablesHold();
      Numbered(pciTypes, k, d);
      GetDevice(d);
      ghost var before, n := pciTypes, allocs;
      ret := PciNewBox(d, pciIds[k]);
      if ret != 0 {
        assert !(PciHunt().Typed(pciIds[k]) && allocates(n));
        PciHunt().NotMade(k, d, from, n);
      } else {
        NextDevice(before, k, d);
        PciHunt().Made(k, d, from, n);
      }
    }

    /** One turn of the inner loop of uncore_pci_init. */
    method EnumerateOne(k: nat, d: nat, ghost from: nat) returns (ret: int, next: Option<nat>)
      requires Valid() && k < |pciIds| && d < |devs| && Match(pciIds[k], devs[d])
      requires Enumerated(pciTypes, k, d) && extra == multiset{d} && PciHunt().At(k, d, from, allocs)
      modifies this`pciTypes, this`refs, this`live, this`allocs, this`extra
      ensures Valid()
      ensures ret != 0 ==> PciHunt().Faults(from) && extra == PciHunt().Leak(from) == Twice(d)
      ensures ret == 0 ==> d < Reach(next) <= |devs| && extra == One(next)
      ensures ret == 0 ==> Enumerated(pciTypes, k, Reach(next)) && PciHunt().At(k, Reach(next), from, allocs)
      ensures ret == 0 && next.Some? ==> next.value < |devs| && Match(pciIds[k], devs[next.value])
    {
      hide Valid, Enumerated, Match, Hunt.At, Hunt.Leak, Hunt.Faults;
      next := None;
      ret := ListOne(k, d, from);
      if ret != 0 { return; }
      next := PciGetDevice(pciIds[k], Some(d));
      SkipDevices(pciTypes, k, d + 1, Reach(next));
      PciHunt().Skip(k, d + 1, Reach(next), from, allocs);
    }

    method EnumerateId(k: nat, ghost from: nat) returns (ret: int)
      requires Valid() && Settled() && k < |pciIds|
      requires Enumerated(pciTypes, k, 0) && PciHunt().At(k, 0, from, allocs)
      modifies this`pciTypes, this`refs, this`live, this`allocs, this`extra
      ensures Valid()
      ensures ret == 0 ==> Settled() && Enumerated(pciTypes, k, |devs|) && PciHunt().At(k, |devs|, from, allocs)
      ensures ret != 0 ==> PciHunt().Faults(from) && extra == PciHunt().Leak(from)
    {
      hide Valid, Enumerated, Hunt.At, Hunt.Leak, Hunt.Faults;
      var pdev: Option<nat> := PciGetDevice(pciIds[k], None);
      SkipDevices(pciTypes, k, 0, Reach(pdev));
      PciHunt().Skip(k, 0, Reach(pdev), from, allocs);
      while pdev.Some?
        invariant Valid() && Reach(pdev) <= |devs|
        invariant pdev.Some? ==> pdev.value < |devs| && Match(pciIds[k], devs[pdev.value])
        invariant extra == One(pdev)
        invariant Enumerated(pciTypes, k, Reach(pdev)) && PciHunt().At(k, Reach(pdev), from, allocs)
        decreases |devs| - Reach(pdev)
      {
        ret, pdev := EnumerateOne(k, pdev.value, from);
        if ret != 0 { return; }
      }
      ret := 0;
    }

    /** uncore_types_init on a fresh table: empty lists cost nothing. */
    method PciTypesInit()
      requires Valid() && Empty(pciTypes)
      modifies this`pciTypes
      ensures Valid() && FullyEnumerated(pciTypes, 0)
    {
      EmptyAlways(pciTypes);
      pciTypes := seq(|pciTable|, t requires 0 <= t < |pciTable| => BoxType([], pciTable[t]));
      EmptyAlways(pciTypes);
    }

    /** uncore_pci_init reaches its id table. */
    predicate PciStarts(model: nat, mapError: int) {
      model == 63 && mapError == 0
    }

    /** uncore_pci_init. It succeeds exactly when it starts and none of its entries faults,
        and then every type lists exactly its devices, in id and bus order, numbered from
        zero; otherwise nothing is listed, and the first device to fault keeps its leak. */
    method PciInit(model: nat, mapError: int) returns (ret: int)
      requires Valid() && Settled() && Empty(pciTypes)
      modifies this`pciTypes, this`refs, this`live, this`allocs, this`extra
      ensures Valid()
      ensures ret == 0 <==> PciStarts(model, mapError) && !PciHunt().Faults(old(allocs))
      ensures ret == 0 ==> FullyEnumerated(pciTypes, |pciIds|) && allocs == old(allocs) + |PciHunt().All()|
      ensures ret != 0 ==> Empty(pciTypes)
      ensures extra == if PciStarts(model, mapError) then PciHunt().Leak(old(allocs)) else multiset{}
    {
      if model != 63 { return ENXIO; }
      if mapError != 0 { return mapError; }
      hide Valid, FullyEnumerated, Empty, PciHunt, Hunt.Past, Hunt.Faults, Hunt.Leak;
      PciHunt().LeakIff(allocs);
      PciTypesInit();
      ret := EnumerateIds();
      if ret != 0 {
        PciExit();
      }
    }

    /** The outer loop of uncore_pci_init. */
    method EnumerateIds() returns (ret: int)
      requires Valid() && Settled() && FullyEnumerated(pciTypes, 0)
      modifies this`pciTypes, this`refs, this`live, this`allocs, this`extra
      ensures Valid()
      ensures ret == 0 <==> !PciHunt().Faults(old(allocs))
      ensures ret == 0 ==>
        && Settled() && FullyEnumerated(pciTypes, |pciIds|)
        && allocs == old(allocs) + |PciHunt().All()|
      ensures ret != 0 ==> extra == PciHunt().Leak(old(allocs))
    {
      PciHunt().PastNone(allocs);
      hide Valid, FullyEnumerated, Enumerated, Hunt.At, Hunt.Past, Hunt.Faults, Hunt.Leak, Hunt.All, Hunt.AllTries;
      for k := 0 to |pciIds|
        invariant Valid() && Settled() && FullyEnumerated(pciTypes, k) && PciHunt().Past(k, old(allocs), allocs)
      {
        NextId(pciTypes, k);
        PciHunt().NextId(k, old(allocs), allocs);
        ret := EnumerateId(k, old(allocs));
        if ret != 0 { return; }
        NextId(pciTypes, k);
        PciHunt().NextId(k, old(allocs), allocs);
      }
      PciHunt().PastAll(old(allocs), allocs);
      ret := 0;
    }

    static lemma EmptyAlways(types: seq<BoxType>)
      requires Empty(types)
      ensures forall who :: Count(types, who) == 0
    {
      forall who ensures Count(types, who) == 0 {
        EmptyCounts(types, who);
      }
    }

    // ---------- MSR boxes ----------

    /** Each MSR type lists one box per index. */
    ghost predicate MsrListed(types: seq<BoxType>, n: nat)
      requires n <= |types|
    {
      forall t :: 0 <= t < n ==>
        && |types[t].boxes| == types[t].numBoxes
        && forall i :: 0 <= i < |types[t].boxes| ==> types[t].boxes[i] == Box(i, 0, None)
    }

    /** uncore_msr_new_box. */
    method MsrNewBox(t: nat, idx: nat) returns (ret: int)
      requires Valid() && t < |msrTypes|
      modifies this`msrTypes, this`live, this`allocs
      ensures Valid()
      ensures ret == (if allocates(old(allocs)) then 0 else ENOMEM) && allocs == old(allocs) + 1
      ensures ret == 0 ==>
        var was := old(msrTypes)[t];
        msrTypes == old(msrTypes)[t := was.(boxes := was.boxes + [Box(idx, 0, None)])]
      ensures ret != 0 ==> msrTypes == old(msrTypes)
    {
      allocs := allocs + 1;
      if !allocates(allocs - 1) { return ENOMEM; }
      live := live + 1;
      var grown := msrTypes[t].(boxes := msrTypes[t].boxes + [Box(idx, 0, None)]);
      CountUpdate(msrTypes, t, grown, None);
      CountInAppend(msrTypes[t].boxes, Box(idx, 0, None), None);
      hide Count, CountIn, AllBacked, Backed;
      msrTypes := msrTypes[t := grown];
      ret := 0;
    }

    /** uncore_cpu_exit. */
    method CpuExit()
      requires Valid()
      modifies this`msrTypes, this`live
      ensures Valid() && Empty(msrTypes)
      ensures old(Empty(msrTypes)) ==> live == old(live) && msrTypes == old(msrTypes)
    {
      for t := 0 to |msrTypes|
        invariant Valid() && |msrTypes| == |old(msrTypes)|
        invariant forall i :: 0 <= i < t ==> msrTypes[i].boxes == []
        invariant old(Empty(msrTypes)) ==> live == old(live) && msrTypes == old(msrTypes)
      {
        while msrTypes[t].boxes != []
          invariant Valid() && |msrTypes| == |old(msrTypes)|
          invariant forall i :: 0 <= i < t ==> msrTypes[i].boxes == []
          invariant old(Empty(msrTypes)) ==> live == old(live) && msrTypes == old(msrTypes)
          decreases |msrTypes[t].boxes|
        {
          var rest := msrTypes[t].(boxes := msrTypes[t].boxes[1..]);
          CountUpdate(msrTypes, t, rest, None);
          assert CountIn(msrTypes[t].boxes, None) == CountIn(rest.boxes, None) + 1;
          hide Count, CountIn, AllBacked, Backed;
          msrTypes := msrTypes[t := rest];
          live := live - 1;
        }
      }
    }

    /** num_boxes of a type once the C-boxes are limited to the number of cores. */
    function NumBoxes(t: nat, maxCores: nat): nat
      requires t < |msrTable|
    {
      if t == 3 && msrTable[t] > maxCores then maxCores else msrTable[t]
    }

    function MsrTotal(n: nat, maxCores: nat): nat
      requires n <= |msrTable|
    {
      if n == 0 then 0 else MsrTotal(n - 1, maxCores) + NumBoxes(n - 1, maxCores)
    }

    lemma {:induction false} MsrTotalGrows(a: nat, b: nat, maxCores: nat)
      requires a <= b <= |msrTable|
      ensures MsrTotal(a, maxCores) <= MsrTotal(b, maxCores)
      decreases b
    {
      if a < b {
        MsrTotalGrows(a, b - 1, maxCores);
      }
    }

    /** The allocations of n entries all succeed. */
    ghost predicate Allocates(from: nat, n: nat) {
      forall at :: from <= at < from + n ==> allocates(at)
    }

    /** uncore_cpu_init: as many boxes of each type as the table says, exactly when the
        model is known and every one of their allocations succeeds. */
    method CpuInit(model: nat, maxCores: nat) returns (ret: int)
      requires Valid() && Empty(msrTypes)
      modifies this`msrTypes, this`live, this`allocs
      ensures Valid()
      ensures ret == 0 <==> model == 63 && Allocates(old(allocs), MsrTotal(|msrTable|, maxCores))
      ensures ret == 0 ==> |msrTypes| == |msrTable| && MsrListed(msrTypes, |msrTypes|)
      ensures ret == 0 ==> forall t :: 0 <= t < |msrTypes| ==> msrTypes[t].numBoxes == NumBoxes(t, maxCores)
      ensures ret == 0 ==> forall t :: 0 <= t < |msrTypes| ==>
        |msrTypes[t].boxes| == if t == 3 && maxCores < msrTable[3] then maxCores else msrTable[t]
      ensures ret == 0 ==> allocs == old(allocs) + MsrTotal(|msrTable|, maxCores)
      ensures ret != 0 ==> Empty(msrTypes)
    {
      if model != 63 { return ENXIO; }
      MsrTypesInit(maxCores);
      hide Valid, NumBoxes, MsrTotal, Allocates, Empty, MsrListed, MsrUpTo;
      for t := 0 to |msrTypes|
        invariant Valid() && |msrTypes| == |msrTable| && MsrUpTo(msrTypes, t, maxCores)
        invariant allocs == old(allocs) + MsrTotal(t, maxCores) && Allocates(old(allocs), MsrTotal(t, maxCores))
      {
        NextMsrTotal(old(allocs), t, maxCores);
        MsrUpToIs(msrTypes, t, maxCores);
        ghost var before := msrTypes;
        ret := MsrTypeInit(t);
        if ret != 0 {
          CpuExit();
          return;
        }
        NextMsrType(before, msrTypes, t, maxCores);
      }
      MsrUpToIs(msrTypes, |msrTypes|, maxCores);
      assert forall t :: 0 <= t < |msrTypes| ==> |msrTypes[t].boxes| == NumBoxes(t, maxCores) by {
        MsrCounts(msrTypes);
      }
      NumBoxesAre(maxCores);
      ret := 0;
    }

    lemma MsrCounts(types: seq<BoxType>)
      requires MsrListed(types, |types|)
      ensures forall t :: 0 <= t < |types| ==> |types[t].boxes| == types[t].numBoxes
    {
    }

    lemma NumBoxesAre(maxCores: nat)
      ensures forall t :: 0 <= t < |msrTable| ==>
        NumBoxes(t, maxCores) == if t == 3 && maxCores < msrTable[3] then maxCores else msrTable[t]
    {
    }

    /** uncore_types_init after hswep_cpu_init has limited the C-boxes. */
    method MsrTypesInit(maxCores: nat)
      requires Valid() && Empty(msrTypes)
      modifies this`msrTypes
      ensures Valid() && |msrTypes| == |msrTable| && MsrUpTo(msrTypes, 0, maxCores)
      ensures MsrTotal(0, maxCores) == 0 && Allocates(allocs, 0)
    {
      EmptyAlways(msrTypes);
      msrTypes := seq(|msrTable|, t requires 0 <= t < |msrTable| => BoxType([], NumBoxes(t, maxCores)));
      EmptyAlways(msrTypes);
    }

    lemma MsrUpToIs(types: seq<BoxType>, t: nat, maxCores: nat)
      requires MsrUpTo(types, t, maxCores)
      ensures |types| == |msrTable| && t <= |types| && MsrListed(types, t)
      ensures forall u :: 0 <= u < |types| ==> types[u].numBoxes == NumBoxes(u, maxCores)
      ensures t < |types| ==> types[t].boxes == []
    {
    }

    /** The first t types have all of their boxes, the others none. */
    ghost predicate MsrUpTo(types: seq<BoxType>, t: nat, maxCores: nat) {
      && |types| == |msrTable| && t <= |types|
      && (forall u :: 0 <= u < |types| ==> types[u].numBoxes == NumBoxes(u, maxCores))
      && (forall u :: t <= u < |types| ==> types[u].boxes == [])
      && MsrListed(types, t)
    }

    lemma NextMsrTotal(from: nat, t: nat, maxCores: nat)
      requires t < |msrTable| && Allocates(from, MsrTotal(t, maxCores))
      ensures MsrTotal(t + 1, maxCores) == MsrTotal(t, maxCores) + NumBoxes(t, maxCores)
      ensures Allocates(from + MsrTotal(t, maxCores), NumBoxes(t, maxCores)) ==>
        Allocates(from, MsrTotal(t + 1, maxCores))
      ensures !Allocates(from + MsrTotal(t, maxCores), NumBoxes(t, maxCores)) ==>
        !Allocates(from, MsrTotal(|msrTable|, maxCores))
    {
      MsrTotalGrows(t + 1, |msrTable|, maxCores);
    }

    lemma NextMsrType(before: seq<BoxType>, after: seq<BoxType>, t: nat, maxCores: nat)
      requires t < |msrTable| && MsrUpTo(before, t, maxCores)
      requires |after| == |before| && forall u :: 0 <= u < |after| && u != t ==> after[u] == before[u]
      requires after[t].numBoxes == before[t].numBoxes == |after[t].boxes|
      requires forall i :: 0 <= i < |after[t].boxes| ==> after[t].boxes[i] == Box(i, 0, None)
      ensures MsrUpTo(after, t + 1, maxCores)
    {
    }

    /** One type's boxes, one for every index. */
    method MsrTypeInit(t: nat) returns (ret: int)
      requires Valid() && t < |msrTypes| && msrTypes[t].boxes == []
      modifies this`msrTypes, this`live, this`allocs
      ensures Valid() && |msrTypes| == |old(msrTypes)|
      ensures forall u :: 0 <= u < |msrTypes| && u != t ==> msrTypes[u] == old(msrTypes)[u]
      ensures msrTypes[t].numBoxes == old(msrTypes)[t].numBoxes
      ensures ret == 0 <==> Allocates(old(allocs), msrTypes[t].numBoxes)
      ensures ret == 0 ==>
        && |msrTypes[t].boxes| == msrTypes[t].numBoxes
        && allocs == old(allocs) + msrTypes[t].numBoxes
        && forall i :: 0 <= i < |msrTypes[t].boxes| ==> msrTypes[t].boxes[i] == Box(i, 0, None)
    {
      hide Valid;
      for idx := 0 to msrTypes[t].numBoxes
        invariant Valid() && |msrTypes| == |old(msrTypes)|
        invariant forall u :: 0 <= u < |msrTypes| && u != t ==> msrTypes[u] == old(msrTypes)[u]
        invariant msrTypes[t].numBoxes == old(msrTypes)[t].numBoxes
        invariant |msrTypes[t].boxes| == idx
        invariant allocs == old(allocs) + idx && Allocates(old(allocs), idx)
        invariant forall i :: 0 <= i < idx ==> msrTypes[t].boxes[i] == Box(i, 0, None)
      {
        ret := MsrNewBox(t, idx);
        if ret != 0 { return; }
      }
      ret := 0;
    }

    // ---------- Memory controllers ----------

    /** uncore_imc_new_device: the entry takes over one reference of the device. */
    method ImcNewDevice(pdev: nat) returns (ret: int)
      requires Valid() && pdev < |devs| && pdev in extra
      modifies this`imcs, this`live, this`allocs, this`extra
      ensures Valid()
      ensures ret == (if allocates(old(allocs)) then 0 else ENOMEM) && allocs == old(allocs) + 1
      ensures ret == 0 ==>
        && imcs == old(imcs) + [Box(0, nodeOfBus[devs[pdev].bus], Some(pdev))]
        && extra == old(extra) - multiset{pdev}
      ensures ret != 0 ==> imcs == old(imcs) && extra == old(extra)
    {
      hide Count, CountIn, AllBacked, Backed;
      allocs := allocs + 1;
      if !allocates(allocs - 1) { return ENOMEM; }
      live := live + 1;
      var entry := Box(0, nodeOfBus[devs[pdev].bus], Some(pdev));
      EntryCounts(imcs, entry, pdev, |devs|);
      imcs := imcs + [entry];
      extra := extra - multiset{pdev};
      ret := 0;
    }

    static lemma EntryCounts(boxes: seq<Box>, entry: Box, pdev: nat, n: nat)
      requires Backed(boxes, n) && pdev < n && entry.pdev == Some(pdev)
      ensures Backed(boxes + [entry], n)
      ensures CountIn(boxes + [entry], None) == CountIn(boxes, None) + 1
      ensures forall d: nat ::
                CountIn(boxes + [entry], Some(d)) == CountIn(boxes, Some(d)) + (if d == pdev then 1 else 0)
    {
      CountInAppend(boxes, entry, None);
      forall d: nat
        ensures CountIn(boxes + [entry], Some(d)) == CountIn(boxes, Some(d)) + (if d == pdev then 1 else 0)
      {
        CountInAppend(boxes, entry, Some(d));
      }
    }

    /** uncore_imc_exit. */
    method ImcExit()
      requires Valid()
      modifies this`imcs, this`refs, this`live
      ensures Valid() && imcs == []
      ensures old(imcs) == [] ==> refs == old(refs) && live == old(live)
    {
      while imcs != []
        invariant Valid()
        invariant old(imcs) == [] ==> imcs == [] && refs == old(refs) && live == old(live)
        decreases |imcs|
      {
        var entry := imcs[0];
        assert CountIn(imcs, None) == CountIn(imcs[1..], None) + 1;
        assert forall d: nat ::
          CountIn(imcs, Some(d)) == CountIn(imcs[1..], Some(d)) + (if entry.pdev == Some(d) then 1 else 0);
        hide Count, CountIn, AllBacked;
        imcs := imcs[1..];
        refs := Bump(refs, entry.pdev.value, -1);
        live := live - 1;
      }
    }

    ghost function ImcFoundUpTo(k: nat, upTo: nat): seq<nat>
      requires k < |imcIds| && upTo <= |devs|
    {
      FoundAny(devs, imcIds[..k]) + Matches(devs, imcIds[k], upTo)
    }

    /** The list holds what the first k ids and, of the next one, the devices before
        `upTo` gave. */
    ghost predicate ImcUpTo(list: seq<Box>, k: nat, upTo: nat)
      requires k < |imcIds| && upTo <= |devs|
    {
      Holds(devs, nodeOfBus, list, ImcFoundUpTo(k, upTo))
    }

    ghost predicate ImcListed(list: seq<Box>, k: nat)
      requires k <= |imcIds|
    {
      Holds(devs, nodeOfBus, list, FoundAny(devs, imcIds[..k]))
    }

    lemma NextImcId(list: seq<Box>, k: nat)
      requires k < |imcIds|
      ensures ImcListed(list, k) ==> ImcUpTo(list, k, 0)
      ensures ImcUpTo(list, k, |devs|) ==> ImcListed(list, k + 1)
    {
      assert imcIds[..k + 1][..k] == imcIds[..k];
      assert ImcFoundUpTo(k, 0) == FoundAny(devs, imcIds[..k]);
    }

    lemma NextImc(list: seq<Box>, k: nat, d: nat)
      requires Tables() && k < |imcIds| && d < |devs| && ImcUpTo(list, k, d) && Match(imcIds[k], devs[d])
      ensures ImcUpTo(list + [Box(0, nodeOfBus[devs[d].bus], Some(d))], k, d + 1)
    {
      assert ImcFoundUpTo(k, d + 1) == ImcFoundUpTo(k, d) + [d];
    }

    lemma SkipImcs(list: seq<Box>, k: nat, a: nat, b: nat)
      requires k < |imcIds| && a <= b <= |devs| && ImcUpTo(list, k, a)
      requires forall d :: a <= d < b ==> !Match(imcIds[k], devs[d])
      ensures ImcUpTo(list, k, b)
    {
      NoMatchBetween(devs, imcIds[k], a, b);
    }

    method ListOneImc(k: nat, d: nat, ghost from: nat) returns (ret: int)
      requires Valid() && k < |imcIds| && d < |devs| && Match(imcIds[k], devs[d])
      requires ImcUpTo(imcs, k, d) && extra == multiset{d} && ImcHunt().At(k, d, from, allocs)
      modifies this`imcs, this`refs, this`live, this`allocs, this`extra
      ensures Valid()
      ensures ret == 0 ==> extra == multiset{d} && ImcUpTo(imcs, k, d + 1) && ImcHunt().At(k, d + 1, from, allocs)
      ensures ret != 0 ==> ImcHunt().Faults(from) && extra == ImcHunt().Leak(from) == Twice(d)
    {
      hide Valid, Tables, ImcUpTo, Match, Hunt.At, Hunt.Leak, Hunt.Faults;
      TablesHold();
      GetDevice(d);
      ghost var before, n := imcs, allocs;
      ret := ImcNewDevice(d);
      if ret != 0 {
        ImcHunt().NotMade(k, d, from, n);
      } else {
        NextImc(before, k, d);
        ImcHunt().Made(k, d, from, n);
      }
    }

    /** One turn of the inner loop of uncore_imc_init. */
    method EnumerateOneImc(k: nat, d: nat, ghost from: nat) returns (ret: int, next: Option<nat>)
      requires Valid() && k < |imcIds| && d < |devs| && Match(imcIds[k], devs[d])
      requires ImcUpTo(imcs, k, d) && extra == multiset{d} && ImcHunt().At(k, d, from, allocs)
      modifies this`imcs, this`refs, this`live, this`allocs, this`extra
      ensures Valid()
      ensures ret != 0 ==> ImcHunt().Faults(from) && extra == ImcHunt().Leak(from) == Twice(d)
      ensures ret == 0 ==> d < Reach(next) <= |devs| && extra == One(next)
      ensures ret == 0 ==> ImcUpTo(imcs, k, Reach(next)) && ImcHunt().At(k, Reach(next), from, allocs)
      ensures ret == 0 && next.Some? ==> next.value < |devs| && Match(imcIds[k], devs[next.value])
    {
      hide Valid, ImcUpTo, Match, Hunt.At, Hunt.Leak, Hunt.Faults;
      next := None;
      ret := ListOneImc(k, d, from);
      if ret != 0 { return; }
      next := PciGetDevice(imcIds[k], Some(d));
      SkipImcs(imcs, k, d + 1, Reach(next));
      ImcHunt().Skip(k, d + 1, Reach(next), from, allocs);
    }

    method EnumerateImcId(k: nat, ghost from: nat) returns (ret: int)
      requires Valid() && Settled() && k < |imcIds| && ImcUpTo(imcs, k, 0) && ImcHunt().At(k, 0, from, allocs)
      modifies this`imcs, this`refs, this`live, this`allocs, this`extra
      ensures Valid()
      ensures ret == 0 ==> Settled() && ImcUpTo(imcs, k, |devs|) && ImcHunt().At(k, |devs|, from, allocs)
      ensures ret != 0 ==> ImcHunt().Faults(from) && extra == ImcHunt().Leak(from)
    {
      hide Valid, ImcUpTo, Hunt.At, Hunt.Leak, Hunt.Faults;
      var pdev: Option<nat> := PciGetDevice(imcIds[k], None);
      SkipImcs(imcs, k, 0, Reach(pdev));
      ImcHunt().Skip(k, 0, Reach(pdev), from, allocs);
      while pdev.Some?
        invariant Valid() && Reach(pdev) <= |devs|
        invariant pdev.Some? ==> pdev.value < |devs| && Match(imcIds[k], devs[pdev.value])
        invariant extra == One(pdev)
        invariant ImcUpTo(imcs, k, Reach(pdev)) && ImcHunt().At(k, Reach(pdev), from, allocs)
        decreases |devs| - Reach(pdev)
      {
        ret, pdev := EnumerateOneImc(k, pdev.value, from);
        if ret != 0 { return; }
      }
      ret := 0;
    }

    /** uncore_imc_init. */
    method ImcInit(model: nat) returns (ret: int)
      requires Valid() && Settled() && imcs == []
      modifies this`imcs, this`refs, this`live, this`allocs, this`extra
      ensures Valid()
      ensures ret == 0 <==> model == 63 && !ImcHunt().Faults(old(allocs))
      ensures ret == 0 ==> ImcListed(imcs, |imcIds|) && allocs == old(allocs) + |ImcHunt().All()|
      ensures ret != 0 ==> imcs == []
      ensures extra == if model == 63 then ImcHunt().Leak(old(allocs)) else multiset{}
    {
      if model != 63 { return ENXIO; }
      hide Valid, ImcListed, ImcHunt, Hunt.Past, Hunt.Faults, Hunt.Leak;
      ImcHunt().LeakIff(allocs);
      ret := EnumerateImcIds();
      if ret != 0 {
        ImcExit();
      }
    }

    /** The outer loop of uncore_imc_init. */
    method EnumerateImcIds() returns (ret: int)
      requires Valid() && Settled() && imcs == []
      modifies this`imcs, this`refs, this`live, this`allocs, this`extra
      ensures Valid()
      ensures ret == 0 <==> !ImcHunt().Faults(old(allocs))
      ensures ret == 0 ==>
        && Settled() && ImcListed(imcs, |imcIds|)
        && allocs == old(allocs) + |ImcHunt().All()|
      ensures ret != 0 ==> extra == ImcHunt().Leak(old(allocs))
    {
      ImcHunt().PastNone(allocs);
      assert ImcListed(imcs, 0);
      hide Valid, ImcListed, ImcUpTo, Hunt.At, Hunt.Past, Hunt.Faults, Hunt.Leak, Hunt.All, Hunt.AllTries;
      for k := 0 to |imcIds|
        invariant Valid() && Settled() && ImcListed(imcs, k) && ImcHunt().Past(k, old(allocs), allocs)
      {
        NextImcId(imcs, k);
        ImcHunt().NextId(k, old(allocs), allocs);
        ret := EnumerateImcId(k, old(allocs));
        if ret != 0 { return; }
        NextImcId(imcs, k);
        ImcHunt().NextId(k, old(allocs), allocs);
      }
      ImcHunt().PastAll(old(allocs), allocs);
      ret := 0;
    }

    // ---------- The whole module ----------

    /** With empty lists, conservation says every count is back where it started, plus
        whatever no list owns. */
    lemma EmptyMeansReturned()
      requires Valid() && NothingHeld()
      ensures live == baseLive
      ensures forall d :: 0 <= d < |devs| ==> refs[d] == baseRefs[d] + extra[d]
    {
      EmptyAlways(pciTypes);
      EmptyAlways(msrTypes);
    }

    /** Where the memory controllers' allocations start. */
    ghost function ImcFrom(from: nat, maxCores: nat): nat {
      from + |PciHunt().All()| + MsrTotal(|msrTable|, maxCores)
    }

    /** A PCI entry is what fails, known before the call. */
    ghost predicate PciEntryFails(model: nat, mapError: int, from: nat) {
      PciStarts(model, mapError) && PciHunt().Faults(from)
    }

    ghost predicate BoxesSucceed(model: nat, mapError: int, maxCores: nat, from: nat) {
      && PciStarts(model, mapError) && !PciHunt().Faults(from)
      && Allocates(from + |PciHunt().All()|, MsrTotal(|msrTable|, maxCores))
    }

    /** A memory controller's entry is what fails. */
    ghost predicate ImcEntryFails(model: nat, mapError: int, maxCores: nat, from: nat) {
      BoxesSucceed(model, mapError, maxCores, from) && ImcHunt().Faults(ImcFrom(from, maxCores))
    }

    /** The same in the tables' own terms: a known model, a readable bus map, a type for
        every PCI id that matches a device, and no refusal among the allocations of one
        bring-up. */
    lemma SucceedsIff(model: nat, mapError: int, maxCores: nat, from: nat)
      ensures BoxesSucceed(model, mapError, maxCores, from) && !ImcHunt().Faults(ImcFrom(from, maxCores)) <==>
        && model == 63 && mapError == 0
        && (forall k, d :: 0 <= k < |pciIds| && 0 <= d < |devs| && Match(pciIds[k], devs[d]) ==>
              DevType(pciIds[k]) < |pciTable|)
        && Allocates(from, |PciHunt().All()| + MsrTotal(|msrTable|, maxCores) + |ImcHunt().All()|)
    {
      PciHunt().FaultsIff(from);
      ImcHunt().FaultsIff(ImcFrom(from, maxCores));
      hide Hunt.Faults, Hunt.All, MsrTotal, DevType;
    }

    /** uncore_init. It succeeds exactly when no step of it fails, and then the registry
        lists exactly what the machine has and every reference is owned. Any failure,
        wherever it happens, leaves every list empty and every allocation freed, although
        parts of the teardown run twice; references are left over exactly when a PCI or a
        memory controller's entry is what failed, and then two of that one device. */
    method Init(model: nat, mapError: int, maxCores: nat, procCreated: bool) returns (ret: int)
      requires Valid() && Settled() && NothingHeld()
      modifies this
      ensures Valid()
      ensures ret == 0 <==>
        && BoxesSucceed(model, mapError, maxCores, old(allocs))
        && !ImcHunt().Faults(ImcFrom(old(allocs), maxCores))
        && procCreated
      ensures ret == 0 ==>
        && FullyEnumerated(pciTypes, |pciIds|)
        && |msrTypes| == |msrTable| && MsrListed(msrTypes, |msrTypes|)
        && (forall t :: 0 <= t < |msrTypes| ==>
              |msrTypes[t].boxes| == if t == 3 && maxCores < msrTable[3] then maxCores else msrTable[t])
        && ImcListed(imcs, |imcIds|)
      ensures ret != 0 ==>
        && NothingHeld() && live == baseLive
        && forall d :: 0 <= d < |devs| ==> refs[d] == baseRefs[d] + extra[d]
      ensures extra ==
        if PciEntryFails(model, mapError, old(allocs)) then PciHunt().Leak(old(allocs))
        else if ImcEntryFails(model, mapError, maxCores, old(allocs))
        then ImcHunt().Leak(ImcFrom(old(allocs), maxCores))
        else multiset{}
      ensures Settled() <==>
        && !PciEntryFails(model, mapError, old(allocs))
        && !ImcEntryFails(model, mapError, maxCores, old(allocs))
    {
      hide Valid, FullyEnumerated, MsrListed, ImcListed, NumBoxes, MsrTotal, Allocates, Empty, PciHunt, ImcHunt;
      hide Hunt.Faults, Hunt.FirstFault, Hunt.Leak, Hunt.All;
      PciHunt().LeakIff(allocs);
      ImcHunt().LeakIff(ImcFrom(allocs, maxCores));
      ret := PciInit(model, mapError);
      if ret == 0 {
        ret := CpuInit(model, maxCores);
        if ret == 0 {
          ret := ImcInit(model);
          if ret == 0 && !procCreated {
            ret := ENOENT;
          }
          if ret == 0 { return; }
          ImcExit();
        }
        CpuExit();
      }
      PciExit();
      EmptyMeansReturned();
    }

    /** uncore_exit: every reference and every allocation taken since is given back. */
    method Exit()
      requires Valid() && Settled()
      modifies this
      ensures Valid() && Settled() && NothingHeld()
      ensures live == baseLive && refs == baseRefs
    {
      ImcExit();
      CpuExit();
      PciExit();
      EmptyMeansReturned();
    }
  }
  /** A machine with one device and no memory to list it: a failed bring-up leaves its
      reference count two higher. */
  method LeakOnOneDevice() returns (ret: int, before: seq<int>, after: seq<int>)
    ensures ret != 0 && before == [1] && after == [3]
  {
    var id, dev := PciId(0x8086, 0x2f30, 0x0100), PciDev(0x8086, 0x2f30, 0);
    before := [1];
    var uncore := new Uncore([dev], [0], _ => false, [id], [], [0, 0], [], before, 0);
    LeakIsTwo(uncore, id);
    ret := uncore.Init(63, 0, 1, true);
    after := uncore.refs;
  }

  lemma LeakIsTwo(uncore: Uncore, id: PciId)
    requires |uncore.devs| == 1 && uncore.pciIds == [id] && Match(id, uncore.devs[0])
    requires !uncore.allocates(0)
    ensures uncore.PciEntryFails(63, 0, 0) && uncore.PciHunt().Leak(0) == Twice(0)
  {
    var hunt := uncore.PciHunt();
    assert hunt.AllTries(1) == hunt.AllTries(0) + hunt.Tries(id, 1) == [Attempt(0, hunt.Typed(id))];
    hunt.PrefixFault(0, [], Attempt(0, hunt.Typed(id)));
  }
}
