/** The data behind uncore_pmu.c's registry: PCI devices and the id tables that select
    them, box types with their lists, and what it means for a list to be in order. */
module BoxRegistry {
  import opened Kernel

  datatype Option<+T> = None | Some(value: T)

  datatype PciDev = PciDev(vendor: nat, device: nat, bus: nat)

  /** One row of an id table; the driver data packs the box type into its second byte. */
  datatype PciId = PciId(vendor: nat, device: nat, data: nat)

  function DevType(id: PciId): nat {
    id.data / 0x100 % 0x100
  }

  /** UNCORE_PCI_DEV_DATA packs a type and an index, and DevType gets the type back. */
  lemma TypeIsPacked(vendor: nat, device: nat, ty: nat, idx: nat)
    requires ty < 0x100 && idx < 0x100
    ensures DevType(PciId(vendor, device, ty * 0x100 + idx)) == ty
  {
  }

  predicate Match(id: PciId, dev: PciDev) {
    id.vendor == dev.vendor && id.device == dev.device
  }

  /** A box on a list: an MSR box has no device. */
  datatype Box = Box(idx: nat, nodeid: int, pdev: Option<nat>)

  datatype BoxType = BoxType(boxes: seq<Box>, numBoxes: nat)

  /** Indices count up from zero in list order, and num_boxes is the list's length
      whenever the list has any. */
  predicate InOrder(t: BoxType) {
    && (forall i :: 0 <= i < |t.boxes| ==> t.boxes[i].idx == i)
    && (t.boxes != [] ==> t.numBoxes == |t.boxes|)
  }

  /** Appending a box the way uncore_pci_new_box numbers it. */
  function Append(t: BoxType, nodeid: int, pdev: Option<nat>): BoxType {
    if t.boxes == [] then BoxType([Box(0, nodeid, pdev)], 1)
    else BoxType(t.boxes + [Box(t.boxes[|t.boxes| - 1].idx + 1, nodeid, pdev)], t.numBoxes + 1)
  }

  lemma AppendKeepsOrder(t: BoxType, nodeid: int, pdev: Option<nat>)
    requires InOrder(t)
    ensures InOrder(Append(t, nodeid, pdev))
    ensures Append(t, nodeid, pdev).boxes == t.boxes + [Box(|t.boxes|, nodeid, pdev)]
  {
  }

  // ---------- Counting what the lists hold ----------

  /** Entries for one device, or all entries when `who` is None. */
  function CountIn(boxes: seq<Box>, who: Option<nat>): nat {
    if boxes == [] then 0
    else CountIn(boxes[1..], who) + (if who == None || boxes[0].pdev == who then 1 else 0)
  }

  function Count(types: seq<BoxType>, who: Option<nat>): nat {
    if types == [] then 0 else Count(types[1..], who) + CountIn(types[0].boxes, who)
  }

  lemma {:induction false} CountInAppend(boxes: seq<Box>, b: Box, who: Option<nat>)
    ensures CountIn(boxes + [b], who) == CountIn(boxes, who) + (if who == None || b.pdev == who then 1 else 0)
  {
    if boxes != [] {
      CountInAppend(boxes[1..], b, who);
      assert (boxes + [b])[1..] == boxes[1..] + [b];
    } else {
      assert ([] + [b])[1..] == [];
    }
  }

  lemma {:induction false} CountUpdate(types: seq<BoxType>, t: nat, bt: BoxType, who: Option<nat>)
    requires t < |types|
    ensures Count(types[t := bt], who) == Count(types, who) - CountIn(types[t].boxes, who) + CountIn(bt.boxes, who)
  {
    if t == 0 {
      assert types[0 := bt][1..] == types[1..];
    } else {
      CountUpdate(types[1..], t - 1, bt, who);
      assert types[t := bt][1..] == types[1..][t - 1 := bt];
    }
  }

  predicate Empty(types: seq<BoxType>) {
    forall t :: 0 <= t < |types| ==> types[t].boxes == []
  }

  lemma {:induction false} EmptyCounts(types: seq<BoxType>, who: Option<nat>)
    requires Empty(types)
    ensures Count(types, who) == 0
  {
    if types != [] {
      EmptyCounts(types[1..], who);
    }
  }

  // ---------- What a full enumeration finds ----------

  /** The devices before `upTo` that an id matches, in bus order. */
  function Matches(devs: seq<PciDev>, id: PciId, upTo: nat): seq<nat>
    requires upTo <= |devs|
  {
    if upTo == 0 then []
    else Matches(devs, id, upTo - 1) + (if Match(id, devs[upTo - 1]) then [upTo - 1] else [])
  }

  lemma {:induction false} NoMatchBetween(devs: seq<PciDev>, id: PciId, a: nat, b: nat)
    requires a <= b <= |devs|
    requires forall d :: a <= d < b ==> !Match(id, devs[d])
    ensures Matches(devs, id, a) == Matches(devs, id, b)
    decreases b
  {
    if a < b {
      NoMatchBetween(devs, id, a, b - 1);
    }
  }

  /** The devices of one box type, id by id. */
  function Found(devs: seq<PciDev>, ids: seq<PciId>, t: nat): seq<nat> {
    if ids == [] then []
    else
      var last := ids[|ids| - 1];
      Found(devs, ids[..|ids| - 1], t) + (if DevType(last) == t then Matches(devs, last, |devs|) else [])
  }

  /** A row of the table finds a device by vendor and device number. */
  predicate RowFits(row: PciId, dev: PciDev) {
    row.vendor == dev.vendor && row.device == dev.device
  }

  /** Some row names the device for this type, in the second byte of its driver data. */
  ghost predicate Named(devs: seq<PciDev>, ids: seq<PciId>, t: nat, d: nat) {
    d < |devs| && exists k :: 0 <= k < |ids| && RowFits(ids[k], devs[d]) && ids[k].data / 0x100 % 0x100 == t
  }

  lemma {:induction false} MatchesHave(devs: seq<PciDev>, id: PciId, upTo: nat, d: nat)
    requires upTo <= |devs|
    ensures d in Matches(devs, id, upTo) <==> d < upTo && RowFits(id, devs[d])
  {
    if upTo > 0 {
      MatchesHave(devs, id, upTo - 1, d);
    }
  }

  lemma {:induction false} MatchesAscend(devs: seq<PciDev>, id: PciId, upTo: nat, i: nat, j: nat)
    requires upTo <= |devs| && i < j < |Matches(devs, id, upTo)|
    ensures Matches(devs, id, upTo)[i] < Matches(devs, id, upTo)[j]
  {
    var m := Matches(devs, id, upTo - 1);
    if j < |m| {
      MatchesAscend(devs, id, upTo - 1, i, j);
    } else {
      assert Matches(devs, id, upTo)[i] == m[i];
      assert m[i] in m;
      MatchesHave(devs, id, upTo - 1, m[i]);
    }
  }

  /** A type's list has exactly the devices that some row names for it. */
  lemma {:induction false} FoundHas(devs: seq<PciDev>, ids: seq<PciId>, t: nat, d: nat)
    ensures d in Found(devs, ids, t) <==> Named(devs, ids, t, d)
  {
    if ids != [] {
      var init, last := ids[..|ids| - 1], ids[|ids| - 1];
      FoundHas(devs, init, t, d);
      MatchesHave(devs, last, |devs|, d);
      NamedSplits(devs, init, last, t, d);
      assert ids == init + [last];
    }
  }

  lemma NamedSplits(devs: seq<PciDev>, init: seq<PciId>, last: PciId, t: nat, d: nat)
    ensures Named(devs, init + [last], t, d) <==>
      Named(devs, init, t, d) || (d < |devs| && RowFits(last, devs[d]) && last.data / 0x100 % 0x100 == t)
  {
    var ids := init + [last];
    assert forall k :: 0 <= k < |init| ==> ids[k] == init[k];
    assert ids[|init|] == last;
    if Named(devs, init, t, d) {
      var k :| 0 <= k < |init| && RowFits(init[k], devs[d]) && init[k].data / 0x100 % 0x100 == t;
      assert RowFits(ids[k], devs[d]);
    }
    if d < |devs| && RowFits(last, devs[d]) {
      assert RowFits(ids[|init|], devs[d]);
    }
  }

  lemma TailAscends(head: seq<nat>, tail: seq<nat>)
    requires forall i, j :: 0 <= i < j < |tail| ==> tail[i] < tail[j]
    ensures forall i, j :: |head| <= i < j < |head + tail| ==> (head + tail)[i] < (head + tail)[j]
  {
    forall i, j | |head| <= i < j < |head + tail| ensures (head + tail)[i] < (head + tail)[j] {
      assert tail[i - |head|] < tail[j - |head|];
    }
  }

  /** They come row by row, and each row's devices in bus order. */
  lemma FoundInOrder(devs: seq<PciDev>, ids: seq<PciId>, t: nat)
    requires ids != []
    ensures var earlier, all := Found(devs, ids[..|ids| - 1], t), Found(devs, ids, t);
            && earlier <= all
            && forall i, j :: |earlier| <= i < j < |all| ==> all[i] < all[j]
  {
    var last := ids[|ids| - 1];
    var earlier, all := Found(devs, ids[..|ids| - 1], t), Found(devs, ids, t);
    var rest := if DevType(last) == t then Matches(devs, last, |devs|) else [];
    assert all == earlier + rest;
    hide Found, DevType;
    forall i, j | 0 <= i < j < |rest| ensures rest[i] < rest[j] {
      MatchesAscend(devs, last, |devs|, i, j);
    }
    hide Matches;
    TailAscends(earlier, rest);
  }

  /** The devices of every id in turn. */
  function FoundAny(devs: seq<PciDev>, ids: seq<PciId>): seq<nat> {
    if ids == [] then []
    else FoundAny(devs, ids[..|ids| - 1]) + Matches(devs, ids[|ids| - 1], |devs|)
  }

  /** The list holds exactly these devices in this order, each with its node. */
  predicate Holds(devs: seq<PciDev>, nodeOfBus: seq<int>, boxes: seq<Box>, found: seq<nat>) {
    && |boxes| == |found|
    && forall i :: 0 <= i < |found| ==>
         && boxes[i].pdev == Some(found[i])
         && found[i] < |devs| && devs[found[i]].bus < |nodeOfBus|
         && boxes[i].nodeid == nodeOfBus[devs[found[i]].bus]
  }

  // ---------- Lookups ----------

  /** uncore_get_box. A list in order makes it a single indexed test. */
  method GetBox(t: Option<BoxType>, idx: nat, nodeid: nat) returns (box: Option<Box>)
    requires t.Some? ==> InOrder(t.value)
    ensures box.Some? <==>
      && t.Some? && nodeid <= 8
      && idx < |t.value.boxes| && t.value.boxes[idx].nodeid == nodeid
    ensures box.Some? ==> box.value == t.value.boxes[idx]
  {
    if t.None? || nodeid > UNCORE_MAX_SOCKET { return None; }
    for i := 0 to |t.value.boxes|
      invariant idx < i ==> t.value.boxes[idx].nodeid != nodeid
    {
      var b := t.value.boxes[i];
      if b.idx == idx && b.nodeid == nodeid { return Some(b); }
    }
    return None;
  }

  /** uncore_get_first_box: the lowest-numbered box of the node. */
  method GetFirstBox(t: Option<BoxType>, nodeid: nat) returns (box: Option<Box>)
    requires t.Some? ==> InOrder(t.value)
    ensures box.Some? <==>
      && t.Some? && nodeid <= 8
      && exists i :: 0 <= i < |t.value.boxes| && t.value.boxes[i].nodeid == nodeid
    ensures box.Some? ==>
      && box.value in t.value.boxes && box.value.nodeid == nodeid
      && forall b :: b in t.value.boxes && b.nodeid == nodeid ==> box.value.idx <= b.idx
  {
    if t.None? || nodeid > UNCORE_MAX_SOCKET { return None; }
    for i := 0 to |t.value.boxes|
      invariant forall k :: 0 <= k < i ==> t.value.boxes[k].nodeid != nodeid
    {
      if t.value.boxes[i].nodeid == nodeid { return Some(t.value.boxes[i]); }
    }
    return None;
  }
}
