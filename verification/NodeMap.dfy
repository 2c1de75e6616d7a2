/** Which NUMA node a PCI bus belongs to: hswep_pcibus_to_nodeid reads it out of two
    registers of every UBOX. The node-id register holds this socket's own number; the
    mapping register holds eight 3-bit fields, the i-th of them the number of node i. */
module NodeMap {

  datatype Read = Value(word: nat) | Failed(err: int)

  /** One UBOX: its bus and what its two registers answer. */
  datatype Ubox = Ubox(bus: nat, nodeId: Read, mapping: Read) {
    predicate Readable() { nodeId.Value? && mapping.Value? }

    function Error(): int {
      if nodeId.Failed? then nodeId.err else if mapping.Failed? then mapping.err else 0
    }
  }

  /** (mapping >> (i * 3)) & 0x7. */
  function Field(mapping: nat, i: nat): nat {
    if i == 0 then mapping % 8 else Field(mapping / 8, i - 1)
  }

  predicate NoneBefore(mapping: nat, nodeid: nat, n: nat)
    requires n <= 8
  {
    forall i :: 0 <= i < n ==> Field(mapping, i) != nodeid
  }

  /** The first node whose field matches, or 8. */
  function FirstNode(mapping: nat, nodeid: nat, from: nat): (i: nat)
    requires from <= 8
    ensures from <= i <= 8
    ensures i < 8 ==> Field(mapping, i) == nodeid
    ensures forall k :: from <= k < i ==> Field(mapping, k) != nodeid
    decreases 8 - from
  {
    if from == 8 || Field(mapping, from) == nodeid then from else FirstNode(mapping, nodeid, from + 1)
  }

  /** The entry one UBOX leaves in the table. */
  function Entry(u: Ubox, before: int): int
    requires u.Readable()
  {
    var i := FirstNode(u.mapping.word, u.nodeId.word, 0);
    if i < 8 then i else before
  }

  /** The table's entry for one bus after a run of readable UBOXes. */
  function EntryAfter(uboxes: seq<Ubox>, bus: nat, before: int): int
    requires forall u :: u in uboxes ==> u.Readable()
  {
    if uboxes == [] then before
    else
      var last := uboxes[|uboxes| - 1];
      var earlier := EntryAfter(uboxes[..|uboxes| - 1], bus, before);
      if last.bus == bus then Entry(last, earlier) else earlier
  }

  /** How many UBOXes are read before the first that fails. */
  function ReadableRun(uboxes: seq<Ubox>): (n: nat)
    ensures n <= |uboxes|
    ensures forall k :: 0 <= k < n ==> uboxes[k].Readable()
    ensures n < |uboxes| ==> !uboxes[n].Readable()
  {
    if uboxes == [] || !uboxes[0].Readable() then 0 else 1 + ReadableRun(uboxes[1..])
  }

  lemma {:induction false} ReadableRunIs(uboxes: seq<Ubox>, n: nat)
    requires n <= |uboxes| && forall k :: 0 <= k < n ==> uboxes[k].Readable()
    requires n < |uboxes| ==> !uboxes[n].Readable()
    ensures ReadableRun(uboxes) == n
  {
    if n > 0 {
      ReadableRunIs(uboxes[1..], n - 1);
    }
  }

  /** hswep_pcibus_to_nodeid. `stale` is what err holds before its first assignment: it
      is the result when the machine has no UBOX at all. Errors are PCI BIOS codes, before
      their conversion to errno. */
  method PcibusToNodeid(table: array<int>, uboxes: seq<Ubox>, stale: int) returns (err: int)
    requires forall u :: u in uboxes ==> u.bus < table.Length
    requires forall u :: u in uboxes ==>
      (u.nodeId.Failed? ==> u.nodeId.err != 0) && (u.mapping.Failed? ==> u.mapping.err != 0)
    modifies table
    ensures var n := ReadableRun(uboxes);
            && (forall bus :: 0 <= bus < table.Length ==>
                  table[bus] == EntryAfter(uboxes[..n], bus, old(table[bus])))
            && err == if uboxes == [] then stale else if n == |uboxes| then 0 else uboxes[n].Error()
    ensures err == 0 <==> (forall u :: u in uboxes ==> u.Readable()) && (uboxes != [] || stale == 0)
    ensures LastsDecide(uboxes[..ReadableRun(uboxes)], old(table[..]), table[..])
  {
    hide LastsDecide, Field;
    err := stale;
    for k := 0 to |uboxes|
      invariant forall j :: 0 <= j < k ==> uboxes[j].Readable()
      invariant forall bus :: 0 <= bus < table.Length ==>
        table[bus] == EntryAfter(uboxes[..k], bus, old(table[bus]))
      invariant err == if k == 0 then stale else 0
    {
      var u := uboxes[k];
      err := u.Error();
      if !u.Readable() {
        ReadableRunIs(uboxes, k);
        AllDecide(uboxes[..k], old(table[..]), table[..]);
        return;
      }
      assert uboxes[..k + 1][..k] == uboxes[..k];
      for i := 0 to 8
        invariant NoneBefore(u.mapping.word, u.nodeId.word, i)
      {
        if u.nodeId.word == Field(u.mapping.word, i) {
          table[u.bus] := i;
          break;
        }
      }
    }
    ReadableRunIs(uboxes, |uboxes|);
    assert uboxes[..|uboxes|] == uboxes;
    AllDecide(uboxes, old(table[..]), table[..]);
  }

  predicate LastOfItsBus(uboxes: seq<Ubox>, k: nat)
    requires k < |uboxes|
  {
    forall j :: k < j < |uboxes| ==> uboxes[j].bus != uboxes[k].bus
  }

  /** One of the eight fields holds the whole node-id register. */
  predicate Maps(u: Ubox)
    requires u.Readable()
  {
    exists i: nat :: i < 8 && Field(u.mapping.word, i) == u.nodeId.word
  }

  /** And this is the first one. */
  predicate FirstFieldIs(u: Ubox, node: int)
    requires u.Readable()
  {
    && 0 <= node < 8 && Field(u.mapping.word, node) == u.nodeId.word
    && forall i: nat :: i < node ==> Field(u.mapping.word, i) != u.nodeId.word
  }

  lemma EntryIsFirst(u: Ubox, before: int)
    requires u.Readable()
    ensures if Maps(u) then FirstFieldIs(u, Entry(u, before)) else Entry(u, before) == before
  {
    var i := FirstNode(u.mapping.word, u.nodeId.word, 0);
    assert Maps(u) <==> i < 8;
  }

  lemma {:induction false} LastDecides(uboxes: seq<Ubox>, k: nat, before: int)
    requires (forall u :: u in uboxes ==> u.Readable()) && k < |uboxes| && LastOfItsBus(uboxes, k)
    ensures var u := uboxes[k];
            EntryAfter(uboxes, u.bus, before) == Entry(u, EntryAfter(uboxes[..k], u.bus, before))
  {
    var n := |uboxes| - 1;
    if k < n {
      assert uboxes[..n][..k] == uboxes[..k];
      LastDecides(uboxes[..n], k, before);
    }
  }

  /** The last UBOX of every bus enters the first node whose field holds its node-id
      register, or leaves what the earlier ones entered. */
  ghost predicate LastsDecide(uboxes: seq<Ubox>, before: seq<int>, after: seq<int>) {
    && (forall u :: u in uboxes ==> u.Readable() && u.bus < |before|) && |after| == |before|
    && forall k :: 0 <= k < |uboxes| && LastOfItsBus(uboxes, k) ==>
         if Maps(uboxes[k]) then FirstFieldIs(uboxes[k], after[uboxes[k].bus])
         else after[uboxes[k].bus] == EntryAfter(uboxes[..k], uboxes[k].bus, before[uboxes[k].bus])
  }

  lemma AllDecide(uboxes: seq<Ubox>, before: seq<int>, after: seq<int>)
    requires (forall u :: u in uboxes ==> u.Readable()) && |after| == |before|
    requires forall u :: u in uboxes ==> u.bus < |before|
    requires forall bus :: 0 <= bus < |after| ==> after[bus] == EntryAfter(uboxes, bus, before[bus])
    ensures LastsDecide(uboxes, before, after)
  {
    forall k | 0 <= k < |uboxes| && LastOfItsBus(uboxes, k)
      ensures if Maps(uboxes[k]) then FirstFieldIs(uboxes[k], after[uboxes[k].bus])
              else after[uboxes[k].bus] == EntryAfter(uboxes[..k], uboxes[k].bus, before[uboxes[k].bus])
    {
      var u := uboxes[k];
      LastDecides(uboxes, k, before[u.bus]);
      EntryIsFirst(u, EntryAfter(uboxes[..k], u.bus, before[u.bus]));
    }
  }

  // ---------- What the table means ----------

  /** The mapping register that numbers the nodes as listed, node 0 in the lowest bits. */
  function Pack(ids: seq<nat>): nat {
    if ids == [] then 0 else ids[0] + 8 * Pack(ids[1..])
  }

  lemma {:induction false} FieldOfPack(ids: seq<nat>, i: nat)
    requires i < |ids| && forall k :: 0 <= k < |ids| ==> ids[k] < 8
    ensures Field(Pack(ids), i) == ids[i]
  {
    if i > 0 {
      FieldOfPack(ids[1..], i - 1);
      assert Pack(ids) / 8 == Pack(ids[1..]);
    }
  }

  /** A register packed from 3-bit ids is decoded to the first position of the id. */
  lemma PackedNodeIsFound(ids: seq<nat>, node: nat)
    requires |ids| == 8 && node < 8
    requires forall i :: 0 <= i < 8 ==> ids[i] < 8
    requires forall i :: 0 <= i < node ==> ids[i] != ids[node]
    ensures FirstNode(Pack(ids), ids[node], 0) == node
  {
    forall i | 0 <= i < 8 ensures Field(Pack(ids), i) == ids[i] {
      FieldOfPack(ids, i);
    }
  }

  /** So a UBOX on the socket that the packed register lists at `node` enters that node. */
  lemma PackedEntry(bus: nat, ids: seq<nat>, node: nat, before: int)
    requires |ids| == 8 && node < 8
    requires forall i :: 0 <= i < 8 ==> ids[i] < 8
    requires forall i :: 0 <= i < node ==> ids[i] != ids[node]
    ensures Entry(Ubox(bus, Value(ids[node]), Value(Pack(ids))), before) == node
  {
    PackedNodeIsFound(ids, node);
  }

  /** Three bits to the right, i times. */
  function Shift(x: nat, i: nat): nat {
    if i == 0 then x else Shift(x, i - 1) / 8
  }

  lemma {:induction false} ShiftFirst(x: nat, i: nat)
    requires i > 0
    ensures Shift(x, i) == Shift(x / 8, i - 1)
  {
    if i > 1 {
      ShiftFirst(x, i - 1);
    }
  }

  lemma {:induction false} FieldIsShift(mapping: nat, i: nat)
    ensures Field(mapping, i) == Shift(mapping, i) % 8
  {
    if i > 0 {
      FieldIsShift(mapping / 8, i - 1);
      ShiftFirst(mapping, i);
    }
  }

  lemma ShiftNext(x: nat, i: nat)
    ensures Shift(x, i + 1) == Shift(x, i) / 8
  {
  }

  /** The fields are the bits that a shift by 3 * i and a mask with 7 select. */
  lemma FieldsAre(mapping: nat)
    ensures Field(mapping, 0) == mapping % 8
    ensures Field(mapping, 1) == mapping / 0x8 % 8
    ensures Field(mapping, 2) == mapping / 0x40 % 8
    ensures Field(mapping, 3) == mapping / 0x200 % 8
    ensures Field(mapping, 4) == mapping / 0x1000 % 8
    ensures Field(mapping, 5) == mapping / 0x8000 % 8
    ensures Field(mapping, 6) == mapping / 0x4_0000 % 8
    ensures Field(mapping, 7) == mapping / 0x20_0000 % 8
  {
    forall i: nat | i < 8 ensures Field(mapping, i) == Shift(mapping, i) % 8 {
      FieldIsShift(mapping, i);
    }
    hide Field;
    LowShifts(mapping);
    HighShifts(mapping);
  }

  lemma LowShifts(x: nat)
    ensures Shift(x, 0) == x && Shift(x, 1) == x / 0x8
    ensures Shift(x, 2) == x / 0x40 && Shift(x, 3) == x / 0x200
  {
    assert Shift(x, 2) == Shift(x, 1) / 8;
    assert Shift(x, 3) == Shift(x, 2) / 8;
  }

  lemma HighShifts(x: nat)
    ensures Shift(x, 4) == x / 0x1000 && Shift(x, 5) == x / 0x8000
    ensures Shift(x, 6) == x / 0x4_0000 && Shift(x, 7) == x / 0x20_0000
  {
    LowShifts(x);
    ShiftNext(x, 3);
    ShiftNext(x, 4);
    ShiftNext(x, 5);
    ShiftNext(x, 6);
    hide Shift;
  }

  lemma {:induction false} FieldIsThreeBits(mapping: nat, i: nat)
    ensures Field(mapping, i) < 8
  {
    if i > 0 {
      FieldIsThreeBits(mapping / 8, i - 1);
    }
  }

  /** A UBOX sets its bus's entry exactly when one of the eight fields holds the whole
      node-id register; otherwise the entry stays what it was. */
  lemma MapsIff(u: Ubox)
    requires u.Readable()
    ensures Maps(u) <==> forall before :: 0 <= Entry(u, before) < 8
    ensures !Maps(u) <==> forall before :: Entry(u, before) == before
  {
    var i := FirstNode(u.mapping.word, u.nodeId.word, 0);
    assert Maps(u) <==> i < 8;
    if i < 8 {
      assert Entry(u, -1) != -1;
    } else {
      assert Entry(u, -1) == -1;
    }
  }

  /** In particular a node-id register with any bit above the third set maps nothing: the
      whole register is compared with three bits. */
  lemma WideNodeIdMapsNothing(u: Ubox)
    requires u.Readable() && u.nodeId.word >= 8
    ensures !Maps(u)
  {
    forall i: nat | i < 8 ensures Field(u.mapping.word, i) != u.nodeId.word {
      FieldIsThreeBits(u.mapping.word, i);
    }
  }

  /** Node 5 on a machine whose mapping register names only node 0: the call reports
      success and the bus stays unmapped. */
  method UnmappedBus() returns (err: int, node: int)
    ensures err == 0 && node == -1
  {
    var u := Ubox(0, Value(5), Value(0));
    var table := new int[1](_ => -1);
    forall i: nat | i < 8 ensures Field(0, i) == 0 {
      ZeroField(i);
    }
    assert !Maps(u);
    MapsIff(u);
    assert [u][..1] == [u] && [u][..0] == [];
    ReadableRunIs([u], 1);
    err := PcibusToNodeid(table, [u], 0);
    assert table[0] == EntryAfter([u], 0, -1);
    node := table[0];
  }

  lemma {:induction false} ZeroField(i: nat)
    ensures Field(0, i) == 0
  {
    if i > 0 {
      ZeroField(i - 1);
    }
  }

  /** No UBOX, nothing read, and yet an error: whatever the variable held. */
  method NoUbox() returns (err: int)
    ensures err == -22
  {
    var table := new int[256](_ => -1);
    err := PcibusToNodeid(table, [], -22);
  }

  /** With one UBOX per bus, every bus is mapped by its own UBOX and no other bus changes. */
  lemma {:induction false} OneUboxPerBus(uboxes: seq<Ubox>, bus: nat, before: int)
    requires forall u :: u in uboxes ==> u.Readable()
    requires forall i, j :: 0 <= i < j < |uboxes| ==> uboxes[i].bus != uboxes[j].bus
    ensures forall k :: 0 <= k < |uboxes| && uboxes[k].bus == bus ==>
      EntryAfter(uboxes, bus, before) == Entry(uboxes[k], before)
    ensures (forall k :: 0 <= k < |uboxes| ==> uboxes[k].bus != bus) ==> EntryAfter(uboxes, bus, before) == before
  {
    if uboxes != [] {
      var init := uboxes[..|uboxes| - 1];
      assert forall k :: 0 <= k < |init| ==> init[k] == uboxes[k];
      OneUboxPerBus(init, bus, before);
    }
  }
}
