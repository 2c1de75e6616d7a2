/** The order in which bring-up makes list entries, and the first of them that cannot be
    made. All of it is known before bring-up starts: the devices, the id table, the
    number of box types, and which allocations the kernel will refuse. */
module Enumeration {
  import opened BoxRegistry

  /** One entry to make: for this device, of a type that exists or not. */
  datatype Attempt = Attempt(dev: nat, typed: bool)

  function Twice(d: nat): multiset<nat> {
    multiset{d, d}
  }

  /** One walk over an id table. `types` is the number of box types an id may name; the
      memory controllers have none to name. */
  datatype Hunt = Hunt(devs: seq<PciDev>, ids: seq<PciId>, types: Option<nat>, allocates: nat -> bool)
  {
    predicate Typed(id: PciId) {
      types.None? || DevType(id) < types.value
    }

    /** The attempts one id leads to among the devices before `upTo`. */
    function Tries(id: PciId, upTo: nat): (tries: seq<Attempt>)
      requires upTo <= |devs|
    {
      if upTo == 0 then []
      else Tries(id, upTo - 1) + (if Match(id, devs[upTo - 1]) then [Attempt(upTo - 1, Typed(id))] else [])
    }

    /** The attempts of the first k ids. */
    function AllTries(k: nat): seq<Attempt>
      requires k <= |ids|
    {
      if k == 0 then [] else AllTries(k - 1) + Tries(ids[k - 1], |devs|)
    }

    function All(): seq<Attempt> {
      AllTries(|ids|)
    }

    /** An attempt succeeds when its type exists and its allocation, the `at`-th, does. */
    predicate Goes(a: Attempt, at: nat) {
      a.typed && allocates(at)
    }

    ghost predicate AllGo(tries: seq<Attempt>, from: nat) {
      forall j :: 0 <= j < |tries| ==> Goes(tries[j], from + j)
    }

    /** The walk that starts with the from-th allocation cannot make all of its entries. */
    ghost predicate Faults(from: nat) {
      !AllGo(All(), from)
    }

    /** The first entry that cannot be made. */
    ghost predicate FaultAt(from: nat, j: nat) {
      && j < |All()|
      && AllGo(All()[..j], from)
      && !Goes(All()[j], from + j)
    }

    /** In the tables' own terms: every id that matches a device names a type, and every
        allocation the walk makes succeeds. */
    lemma FaultsIff(from: nat)
      ensures !Faults(from) <==>
        && (forall at :: from <= at < from + |All()| ==> allocates(at))
        && (forall k, d :: 0 <= k < |ids| && 0 <= d < |devs| && Match(ids[k], devs[d]) ==> Typed(ids[k]))
    {
      if !Faults(from) {
        forall at | from <= at < from + |All()| ensures allocates(at) {
          assert Goes(All()[at - from], from + (at - from));
        }
        forall k, d | 0 <= k < |ids| && 0 <= d < |devs| && Match(ids[k], devs[d])
          ensures Typed(ids[k])
        {
          TriesComplete(|ids|, k, d);
        }
      } else {
        var j := FirstFault(from);
        var k := TriesSound(|ids|, j);
      }
    }

    predicate Tried(id: PciId, a: Attempt) {
      a.dev < |devs| && Match(id, devs[a.dev]) && a.typed == Typed(id)
    }

    lemma {:induction false} TriesAre(id: PciId, upTo: nat, j: nat)
      requires upTo <= |devs| && j < |Tries(id, upTo)|
      ensures Tried(id, Tries(id, upTo)[j])
    {
      if j < |Tries(id, upTo - 1)| {
        TriesAre(id, upTo - 1, j);
      }
    }

    lemma {:induction false} TriesHave(id: PciId, upTo: nat, d: nat)
      requires d < upTo <= |devs| && Match(id, devs[d])
      ensures Attempt(d, Typed(id)) in Tries(id, upTo)
    {
      if d < upTo - 1 {
        TriesHave(id, upTo - 1, d);
      }
    }

    lemma {:induction false} TriesComplete(k: nat, i: nat, d: nat)
      requires i < k <= |ids| && d < |devs| && Match(ids[i], devs[d])
      ensures Attempt(d, Typed(ids[i])) in AllTries(k)
    {
      if i == k - 1 {
        TriesHave(ids[i], |devs|, d);
      } else {
        TriesComplete(k - 1, i, d);
      }
    }

    lemma {:induction false} TriesSound(k: nat, j: nat) returns (i: nat)
      requires k <= |ids| && j < |AllTries(k)|
      ensures i < k && Tried(ids[i], AllTries(k)[j])
    {
      var n := |AllTries(k - 1)|;
      if j < n {
        i := TriesSound(k - 1, j);
      } else {
        i := k - 1;
        TriesAre(ids[i], |devs|, j - n);
      }
    }

    ghost function FirstFault(from: nat): (j: nat)
      requires Faults(from)
      ensures FaultAt(from, j)
    {
      FaultExists(from);
      var j :| FaultAt(from, j);
      j
    }

    lemma FaultExists(from: nat)
      ensures Faults(from) <==> exists j :: FaultAt(from, j)
    {
      if Faults(from) {
        var j := FindFault(All(), from);
        assert FaultAt(from, j);
      }
    }

    lemma {:induction false} FindFault(tries: seq<Attempt>, from: nat) returns (j: nat)
      requires !AllGo(tries, from)
      ensures j < |tries| && AllGo(tries[..j], from) && !Goes(tries[j], from + j)
    {
      var n := |tries| - 1;
      if AllGo(tries[..n], from) {
        j := n;
      } else {
        j := FindFault(tries[..n], from);
        assert tries[..n][..j] == tries[..j];
      }
    }

    /** There is only one first fault. */
    lemma FaultIsFirst(from: nat, j: nat)
      requires FaultAt(from, j)
      ensures Faults(from) && FirstFault(from) == j
    {
      FaultExists(from);
      AllBefore(from, j);
      AllBefore(from, FirstFault(from));
    }

    lemma AllBefore(from: nat, j: nat)
      requires FaultAt(from, j)
      ensures forall i :: 0 <= i < j ==> Goes(All()[i], from + i)
    {
      forall i | 0 <= i < j ensures Goes(All()[i], from + i) {
        assert All()[..j][i] == All()[i];
      }
    }

    /** What a failed walk leaves behind: nothing drops the two references to the device
        whose entry could not be made. */
    ghost function Leak(from: nat): multiset<nat> {
      if Faults(from) then Twice(All()[FirstFault(from)].dev) else multiset{}
    }

    lemma LeakIff(from: nat)
      ensures Leak(from) == multiset{} <==> !Faults(from)
    {
      assert Faults(from) ==> All()[FirstFault(from)].dev in Leak(from);
    }

    // ---------- Following the walk ----------

    /** The walk is at device d of the k-th id; n allocations have been made. */
    ghost predicate At(k: nat, d: nat, from: nat, n: nat)
      requires k < |ids| && d <= |devs|
    {
      var done := AllTries(k) + Tries(ids[k], d);
      AllGo(done, from) && n == from + |done|
    }

    /** The walk is done with the first k ids. */
    ghost predicate Past(k: nat, from: nat, n: nat)
      requires k <= |ids|
    {
      AllGo(AllTries(k), from) && n == from + |AllTries(k)|
    }

    lemma PastNone(from: nat)
      ensures Past(0, from, from)
    {
    }

    lemma NextId(k: nat, from: nat, n: nat)
      requires k < |ids|
      ensures Past(k, from, n) ==> At(k, 0, from, n)
      ensures At(k, |devs|, from, n) ==> Past(k + 1, from, n)
    {
      assert AllTries(k) + [] == AllTries(k);
    }

    lemma {:induction false} NoTries(id: PciId, a: nat, b: nat)
      requires a <= b <= |devs| && forall d :: a <= d < b ==> !Match(id, devs[d])
      ensures Tries(id, a) == Tries(id, b)
      decreases b
    {
      if a < b {
        NoTries(id, a, b - 1);
      }
    }

    lemma Skip(k: nat, a: nat, b: nat, from: nat, n: nat)
      requires k < |ids| && a <= b <= |devs| && At(k, a, from, n)
      requires forall d :: a <= d < b ==> !Match(ids[k], devs[d])
      ensures At(k, b, from, n)
    {
      NoTries(ids[k], a, b);
    }

    lemma Made(k: nat, d: nat, from: nat, n: nat)
      requires k < |ids| && d < |devs| && At(k, d, from, n)
      requires Match(ids[k], devs[d]) && Typed(ids[k]) && allocates(n)
      ensures At(k, d + 1, from, n + 1)
    {
      var done := AllTries(k) + Tries(ids[k], d);
      assert AllTries(k) + Tries(ids[k], d + 1) == done + [Attempt(d, true)];
    }

    /** An attempt that fails is the first fault of the whole walk. */
    lemma NotMade(k: nat, d: nat, from: nat, n: nat)
      requires k < |ids| && d < |devs| && At(k, d, from, n)
      requires Match(ids[k], devs[d]) && !(Typed(ids[k]) && allocates(n))
      ensures Faults(from) && Leak(from) == Twice(d)
    {
      var done := AllTries(k) + Tries(ids[k], d);
      assert AllGo(done, from) && n == from + |done|;
      hide At, AllGo, Leak, Faults, AllTries, Tries, All, Match;
      TriedIsPrefix(k, d);
      PrefixFault(from, done, Attempt(d, Typed(ids[k])));
    }

    lemma TriedIsPrefix(k: nat, d: nat)
      requires k < |ids| && d < |devs| && Match(ids[k], devs[d])
      ensures AllTries(k) + Tries(ids[k], d) + [Attempt(d, Typed(ids[k]))] <= All()
    {
      var tried := AllTries(k) + Tries(ids[k], d) + [Attempt(d, Typed(ids[k]))];
      TriesGrow(ids[k], d + 1, |devs|);
      AllTriesGrow(k + 1, |ids|);
      assert AllTries(k) + Tries(ids[k], d + 1) == tried;
      assert tried <= AllTries(k + 1);
      hide AllTries, Tries;
    }

    lemma PrefixFault(from: nat, done: seq<Attempt>, a: Attempt)
      requires done + [a] <= All() && AllGo(done, from) && !Goes(a, from + |done|)
      ensures Faults(from) && Leak(from) == Twice(a.dev)
    {
      var j := |done|;
      assert All()[..j] == done;
      assert All()[j] == (done + [a])[j] == a;
      FaultIsFirst(from, j);
    }

    lemma {:induction false} TriesGrow(id: PciId, a: nat, b: nat)
      requires a <= b <= |devs|
      ensures Tries(id, a) <= Tries(id, b)
      decreases b
    {
      if a < b {
        TriesGrow(id, a, b - 1);
      }
    }

    lemma {:induction false} AllTriesGrow(a: nat, b: nat)
      requires a <= b <= |ids|
      ensures AllTries(a) <= AllTries(b)
      decreases b
    {
      if a < b {
        AllTriesGrow(a, b - 1);
      }
    }

    lemma PastAll(from: nat, n: nat)
      requires Past(|ids|, from, n)
      ensures !Faults(from) && n == from + |All()|
    {
    }
  }
}
