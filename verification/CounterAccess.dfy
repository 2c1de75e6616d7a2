/** The split access of uncore_hswep.c to a counter that is wider than one config-space
    dword, and the counter mask of uncore_pmu.h. Masking with (1 << bits) - 1 is
    written as the remainder modulo 2^bits. */
module CounterAccess {

  const DWORD: int := 0x1_0000_0000

  function Pow2(n: nat): (p: int)
    ensures p >= 1
  {
    if n == 0 then 1 else 2 * Pow2(n - 1)
  }

  /** hswep_uncore_pci_write_counter: the low dword is not masked, the high one is. */
  function LowDword(value: int): int {
    value % 0x1_0000_0000
  }

  function HighDword(value: int, bits: nat): int {
    value % Pow2(bits) / 0x1_0000_0000
  }

  /** hswep_uncore_pci_read_counter: both dwords combined, then masked. */
  function Combine(low: int, high: int, bits: nat): int {
    (high * 0x1_0000_0000 + low) % Pow2(bits)
  }

  lemma {:induction false} Pow2Adds(m: nat, n: nat)
    ensures Pow2(m + n) == Pow2(m) * Pow2(n)
  {
    if m > 0 {
      Pow2Adds(m - 1, n);
      assert 2 * (Pow2(m - 1) * Pow2(n)) == (2 * Pow2(m - 1)) * Pow2(n);
    }
  }

  lemma Pow2At32()
    ensures Pow2(32) == DWORD
  {
    Pow2Adds(8, 8);
    Pow2Adds(16, 16);
    assert Pow2(8) == 256 by {
      Pow2Adds(4, 4);
    }
  }

  lemma Pow2At48()
    ensures Pow2(48) == 0x1_0000_0000_0000
  {
    Pow2At32();
    Pow2Adds(32, 16);
    Pow2Adds(8, 8);
    Pow2Adds(4, 4);
  }

  /** Reducing modulo a multiple first changes nothing. */
  lemma ModOfMod(x: int, m: int, k: int)
    requires m > 0 && k > 0
    ensures m * k > 0
    ensures (x % (m * k)) % m == x % m
  {
    var n := m * k;
    var q := x / n;
    assert x == n * q + x % n;
    var r := x % n;
    assert r == m * (r / m) + r % m;
    assert x == m * (k * q + r / m) + r % m;
    RemainderIs(x, m, k * q + r / m, r % m);
  }

  lemma RemainderIs(x: int, m: int, q: int, r: int)
    requires m > 0 && 0 <= r < m && x == m * q + r
    ensures x % m == r
  {
    var q', r' := x / m, x % m;
    assert x == m * q' + r';
    assert m * (q' - q) == r - r';
    MultipleNearZero(m, q' - q);
  }

  lemma MultipleNearZero(m: int, k: int)
    requires m > 0 && -m < m * k < m
    ensures k == 0
  {
    assert k >= 1 ==> m * k >= m;
    assert k <= -1 ==> m * k <= -m;
  }

  /** For every width below 64 bits and every value written, both dwords fit their
      registers and reading them back yields the value modulo 2^bits. */
  lemma SplitRoundTrip(value: int, bits: nat)
    requires 0 <= value && bits < 64
    ensures 0 <= LowDword(value) < DWORD && 0 <= HighDword(value, bits) < DWORD
    ensures Combine(LowDword(value), HighDword(value, bits), bits) == value % Pow2(bits)
  {
    Pow2At32();
    if bits <= 32 {
      NarrowRoundTrip(value, bits);
    } else {
      WideRoundTrip(value, bits);
    }
  }

  lemma NarrowRoundTrip(value: int, bits: nat)
    requires 0 <= value && bits <= 32 && Pow2(32) == DWORD
    ensures HighDword(value, bits) == 0
    ensures Combine(LowDword(value), 0, bits) == value % Pow2(bits)
  {
    var p, k := Pow2(bits), Pow2(32 - bits);
    Pow2Adds(bits, 32 - bits);
    Pow2Monotone(bits, 32);
    SmallQuotient(value % p, DWORD);
    ModOfMod(value, p, k);
  }

  lemma WideRoundTrip(value: int, bits: nat)
    requires 0 <= value && 32 < bits < 64 && Pow2(32) == DWORD
    ensures 0 <= HighDword(value, bits) < DWORD
    ensures Combine(LowDword(value), HighDword(value, bits), bits) == value % Pow2(bits)
  {
    var p, k := Pow2(bits), Pow2(bits - 32);
    Pow2Adds(32, bits - 32);
    Pow2Monotone(bits - 32, 32);
    ModOfMod(value, DWORD, k);
    var m := value % p;
    assert 0 <= m < DWORD * k && k <= DWORD;
    assert m % DWORD == value % DWORD;
    assert m / DWORD * DWORD + m % DWORD == m;
    SmallRemainder(m, p);
  }

  lemma SmallQuotient(x: int, m: int)
    requires 0 <= x < m
    ensures x / m == 0
  {
  }

  lemma SmallRemainder(x: int, m: int)
    requires 0 <= x < m
    ensures x % m == x
  {
  }

  lemma {:induction false} Pow2Monotone(m: nat, n: nat)
    requires m <= n
    ensures Pow2(m) <= Pow2(n)
    decreases n
  {
    if m < n {
      Pow2Monotone(m, n - 1);
    }
  }

  // ---------- The two dwords in config space ----------

  /** Every pair of adjacent dwords a counter can live in is written and read whole: the
      write changes those two dwords and nothing else, and a read after it yields the
      value modulo 2^bits. */
  lemma WriteThenRead(regs: map<nat, int>, ctr: nat, value: int, bits: nat)
    requires 0 <= value && bits < 64
    ensures var after := Written(regs, ctr, value, bits);
            && ReadFrom(after, ctr, bits) == value % Pow2(bits)
            && (forall a :: a != ctr && a != ctr + 4 ==> (a in after <==> a in regs))
            && (forall a :: a in regs && a != ctr && a != ctr + 4 ==> after[a] == regs[a])
            && 0 <= after[ctr] < DWORD && 0 <= after[ctr + 4] < DWORD
  {
    SplitRoundTrip(value, bits);
    hide LowDword, HighDword, Combine, Pow2;
  }

  function Written(regs: map<nat, int>, ctr: nat, value: int, bits: nat): (after: map<nat, int>)
    ensures after.Keys == regs.Keys + {ctr, ctr + 4}
  {
    regs[ctr := LowDword(value)][ctr + 4 := HighDword(value, bits)]
  }

  function ReadFrom(regs: map<nat, int>, ctr: nat, bits: nat): int
    requires ctr in regs && ctr + 4 in regs
  {
    Combine(regs[ctr], regs[ctr + 4], bits)
  }

  /** A device's config space, dword by dword. */
  class ConfigSpace {
    var regs: map<nat, int>

    constructor (regs: map<nat, int>)
      ensures this.regs == regs
    {
      this.regs := regs;
    }

    method ReadDword(a: nat) returns (value: int)
      requires a in regs
      ensures value == regs[a]
    {
      value := regs[a];
    }

    method WriteDword(a: nat, value: int)
      modifies this
      ensures regs == old(regs)[a := value]
    {
      regs := regs[a := value];
    }

    /** hswep_uncore_pci_write_counter, for any 64-bit value and any counter width. */
    method WriteCounter(ctr: nat, value: int, bits: nat)
      requires 0 <= value < 0x1_0000_0000_0000_0000 && bits < 64
      modifies this
      ensures ctr in regs && ctr + 4 in regs && ReadFrom(regs, ctr, bits) == value % Pow2(bits)
      ensures forall a :: a in old(regs) && a != ctr && a != ctr + 4 ==> a in regs && regs[a] == old(regs)[a]
      ensures regs.Keys == old(regs).Keys + {ctr, ctr + 4}
      ensures 0 <= regs[ctr] < DWORD && 0 <= regs[ctr + 4] < DWORD
      ensures regs[ctr] == value % 0x1_0000_0000 && regs[ctr + 4] == value % Pow2(bits) / 0x1_0000_0000
    {
      assert LowDword(value) == value % 0x1_0000_0000 && HighDword(value, bits) == value % Pow2(bits) / 0x1_0000_0000;

      WriteThenRead(regs, ctr, value, bits);
      hide LowDword, HighDword, Combine, Pow2;
      var low, high := LowDword(value), HighDword(value, bits);
      WriteDword(ctr, low);
      WriteDword(ctr + 4, high);
    }

    /** hswep_uncore_pci_read_counter. */
    method ReadCounter(ctr: nat, bits: nat) returns (value: int)
      requires ctr in regs && ctr + 4 in regs && bits < 64
      ensures value == ReadFrom(regs, ctr, bits)
      ensures value == (regs[ctr + 4] * 0x1_0000_0000 + regs[ctr]) % Pow2(bits)
      ensures 0 <= value < Pow2(bits)
    {
      var low := ReadDword(ctr);
      var high := ReadDword(ctr + 4);
      value := Combine(low, high, bits);
    }
  }

  /** Why the counter is frozen before it is read: with one event between the two
      reads, a 48-bit counter can be read as a value it never came near. */
  lemma TornReadWithoutFreeze()
    ensures var before, after := DWORD - 1, DWORD;
            Combine(LowDword(before), HighDword(after, 48), 48) == 2 * DWORD - 1
  {
    Pow2At48();
  }
}
