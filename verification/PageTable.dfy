/** The four-level page table that migrate.c walks, the flat page-by-page scan the
    walk is meant to compute, and the facts that tie the two together.

    Addresses are 64-bit words written as integers; the only place where 64-bit
    wrap-around matters, the xxx_addr_end helpers, spells it out. */
module PageTable {
  import opened Kernel

  // ---------- The table ----------

  /** pte_none is PteNone; a mapped entry carries the present and accessed bits. */
  datatype Pte = PteNone | PteEntry(present: bool, young: bool, pfn: nat)
  datatype Pmd = PmdNone | PmdEntry(ptes: PteTable)
  datatype Pud = PudNone | PudEntry(pmds: PmdTable)
  datatype Pgd = PgdNone | PgdEntry(puds: PudTable)

  type PteTable = t: seq<Pte> | |t| == 512 witness seq(512, _ => PteNone)
  type PmdTable = t: seq<Pmd> | |t| == 512 witness seq(512, _ => PmdNone)
  type PudTable = t: seq<Pud> | |t| == 512 witness seq(512, _ => PudNone)
  type PgdTable = t: seq<Pgd> | |t| == 512 witness seq(512, _ => PgdNone)

  /** What one entry of a level spans: a page, or a table of the level below. Canonical
      is the reach of the whole pgd table, one half of the address space. */
  datatype Level = Page | PmdLevel | PudLevel | PgdLevel | Canonical

  /** Which entry-sized block of the level holds `a`. */
  function Block(a: int, level: Level): int {
    match level
    case Page => a / 0x1000
    case PmdLevel => a / 0x20_0000
    case PudLevel => a / 0x4000_0000
    case PgdLevel => a / 0x80_0000_0000
    case Canonical => a / 0x1_0000_0000_0000
  }

  /** First address of a block: what masking with the level's MASK keeps. */
  function Start(block: int, level: Level): int {
    match level
    case Page => block * 0x1000
    case PmdLevel => block * 0x20_0000
    case PudLevel => block * 0x4000_0000
    case PgdLevel => block * 0x80_0000_0000
    case Canonical => block * 0x1_0000_0000_0000
  }

  function Up(level: Level): Level {
    match level
    case Page => PmdLevel
    case PmdLevel => PudLevel
    case PudLevel => PgdLevel
    case PgdLevel => Canonical
    case Canonical => Canonical
  }

  predicate Upper(level: Level) {
    level.PmdLevel? || level.PudLevel? || level.PgdLevel?
  }

  /** Slot of the entry that maps `a`, derived from the address alone. */
  function Slot(a: int, level: Level): (i: int)
    ensures 0 <= i < 512
  {
    Block(a, level) % 512
  }

  function PgdOf(mm: PgdTable, a: int): Pgd {
    mm[Slot(a, PgdLevel)]
  }

  function PudOf(mm: PgdTable, a: int): Pud {
    match PgdOf(mm, a)
    case PgdNone => PudNone
    case PgdEntry(puds) => puds[Slot(a, PudLevel)]
  }

  function PmdOf(mm: PgdTable, a: int): Pmd {
    match PudOf(mm, a)
    case PudNone => PmdNone
    case PudEntry(pmds) => pmds[Slot(a, PmdLevel)]
  }

  function PteOf(mm: PgdTable, a: int): Pte {
    match PmdOf(mm, a)
    case PmdNone => PteNone
    case PmdEntry(ptes) => ptes[Slot(a, Page)]
  }

  /** The linear address of byte o in page l of the k-th pmd entry, of the j-th pud entry,
      of the i-th pgd entry, of the h-th 256-terabyte stretch. */
  function AddressOf(h: nat, i: nat, j: nat, k: nat, l: nat, o: nat): nat {
    ((((h * 512 + i) * 512 + j) * 512 + k) * 512 + l) * 4096 + o
  }

  /** What a walk from the root finds there, by those indices alone: each level takes nine
      bits of the address. */
  lemma EntryOfAddress(mm: PgdTable, h: nat, i: nat, j: nat, k: nat, l: nat, o: nat)
    requires i < 512 && j < 512 && k < 512 && l < 512 && o < 4096
    ensures PteOf(mm, AddressOf(h, i, j, k, l, o)) ==
            if mm[i].PgdEntry? && mm[i].puds[j].PudEntry? && mm[i].puds[j].pmds[k].PmdEntry?
            then mm[i].puds[j].pmds[k].ptes[l]
            else PteNone
  {
    SlotOfAddress(h, i, j, k, l, o);
    hide Slot, AddressOf;
  }

  lemma SlotOfAddress(h: nat, i: nat, j: nat, k: nat, l: nat, o: nat)
    requires i < 512 && j < 512 && k < 512 && l < 512 && o < 4096
    ensures var a := AddressOf(h, i, j, k, l, o);
            && Slot(a, PgdLevel) == i && Slot(a, PudLevel) == j
            && Slot(a, PmdLevel) == k && Slot(a, Page) == l
  {
    var a := AddressOf(h, i, j, k, l, o);
    var pgd := h * 512 + i;
    var pud := pgd * 512 + j;
    var pmd := pud * 512 + k;
    BlockIs(a, pgd, PgdLevel);
    BlockIs(a, pud, PudLevel);
    BlockIs(a, pmd, PmdLevel);
    BlockIs(a, pmd * 512 + l, Page);
    hide Block, AddressOf;
    NineBits(pmd, l);
    NineBits(pud, k);
    NineBits(pgd, j);
    NineBits(h, i);
  }

  lemma NineBits(high: nat, low: nat)
    requires low < 512
    ensures (high * 512 + low) % 512 == low
  {
  }

  // ---------- The address helpers ----------

  /** pgd_addr_end, pud_addr_end and pmd_addr_end: the next boundary after addr, or
      end when that comes first. */
  function AddrEnd(addr: int, end: int, level: Level): int {
    Nearer(Start(Block(Wrap64(addr + Start(1, level)), level), level), end)
  }

  /** The subtraction of one on both sides is what makes a boundary that wrapped to
      zero compare as the largest address. */
  function Nearer(boundary: int, end: int): int {
    if Wrap64(boundary - 1) < Wrap64(end - 1) then boundary else end
  }

  /** A non-empty range of whole pages below 2^64. */
  predicate PageRange(a: int, e: int) {
    0 <= a < e < 0x1_0000_0000_0000_0000 && a % 0x1000 == 0 && e % 0x1000 == 0
  }

  /** The range lies under one entry of the level. */
  predicate OneEntry(a: int, e: int, level: Level) {
    Block(a, level) == Block(e - 1, level)
  }

  /** Despite the wrapping sum, the helper is the smaller of the next boundary and end. */
  lemma AddrEndIsMin(addr: int, end: int, level: Level)
    requires 0 <= addr < end < 0x1_0000_0000_0000_0000
    ensures var boundary := Start(Block(addr, level) + 1, level);
            AddrEnd(addr, end, level) == if boundary < end then boundary else end
  {
    WrappedBoundary(addr, level);
    NearerIsMin(Start(Block(addr, level) + 1, level), end);
  }

  lemma WrappedBoundary(addr: int, level: Level)
    requires 0 <= addr < 0x1_0000_0000_0000_0000
    ensures var boundary := Start(Block(addr, level) + 1, level);
            && 0 < boundary <= 0x1_0000_0000_0000_0000
            && Start(Block(Wrap64(addr + Start(1, level)), level), level) == Wrap64(boundary)
  {
    var sum := addr + Start(1, level);
    var boundary := Start(Block(addr, level) + 1, level);
    assert 0 < boundary by {
      InsideBlock(addr, level);
    }
    if sum < 0x1_0000_0000_0000_0000 {
      assert Wrap64(sum) == sum;
      assert boundary < 0x1_0000_0000_0000_0000 by { BelowTop(addr, level); }
      assert Block(sum, level) == Block(addr, level) + 1 by { ShiftBlock(addr, level); }
    } else {
      TopBlock(addr, level);
    }
  }

  lemma ShiftBlock(addr: int, level: Level)
    ensures Block(addr + Start(1, level), level) == Block(addr, level) + 1
  {
    match level
    case Page =>
    case PmdLevel =>
    case PudLevel =>
    case PgdLevel =>
    case Canonical =>
  }

  lemma BelowTop(addr: int, level: Level)
    requires addr + Start(1, level) < 0x1_0000_0000_0000_0000
    ensures Start(Block(addr, level) + 1, level) < 0x1_0000_0000_0000_0000
  {
    match level
    case Page =>
    case PmdLevel =>
    case PudLevel =>
    case PgdLevel =>
    case Canonical =>
  }

  /** The last block below 2^64. */
  function Top(level: Level): int {
    match level
    case Page => 0xF_FFFF_FFFF_FFFF
    case PmdLevel => 0x7FF_FFFF_FFFF
    case PudLevel => 0x3_FFFF_FFFF
    case PgdLevel => 0x1FF_FFFF
    case Canonical => 0xFFFF
  }

  lemma TopBlock(addr: int, level: Level)
    requires addr < 0x1_0000_0000_0000_0000 <= addr + Start(1, level)
    ensures Start(Block(addr, level) + 1, level) == 0x1_0000_0000_0000_0000
    ensures Start(Block(Wrap64(addr + Start(1, level)), level), level) == 0
  {
    BlockIs(addr, Top(level), level);
    WrapOver(addr + Start(1, level));
    BlockIs(addr + Start(1, level) - 0x1_0000_0000_0000_0000, 0, level);
    hide Block, Wrap64;
  }

  lemma WrapOver(x: int)
    requires 0x1_0000_0000_0000_0000 <= x < 0x2_0000_0000_0000_0000
    ensures Wrap64(x) == x - 0x1_0000_0000_0000_0000
  {
  }

  lemma NearerIsMin(boundary: int, end: int)
    requires 0 < boundary <= 0x1_0000_0000_0000_0000 && 0 < end < 0x1_0000_0000_0000_0000
    ensures Nearer(Wrap64(boundary), end) == if boundary < end then boundary else end
  {
  }

  lemma BlockIs(x: int, b: int, level: Level)
    requires Start(b, level) <= x < Start(b + 1, level)
    ensures Block(x, level) == b
  {
    match level
    case Page =>
    case PmdLevel =>
    case PudLevel =>
    case PgdLevel =>
    case Canonical =>
  }

  lemma StartAligned(b: int, level: Level)
    ensures Start(b, level) % 0x1000 == 0
  {
    match level
    case Page => WholePages(b);
    case PmdLevel => WholePages(0x200 * b);
    case PudLevel => WholePages(0x4_0000 * b);
    case PgdLevel => WholePages(0x800_0000 * b);
    case Canonical => WholePages(0x10_0000_0000 * b);
  }

  lemma WholePages(n: int)
    ensures (0x1000 * n) % 0x1000 == 0
  {
  }

  lemma InsideBlock(addr: int, level: Level)
    ensures Start(Block(addr, level), level) <= addr < Start(Block(addr, level) + 1, level)
  {
    match level
    case Page =>
    case PmdLevel =>
    case PudLevel =>
    case PgdLevel =>
    case Canonical =>
  }

  lemma BoundaryBlocks(addr: int, level: Level)
    ensures var boundary := Start(Block(addr, level) + 1, level);
            && addr < boundary && boundary % 0x1000 == 0
            && Block(boundary, level) == Block(addr, level) + 1
            && Block(boundary - 1, level) == Block(addr, level)
  {
    var b := Block(addr, level);
    InsideBlock(addr, level);
    StartAligned(b + 1, level);
    BlockIs(Start(b + 1, level), b + 1, level);
    BlockIs(Start(b + 1, level) - 1, b, level);
  }

  lemma BlockMonotone(x: int, y: int, level: Level)
    requires x <= y
    ensures Block(x, level) <= Block(y, level)
  {
  }

  lemma BlockUp(x: int, level: Level)
    requires !level.Canonical?
    ensures Block(x, Up(level)) == Block(x, level) / 512
  {
    match level
    case Page =>
    case PmdLevel =>
    case PudLevel =>
    case PgdLevel =>
  }

  /** One step of a level: it makes progress, never passes end, and either finishes
      or stops on the first address of the following block. */
  lemma AddrEndStep(addr: int, end: int, level: Level)
    requires PageRange(addr, end)
    ensures var next := AddrEnd(addr, end, level);
            && PageRange(addr, next) && next <= end
            && OneEntry(addr, next, level)
            && (next < end ==> Block(next, level) == Block(addr, level) + 1)
  {
    AddrEndIsMin(addr, end, level);
    BoundaryBlocks(addr, level);
    var boundary := Start(Block(addr, level) + 1, level);
    if end <= boundary {
      BlockMonotone(addr, end - 1, level);
      BlockMonotone(end - 1, boundary - 1, level);
    }
  }

  /** An address stepped over has the next slot of the same table as long as the whole
      range hangs under one entry of the level above. */
  lemma SlotStep(addr: int, next: int, end: int, level: Level)
    requires addr < next < end && Upper(level)
    requires Block(next, level) == Block(addr, level) + 1
    requires OneEntry(addr, end, Up(level))
    ensures Slot(next, level) == Slot(addr, level) + 1
  {
    InBlock(addr, next, end, Up(level));
    BlockUp(addr, level);
    BlockUp(next, level);
    NextInTable(Block(addr, level));
  }

  lemma NextInTable(b: int)
    requires (b + 1) / 512 == b / 512
    ensures (b + 1) % 512 == b % 512 + 1
  {
  }

  lemma InBlock(a: int, x: int, e: int, level: Level)
    requires a <= x < e && OneEntry(a, e, level)
    ensures Block(x, level) == Block(a, level) && OneEntry(x, e, level)
  {
    BlockMonotone(a, x, level);
    BlockMonotone(x, e - 1, level);
  }

  /** The top-level pointer, incremented once per visited entry, stays inside the pgd
      table for the whole range exactly when the range does not cross a multiple of
      2^48, that is, when it stays in one canonical half of the address space. */
  lemma PgdPointerInTableIff(start: int, end: int)
    requires PageRange(start, end)
    ensures (forall a :: start <= a < end ==>
               Slot(start, PgdLevel) + (Block(a, PgdLevel) - Block(start, PgdLevel)) < 512)
            <==> OneEntry(start, end, Canonical)
  {
    var first, last := Block(start, PgdLevel), Block(end - 1, PgdLevel);
    BlockUp(start, PgdLevel);
    BlockUp(end - 1, PgdLevel);
    BlockMonotone(start, end - 1, PgdLevel);
    assert OneEntry(start, end, Canonical) <==> first % 512 + (last - first) < 512;
    forall a | start <= a < end ensures Block(a, PgdLevel) <= last {
      BlockMonotone(a, end - 1, PgdLevel);
    }
    assert start <= end - 1 < end;
  }

  /** Addresses in one block of a level share their entries at that level and above. */
  lemma SharedEntries(mm: PgdTable, a: int, x: int, level: Level)
    requires Upper(level) && Block(a, level) == Block(x, level)
    ensures PgdOf(mm, x) == PgdOf(mm, a)
    ensures !level.PgdLevel? ==> PudOf(mm, x) == PudOf(mm, a)
    ensures level.PmdLevel? ==> PmdOf(mm, x) == PmdOf(mm, a)
  {
    if level.PmdLevel? {
      BlockUp(a, PmdLevel);
      BlockUp(x, PmdLevel);
    }
    if !level.PgdLevel? {
      BlockUp(a, PudLevel);
      BlockUp(x, PudLevel);
    }
  }

  // ---------- The flat scan ----------

  /** What the walk logs and hands to collect_statistics for one page. */
  datatype Hit = Hit(page: int, pfn: nat)

  predicate Hot(pte: Pte) {
    pte.PteEntry? && pte.present && pte.young
  }

  /** What a page with this entry contributes. */
  function HitOf(pte: Pte, a: int): seq<Hit> {
    if Hot(pte) then [Hit(a, pte.pfn)] else []
  }

  lemma AppendHit(s: seq<Hit>, pte: Pte, a: int)
    ensures s + HitOf(pte, a) == if Hot(pte) then s + [Hit(a, pte.pfn)] else s
  {
  }

  function Visit(mm: PgdTable, a: int): seq<Hit>
    requires 0 <= a
  {
    HitOf(PteOf(mm, a), a)
  }

  /** Every page of [a, e) in turn, each looked up from the root. */
  function Scan(mm: PgdTable, a: int, e: int): seq<Hit>
    requires 0 <= a
    decreases e - a
  {
    if a >= e then [] else Visit(mm, a) + Scan(mm, a + 0x1000, e)
  }

  lemma ScanStep(mm: PgdTable, a: int, e: int)
    requires 0 <= a <= e
    ensures Scan(mm, a, e) == if a == e then [] else Visit(mm, a) + Scan(mm, a + 0x1000, e)
  {
  }

  lemma {:induction false} ScanSplit(mm: PgdTable, a: int, b: int, e: int)
    requires 0 <= a <= b <= e && a % 0x1000 == 0 && b % 0x1000 == 0
    ensures Scan(mm, a, e) == Scan(mm, a, b) + Scan(mm, b, e)
    decreases b - a
  {
    hide Scan, Visit;
    if a == b {
      ScanStep(mm, a, a);
    } else {
      NextPage(a, b);
      ScanStep(mm, a, e);
      ScanStep(mm, a, b);
      ScanSplit(mm, a + 0x1000, b, e);
      AppendTwice(Visit(mm, a), Scan(mm, a + 0x1000, b), Scan(mm, b, e));
    }
  }

  lemma ScanOnePage(mm: PgdTable, a: int)
    requires 0 <= a
    ensures Scan(mm, a, a + 0x1000) == Visit(mm, a)
  {
    assert Scan(mm, a + 0x1000, a + 0x1000) == [];
  }

  lemma {:induction false} ScanOfNothing(mm: PgdTable, a: int, e: int)
    requires 0 <= a
    requires forall x :: a <= x < e ==> PteOf(mm, x) == PteNone
    ensures Scan(mm, a, e) == []
    decreases e - a
  {
    if a < e {
      ScanOfNothing(mm, a + 0x1000, e);
    }
  }

  /** A none entry at any level hides every page under it. */
  lemma NoneSubtree(mm: PgdTable, a: int, e: int, level: Level)
    requires PageRange(a, e) && Upper(level) && OneEntry(a, e, level)
    requires level.PmdLevel? ==> PmdOf(mm, a) == PmdNone
    requires level.PudLevel? ==> PudOf(mm, a) == PudNone
    requires level.PgdLevel? ==> PgdOf(mm, a) == PgdNone
    ensures Scan(mm, a, e) == []
  {
    forall x | a <= x < e ensures PteOf(mm, x) == PteNone {
      InBlock(a, x, e, level);
      SharedEntries(mm, a, x, level);
    }
    ScanOfNothing(mm, a, e);
  }

  // ---------- One turn of each loop ----------

  lemma AppendTwice(a: seq<Hit>, b: seq<Hit>, c: seq<Hit>)
    ensures (a + b) + c == a + (b + c)
  {
  }

  /** The page loop: the entry it indexes is the one a walk from the root finds, and
      visiting it extends the scan by that one page. */
  lemma PageTurn(mm: PgdTable, ptes: PteTable, start: int, addr: int, end: int)
    requires PageRange(start, end) && start <= addr && PageRange(addr, end) && OneEntry(start, end, PmdLevel)
    requires PmdOf(mm, start) == PmdEntry(ptes)
    ensures Scan(mm, start, addr + 0x1000) == Scan(mm, start, addr) + HitOf(ptes[Slot(addr, Page)], addr)
    ensures addr + 0x1000 <= end && (addr + 0x1000 < end ==> PageRange(addr + 0x1000, end))
  {
    InBlock(start, addr, end, PmdLevel);
    SharedEntries(mm, start, addr, PmdLevel);
    PageTurnScan(mm, start, addr);
    NextPage(addr, end);
  }

  lemma PageTurnScan(mm: PgdTable, start: int, addr: int)
    requires 0 <= start <= addr && start % 0x1000 == 0 && addr % 0x1000 == 0
    ensures Scan(mm, start, addr + 0x1000) == Scan(mm, start, addr) + Visit(mm, addr)
  {
    ScanSplit(mm, start, addr, addr + 0x1000);
    ScanOnePage(mm, addr);
  }

  /** The entry under an incremented pmd or pud pointer is the one a walk from the root
      finds for the current address. */
  lemma PmdEntryAt(mm: PgdTable, pmds: PmdTable, start: int, addr: int)
    requires PudOf(mm, start) == PudEntry(pmds) && Block(addr, PudLevel) == Block(start, PudLevel)
    ensures pmds[Slot(addr, PmdLevel)] == PmdOf(mm, addr)
  {
    SharedEntries(mm, start, addr, PudLevel);
  }

  lemma PudEntryAt(mm: PgdTable, puds: PudTable, start: int, addr: int)
    requires PgdOf(mm, start) == PgdEntry(puds) && Block(addr, PgdLevel) == Block(start, PgdLevel)
    ensures puds[Slot(addr, PudLevel)] == PudOf(mm, addr)
  {
    SharedEntries(mm, start, addr, PgdLevel);
  }

  lemma NextPage(addr: int, end: int)
    requires addr % 0x1000 == 0 && end % 0x1000 == 0 && addr < end
    ensures addr + 0x1000 <= end && (addr + 0x1000) % 0x1000 == 0
  {
  }

  /** An upper loop: AddrEnd cuts off a piece under one entry, the scan splits there,
      and the incremented pointer is the slot of the following address. */
  lemma LevelTurn(mm: PgdTable, start: int, addr: int, end: int, level: Level)
    requires Upper(level) && 0 <= start <= addr && start % 0x1000 == 0
    requires PageRange(addr, end) && OneEntry(start, end, Up(level))
    ensures var next := AddrEnd(addr, end, level);
            && addr < next <= end && next % 0x1000 == 0
            && PageRange(addr, next) && OneEntry(addr, next, level)
            && Scan(mm, start, next) == Scan(mm, start, addr) + Scan(mm, addr, next)
            && (next < end ==> PageRange(next, end) && Slot(next, level) == Slot(addr, level) + 1)
            && Block(addr, Up(level)) == Block(start, Up(level))
  {
    var next := AddrEnd(addr, end, level);
    AddrEndStep(addr, end, level);
    ScanSplit(mm, start, addr, next);
    InBlock(start, addr, end, Up(level));
    if next < end {
      SlotStep(addr, next, end, level);
    }
  }

  // ---------- A process's mapped areas ----------

  /** The vm_area_struct chain: mm->mmap, linked by vm_next. */
  datatype VmaChain = NoVma | Vma(start: int, end: int, next: VmaChain)

  /** Each area is a range of whole pages inside one canonical half, and the chain is
      sorted and disjoint, as the kernel keeps it. */
  predicate Sorted(chain: VmaChain) {
    chain.Vma? ==>
      && PageRange(chain.start, chain.end)
      && OneEntry(chain.start, chain.end, Canonical)
      && (chain.next.Vma? ==> chain.end <= chain.next.start)
      && Sorted(chain.next)
  }

  predicate Covers(chain: VmaChain, x: int) {
    chain.Vma? && (chain.start <= x < chain.end || Covers(chain.next, x))
  }

  function ChainScan(mm: PgdTable, chain: VmaChain): seq<Hit>
    requires Sorted(chain)
  {
    match chain
    case NoVma => []
    case Vma(start, end, next) => Scan(mm, start, end) + ChainScan(mm, next)
  }

  /** What a correct report is, without reference to any traversal: pages strictly
      ascending, and a hit present exactly for the covered, present, accessed pages. */
  ghost predicate IsReport(mm: PgdTable, chain: VmaChain, s: seq<Hit>) {
    && (forall i, j :: 0 <= i < j < |s| ==> s[i].page < s[j].page)
    && (forall h :: h in s <==> IsHit(mm, chain, h))
  }

  ghost predicate IsHit(mm: PgdTable, chain: VmaChain, h: Hit) {
    && 0 <= h.page && h.page % 0x1000 == 0
    && Covers(chain, h.page)
    && var pte := PteOf(mm, h.page);
       pte.PteEntry? && pte.present && pte.young && pte.pfn == h.pfn
  }

  lemma CoversRange(a: int, e: int, x: int)
    ensures Covers(Vma(a, e, NoVma), x) <==> a <= x < e
  {
    assert !Covers(NoVma, x);
  }

  /** Two partial reports join when every covered page of the first region lies below
      every covered page of the second. */
  lemma JoinReports(mm: PgdTable, low: VmaChain, high: VmaChain, both: VmaChain, s: seq<Hit>, t: seq<Hit>)
    requires IsReport(mm, low, s) && IsReport(mm, high, t)
    requires forall x :: x % 0x1000 == 0 ==> (Covers(both, x) <==> Covers(low, x) || Covers(high, x))
    requires forall x, y :: Covers(low, x) && Covers(high, y) ==> x < y
    ensures IsReport(mm, both, s + t)
  {
    forall h ensures h in s + t <==> IsHit(mm, both, h) {
      assert h in s <==> IsHit(mm, low, h);
      assert h in t <==> IsHit(mm, high, h);
    }
    forall i, j | 0 <= i < j < |s + t| ensures (s + t)[i].page < (s + t)[j].page {
      if i < |s| <= j {
        assert s[i] in s && t[j - |s|] in t;
        assert IsHit(mm, low, s[i]) && IsHit(mm, high, t[j - |s|]);
      }
    }
  }

  lemma VisitIsReport(mm: PgdTable, a: int)
    requires 0 <= a && a % 0x1000 == 0
    ensures IsReport(mm, Vma(a, a + 1, NoVma), Visit(mm, a))
  {
    forall h ensures h in Visit(mm, a) <==> IsHit(mm, Vma(a, a + 1, NoVma), h) {
      CoversRange(a, a + 1, h.page);
    }
  }

  lemma {:induction false} ScanIsReport(mm: PgdTable, a: int, e: int)
    requires 0 <= a && a % 0x1000 == 0
    ensures IsReport(mm, Vma(a, e, NoVma), Scan(mm, a, e))
    decreases e - a
  {
    var low, high, both := Vma(a, a + 1, NoVma), Vma(a + 0x1000, e, NoVma), Vma(a, e, NoVma);
    forall x
      ensures Covers(low, x) <==> x == a
      ensures Covers(high, x) <==> a + 0x1000 <= x < e
      ensures Covers(both, x) <==> a <= x < e
    {
      CoversRange(a, a + 1, x);
      CoversRange(a + 0x1000, e, x);
      CoversRange(a, e, x);
    }
    if a < e {
      VisitIsReport(mm, a);
      ScanIsReport(mm, a + 0x1000, e);
      JoinReports(mm, low, high, both, Visit(mm, a), Scan(mm, a + 0x1000, e));
    }
  }

  lemma {:induction false} CoveredAbove(chain: VmaChain, x: int)
    requires Sorted(chain) && Covers(chain, x)
    ensures chain.Vma? && chain.start <= x
    decreases chain
  {
    if !(chain.start <= x < chain.end) {
      CoveredAbove(chain.next, x);
    }
  }

  /** The scan of a sorted, disjoint chain is a correct report of its union: no page
      is missed, invented, repeated or out of order. */
  lemma {:induction false} ChainScanIsReport(mm: PgdTable, chain: VmaChain)
    requires Sorted(chain)
    ensures IsReport(mm, chain, ChainScan(mm, chain))
    decreases chain
  {
    if chain.Vma? {
      var one := Vma(chain.start, chain.end, NoVma);
      ScanIsReport(mm, chain.start, chain.end);
      ChainScanIsReport(mm, chain.next);
      forall x ensures Covers(one, x) <==> chain.start <= x < chain.end {
        CoversRange(chain.start, chain.end, x);
      }
      forall y | Covers(chain.next, y) ensures chain.end <= y {
        CoveredAbove(chain.next, y);
      }
      JoinReports(mm, one, chain.next, chain, Scan(mm, chain.start, chain.end), ChainScan(mm, chain.next));
    }
  }

  /** There is only one correct report. */
  lemma ReportUnique(mm: PgdTable, chain: VmaChain, s: seq<Hit>, t: seq<Hit>)
    requires IsReport(mm, chain, s) && IsReport(mm, chain, t)
    ensures s == t
  {
    forall h ensures h in s <==> h in t {
      assert h in s <==> IsHit(mm, chain, h);
    }
    AscendingUnique(s, t);
  }

  lemma {:induction false} AscendingUnique(s: seq<Hit>, t: seq<Hit>)
    requires forall i, j :: 0 <= i < j < |s| ==> s[i].page < s[j].page
    requires forall i, j :: 0 <= i < j < |t| ==> t[i].page < t[j].page
    requires forall h :: h in s <==> h in t
    ensures s == t
  {
    if s != [] || t != [] {
      assert s != [] ==> s[0] in t;
      assert t != [] ==> t[0] in s;
      assert s[0] in t && t[0] in s;
      assert s[0] == t[0];
      forall h ensures h in s[1..] <==> h in t[1..] {
        assert h in s <==> h == s[0] || h in s[1..];
        assert h in t <==> h == t[0] || h in t[1..];
        assert s[0] !in s[1..] && t[0] !in t[1..];
      }
      AscendingUnique(s[1..], t[1..]);
    }
  }
}
