/** The timer callback of migrate.c: four nested walks over the page table, one per
    level, repeated for every mapped area of the monitored process. */
module PageWalk {
  import opened Kernel
  import opened PageTable
  import opened RunningAverage

  class Walker {
    // What has been logged and handed to collect_statistics so far.
    var report: seq<Hit>
    // The static counters of the timing code.
    var c: int
    var average: int
    // Every timing sample taken, for the specification only.
    ghost var samples: seq<int>

    ghost predicate Valid()
      reads this
    {
      0 <= c == |samples| && average == Average(samples)
    }

    constructor ()
      ensures Valid() && report == [] && samples == []
    {
      report, c, average, samples := [], 0, 0, [];
    }

    /** The page level looks its entry up again for every page; pte++ has no effect. */
    method ClearPteRange(mm: PgdTable, ptes: PteTable, start: int, end: int) returns (addr: int)
      requires PageRange(start, end) && OneEntry(start, end, PmdLevel)
      requires PmdOf(mm, start) == PmdEntry(ptes)
      modifies this`report
      ensures addr == end
      ensures report == old(report) + Scan(mm, start, end)
    {
      assert Scan(mm, start, start) == [];
      hide Scan, Slot, PmdOf, OneEntry, PageRange, HitOf;
      addr := start;
      while true
        invariant start <= addr < end && PageRange(addr, end)
        invariant report == old(report) + Scan(mm, start, addr)
        decreases end - addr
      {
        var pte := ptes[Slot(addr, Page)];
        PageTurn(mm, ptes, start, addr, end);
        AppendTwice(old(report), Scan(mm, start, addr), HitOf(pte, addr));
        AppendHit(report, pte, addr);
        if pte != PteNone {
          if pte.present && pte.young {
            report := report + [Hit(addr, pte.pfn)];
          }
        }
        addr := addr + 0x1000;
        if addr == end { break; }
      }
    }

    method ClearPmdRange(mm: PgdTable, pmds: PmdTable, start: int, end: int) returns (addr: int)
      requires PageRange(start, end) && OneEntry(start, end, PudLevel)
      requires PudOf(mm, start) == PudEntry(pmds)
      modifies this`report
      ensures addr == end
      ensures report == old(report) + Scan(mm, start, end)
    {
      assert Scan(mm, start, start) == [];
      hide Scan, Slot, PmdOf, PudOf, Block, OneEntry, AddrEnd, PageRange;
      addr := start;
      var pmd := Slot(addr, PmdLevel);
      while true
        invariant start <= addr < end && PageRange(addr, end)
        invariant pmd == Slot(addr, PmdLevel)
        invariant report == old(report) + Scan(mm, start, addr)
        decreases end - addr
      {
        var next := AddrEnd(addr, end, PmdLevel);
        LevelTurn(mm, start, addr, end, PmdLevel);
        AppendTwice(old(report), Scan(mm, start, addr), Scan(mm, addr, next));
        PmdEntryAt(mm, pmds, start, addr);
        if pmds[pmd] == PmdNone {
          NoneSubtree(mm, addr, next, PmdLevel);
        } else {
          next := ClearPteRange(mm, pmds[pmd].ptes, addr, next);
        }
        pmd := pmd + 1;
        addr := next;
        if addr == end { break; }
      }
    }

    method ClearPudRange(mm: PgdTable, puds: PudTable, start: int, end: int) returns (addr: int)
      requires PageRange(start, end) && OneEntry(start, end, PgdLevel)
      requires PgdOf(mm, start) == PgdEntry(puds)
      modifies this`report
      ensures addr == end
      ensures report == old(report) + Scan(mm, start, end)
    {
      assert Scan(mm, start, start) == [];
      hide Scan, Slot, PudOf, PgdOf, Block, OneEntry, AddrEnd, PageRange;
      addr := start;
      var pud := Slot(addr, PudLevel);
      while true
        invariant start <= addr < end && PageRange(addr, end)
        invariant pud == Slot(addr, PudLevel)
        invariant report == old(report) + Scan(mm, start, addr)
        decreases end - addr
      {
        var next := AddrEnd(addr, end, PudLevel);
        LevelTurn(mm, start, addr, end, PudLevel);
        AppendTwice(old(report), Scan(mm, start, addr), Scan(mm, addr, next));
        PudEntryAt(mm, puds, start, addr);
        if puds[pud] == PudNone {
          NoneSubtree(mm, addr, next, PudLevel);
        } else {
          next := ClearPmdRange(mm, puds[pud].pmds, addr, next);
        }
        pud := pud + 1;
        addr := next;
        if addr == end { break; }
      }
    }

    /** clear_page_range: the whole walk of one area equals the flat scan. */
    method ClearPageRange(mm: PgdTable, start: int, end: int)
      requires PageRange(start, end) && OneEntry(start, end, Canonical)
      modifies this`report
      ensures report == old(report) + Scan(mm, start, end)
    {
      assert Scan(mm, start, start) == [];
      hide Scan, Slot, Block, OneEntry, AddrEnd, PageRange;
      var addr := start;
      var pgd := Slot(addr, PgdLevel);
      while true
        invariant start <= addr < end && PageRange(addr, end)
        invariant pgd == Slot(addr, PgdLevel)
        invariant report == old(report) + Scan(mm, start, addr)
        decreases end - addr
      {
        var next := AddrEnd(addr, end, PgdLevel);
        LevelTurn(mm, start, addr, end, PgdLevel);
        AppendTwice(old(report), Scan(mm, start, addr), Scan(mm, addr, next));
        if mm[pgd] == PgdNone {
          NoneSubtree(mm, addr, next, PgdLevel);
        } else {
          next := ClearPudRange(mm, mm[pgd].puds, addr, next);
        }
        pgd := pgd + 1;
        addr := next;
        if addr == end { break; }
      }
    }

    /** GET_END_TIME, after GET_START_TIME has counted the sample. The two time stamps
        are parameters; their difference is taken in 64-bit arithmetic. */
    method GetEndTime(start: int, end: int)
      requires 0 < c == |samples| + 1 && average == Average(samples)
      modifies this`average, this`samples
      ensures Valid() && samples == old(samples) + [Wrap64(end - start)]
    {
      average := Wrap64(Wrap64(average * (c - 1)) + Wrap64(end - start)) / c;
      samples := samples + [Wrap64(end - start)];
      assert samples[..|samples| - 1] == old(samples);
    }

    /** The callback's loop over mm->mmap and its vm_next links. */
    method ClearEveryVma(mm: PgdTable, chain: VmaChain)
      requires Sorted(chain)
      modifies this`report
      ensures report == old(report) + ChainScan(mm, chain)
    {
      hide Scan;
      var vma := chain;
      ghost var done := [];
      while vma.Vma?
        invariant Sorted(vma)
        invariant report == old(report) + done && done + ChainScan(mm, vma) == ChainScan(mm, chain)
        decreases vma
      {
        AppendTwice(old(report), done, Scan(mm, vma.start, vma.end));
        AppendTwice(done, Scan(mm, vma.start, vma.end), ChainScan(mm, vma.next));
        ClearPageRange(mm, vma.start, vma.end);
        done := done + Scan(mm, vma.start, vma.end);
        vma := vma.next;
      }
      assert done == ChainScan(mm, chain);
    }

    /** hrtimer_def for a live task: one timing sample, and the one correct report of
        the process's mapped pages. */
    method TimerCallback(mm: PgdTable, chain: VmaChain, tscStart: int, tscEnd: int)
      requires Valid() && Sorted(chain) && c + 1 < U64
      modifies this
      ensures Valid()
      ensures samples == old(samples) + [Wrap64(tscEnd - tscStart)]
      ensures |report| >= |old(report)| && report[..|old(report)|] == old(report)
      ensures IsReport(mm, chain, report[|old(report)|..])
    {
      c := c + 1;
      ClearEveryVma(mm, chain);
      GetEndTime(tscStart, tscEnd);
      ChainScanIsReport(mm, chain);
      assert report[|old(report)|..] == ChainScan(mm, chain);
    }
  }
}
