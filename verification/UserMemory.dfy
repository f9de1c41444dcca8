/** The memory system calls: growing a process's heap, mapping and unmapping. */
module UserMemory {
  import opened Bits
  import opened Memory
  import opened PageAllocator
  import opened PageTables
  import opened VirtualMemory
  import opened UserSpace
  import opened ElfLoader

  const PROC_HEAP_BASE: nat := 0x0810_0000
  const MMAP_BASE: nat := 0x4000_0000
  const USER_PAGE: nat := PRESENT + WRITABLE + USER

  /** Pages counted for a length, in 32-bit arithmetic. */
  function PagesOf(bytes: Word): nat {
    (bytes as int + 4095) % 0x1_0000_0000 / 4096
  }

  /** That is enough exactly up to 0xFFFFF000 bytes, and no page at all beyond. */
  lemma PagesAreEnough(bytes: Word)
    ensures bytes <= 4096 * PagesOf(bytes) <==> bytes <= 0xFFFF_F000
    ensures bytes > 0xFFFF_F000 ==> PagesOf(bytes) == 0
    ensures bytes <= 0xFFFF_F000 ==> 4096 * PagesOf(bytes) < bytes + 4096
    ensures PagesOf(bytes) < VPAGES
  {
  }

  // ---- pages on 32 bits: behind the last one comes page 0 ----

  /** Page `v` is one of the `n` pages from page `p` on. */
  ghost predicate InRing(v: nat, p: nat, n: nat) {
    v < VPAGES && (v as int - p as int) % VPAGES < n
  }

  lemma RingIndex(p: nat, k: nat)
    requires p < VPAGES && k < VPAGES
    ensures var v := (p + k) % VPAGES; v < VPAGES && (v as int - p as int) % VPAGES == k
  {
  }

  /** Page `v` is the one that comes behind `i` pages from `p` on. */
  ghost predicate JoinsRing(v: nat, p: nat, i: nat) {
    forall w: nat :: InRing(w, p, i + 1) <==> InRing(w, p, i) || w == v
  }

  lemma RingStep(p: nat, i: nat, v: nat)
    requires p < VPAGES && i < VPAGES && v == (p + i) % VPAGES
    ensures JoinsRing(v, p, i)
  {
    RingIndex(p, i);
    forall w: nat
      ensures InRing(w, p, i + 1) <==> InRing(w, p, i) || w == v
    {
      if w < VPAGES && (w as int - p as int) % VPAGES == i {
        SameRingIndex(p, v, w);
      }
    }
  }

  lemma SameRingIndex(p: nat, v: nat, w: nat)
    requires p < VPAGES && v < VPAGES && w < VPAGES
    requires (v as int - p as int) % VPAGES == (w as int - p as int) % VPAGES
    ensures v == w
  {
  }

  /** Without wrap-around the ring is a range. */
  lemma RingIsRange(p: nat, n: nat)
    requires p + n <= VPAGES
    ensures forall v: nat :: InRing(v, p, n) <==> p <= v < p + n
  {
    forall v: nat | v < VPAGES
      ensures InRing(v, p, n) <==> p <= v < p + n
    {
    }
  }

  /** Byte `i` behind an address lies in the page that many pages behind its page. */
  lemma PageOfByte(addr: Word, i: nat)
    ensures (addr + i) % 0x1_0000_0000 / 4096 == (addr / 4096 + (addr % 4096 + i) / 4096) % VPAGES
  {
    var k, rest := (addr % 4096 + i) / 4096, (addr % 4096 + i) % 4096;
    var page := addr / 4096 + k;
    assert addr + i == 4096 * page + rest;
    assert page == page / VPAGES * VPAGES + page % VPAGES;
    assert addr + i == page / VPAGES * 0x1_0000_0000 + (4096 * (page % VPAGES) + rest);
  }

  ghost predicate SameOutsideRing(tables: map<nat, Word>, tables': map<nat, Word>, p: nat, n: nat) {
    forall v: nat :: !InRing(v, p, n) ==> SameAt(tables, tables', v)
  }

  ghost predicate RingMapped(tables: map<nat, Word>, p: nat, n: nat) {
    forall v: nat :: InRing(v, p, n) ==> v in tables
  }

  lemma RingUpdate(tables: map<nat, Word>, tables': map<nat, Word>, p: nat, n: nat, v: nat, e: Word)
    requires SameOutsideRing(tables, tables', p, n) && InRing(v, p, n)
    ensures SameOutsideRing(tables, tables'[v := e], p, n)
  {
    var more := tables'[v := e];
    forall w: nat | !InRing(w, p, n) ensures SameAt(tables, more, w) {
      assert SameAt(tables, tables', w);
    }
  }

  /** The pages of the ring have frames of their own, all different, taken from `free0` and
      free no more, that user code may read and write. */
  ghost predicate OwnRing(m: seq<Byte>, dir: nat, tables: map<nat, Word>, free0: set<nat>, free: set<nat>,
                          p: nat, n: nat)
    requires PageInside(m, dir)
  {
    && (forall v: nat :: InRing(v, p, n) ==> NewPage(m, dir, tables, free0, free, v))
    && (forall v: nat, w: nat :: InRing(v, p, n) && InRing(w, p, n) && v != w ==> FramesDiffer(tables, v, w))
  }

  ghost predicate NewPage(m: seq<Byte>, dir: nat, tables: map<nat, Word>, free0: set<nat>, free: set<nat>, v: nat)
    requires PageInside(m, dir)
  {
    && v in tables && UserBit(tables[v]) && Bit(tables[v], 1)
    && PageNo(tables[v]) in free0 && PageNo(tables[v]) !in free && Private(m, dir, PageNo(tables[v]))
  }

  lemma UserPageBits(phys: Word)
    ensures UserBit(Entry(phys, USER_PAGE)) && Bit(Entry(phys, USER_PAGE), 1)
  {
    EntryBit(phys, USER_PAGE, 1);
    EntryBit(phys, USER_PAGE, 2);
    assert Bit(7, 1) && Bit(7, 2);
  }

  /** One more page, mapped to a frame just taken from the free pages. */
  lemma OwnRingMore(m: seq<Byte>, m': seq<Byte>, dir: nat, tables: map<nat, Word>, free0: set<nat>, free: set<nat>,
                    free': set<nat>, p: nat, i: nat, v: nat, f: nat)
    requires PageInside(m, dir) && JoinsRing(v, p, i) && 4096 * f < 0x1_0000_0000
    requires !InRing(v, p, i) && OwnRing(m, dir, tables, free0, free, p, i)
    requires f in free && free <= free0 && free' <= free - {f} && PageInside(m, f) && !TablePage(m, dir, f)
    requires TablesOnly(m, m', dir, free - {f})
    ensures OwnRing(m', dir, tables[v := Entry(4096 * f, USER_PAGE)], free0, free', p, i + 1)
  {
    hide TablePage, InRing, Entry;
    var tables' := tables[v := Entry(4096 * f, USER_PAGE)];
    UserPageBits(4096 * f);
    forall w: nat | InRing(w, p, i + 1)
      ensures NewPage(m', dir, tables', free0, free', w)
    {
      assert w == v || NewPage(m, dir, tables, free0, free, w);
    }
    forall w: nat, u: nat | InRing(w, p, i + 1) && InRing(u, p, i + 1) && w != u
      ensures FramesDiffer(tables', w, u)
    {
      assert w == v || NewPage(m, dir, tables, free0, free, w);
      assert u == v || NewPage(m, dir, tables, free0, free, u);
      assert w != v && u != v ==> FramesDiffer(tables, w, u);
    }
  }

  lemma OwnRingMapped(m: seq<Byte>, dir: nat, tables: map<nat, Word>, free0: set<nat>, free: set<nat>, p: nat, n: nat)
    requires PageInside(m, dir) && OwnRing(m, dir, tables, free0, free, p, n)
    ensures RingMapped(tables, p, n)
  {
    hide InRing;
    forall v: nat | InRing(v, p, n)
      ensures v in tables
    {
      assert NewPage(m, dir, tables, free0, free, v);
    }
  }

  ghost predicate AllMapped(tables: map<nat, Word>, p: nat, q: nat) {
    forall v :: p <= v < q ==> v in tables
  }

  lemma MappedTogether(tables: map<nat, Word>, tables': map<nat, Word>, p: nat, q: nat, n: nat)
    requires p <= q && q + n <= VPAGES && AllMapped(tables, p, q)
    requires SameOutsideRing(tables, tables', q, n) && RingMapped(tables', q, n)
    ensures AllMapped(tables', p, q + n)
  {
    RingIsRange(q, n);
    forall v | p <= v < q + n ensures v in tables' {
      if v < q {
        assert SameAt(tables, tables', v);
      } else {
        assert InRing(v, q, n);
      }
    }
  }

  /** Maps `pages` fresh frames from `vaddr` on; a page without a frame is skipped.
      `ok` says that none was. */
  method MapRange(vmm: Vmm, vaddr: Word, pages: nat) returns (ok: bool)
    requires vmm.Valid() && pages < VPAGES
    modifies vmm.mem, vmm.pmm`freePages, vmm.pmm.bitmap
    ensures vmm.Valid() && vmm.pmm.Free() <= old(vmm.pmm.Free())
    ensures Evolved(old(vmm.mem.ram), vmm.mem.ram, vmm.Dir(), old(vmm.pmm.Free()))
    ensures SameOutsideRing(old(vmm.Map()), vmm.Map(), vaddr / 4096, pages)
    ensures ok ==>
              OwnRing(vmm.mem.ram, vmm.Dir(), vmm.Map(), old(vmm.pmm.Free()), vmm.pmm.Free(), vaddr / 4096, pages)
    ensures !ok ==> vmm.pmm.Free() == {}
  {
    hide TablePage, Mappings, WordAt, Entry, InRing, SameOutsideRing, OwnRing, Evolved;
    ghost var m, free, tables, p := vmm.mem.ram, vmm.pmm.Free(), vmm.Map(), vaddr / 4096;
    NothingYet(tables, p, pages);
    NothingOwned(m, vmm.Dir(), tables, free, p);
    ok := true;
    var i := 0;
    while i < pages
      invariant 0 <= i <= pages
      invariant vmm.Valid() && vmm.pmm.Free() <= free && PageInside(m, vmm.Dir())
      invariant Evolved(m, vmm.mem.ram, vmm.Dir(), free)
      invariant SameOutsideRing(tables, vmm.Map(), p, pages)
      invariant ok ==> OwnRing(vmm.mem.ram, vmm.Dir(), vmm.Map(), free, vmm.pmm.Free(), p, i)
      invariant !ok ==> vmm.pmm.Free() == {}
    {
      var more := MapNext(vmm, vaddr, i, pages, m, free, tables, ok);
      ok := ok && more;
      i := i + 1;
    }
  }

  /** The `i`-th page of the range. */
  method MapNext(vmm: Vmm, vaddr: Word, i: nat, pages: nat, ghost m: seq<Byte>, ghost free: set<nat>,
                 ghost tables: map<nat, Word>, ghost ok: bool)
    returns (more: bool)
    requires vmm.Valid() && i < pages < VPAGES && vmm.pmm.Free() <= free && PageInside(m, vmm.Dir())
    requires Evolved(m, vmm.mem.ram, vmm.Dir(), free)
    requires SameOutsideRing(tables, vmm.Map(), vaddr / 4096, pages)
    requires ok ==> OwnRing(vmm.mem.ram, vmm.Dir(), vmm.Map(), free, vmm.pmm.Free(), vaddr / 4096, i)
    modifies vmm.mem, vmm.pmm`freePages, vmm.pmm.bitmap
    ensures vmm.Valid() && vmm.pmm.Free() <= old(vmm.pmm.Free())
    ensures Evolved(m, vmm.mem.ram, vmm.Dir(), free)
    ensures SameOutsideRing(tables, vmm.Map(), vaddr / 4096, pages)
    ensures ok && more ==> OwnRing(vmm.mem.ram, vmm.Dir(), vmm.Map(), free, vmm.pmm.Free(), vaddr / 4096, i + 1)
    ensures !more ==> vmm.pmm.Free() == {}
  {
    hide TablePage, Mappings, WordAt, Entry, InRing, SameOutsideRing, OwnRing, Private;
    ghost var m1, free1, tables1, p := vmm.mem.ram, vmm.pmm.Free(), vmm.Map(), vaddr / 4096;
    var r, f := AllocAndMap(vmm, (vaddr + i * 4096) % 0x1_0000_0000, USER_PAGE);
    PageNumber(vaddr, i, pages);
    EvolvedByTables(m1, vmm.mem.ram, vmm.Dir(), free1);
    EvolvedTransitive(m, m1, vmm.mem.ram, vmm.Dir(), free, free1);
    more := r == Success;
    if more {
      ghost var v := (p + i) % VPAGES;
      RingUpdate(tables, tables1, p, pages, v, Entry(4096 * f, USER_PAGE));
      if ok {
        OwnRingMore(m1, vmm.mem.ram, vmm.Dir(), tables1, free, free1, vmm.pmm.Free(), p, i, v, f);
      }
    }
  }

  lemma NothingOwned(m: seq<Byte>, dir: nat, tables: map<nat, Word>, free: set<nat>, p: nat)
    requires PageInside(m, dir)
    ensures OwnRing(m, dir, tables, free, free, p, 0) && Evolved(m, m, dir, free)
  {
    assert forall v: nat :: !InRing(v, p, 0);
  }

  lemma NothingYet(tables: map<nat, Word>, p: nat, n: nat)
    ensures SameOutsideRing(tables, tables, p, n) && RingMapped(tables, p, 0) && Unmapped(tables, tables, p, 0)
  {
    assert forall v: nat :: !InRing(v, p, 0);
  }

  /** The page of the `i`-th of `pages` steps, and that it joins the ring. */
  lemma PageNumber(vaddr: Word, i: nat, pages: nat)
    requires i < pages < VPAGES
    ensures var v := (vaddr / 4096 + i) % VPAGES;
            && (vaddr + i * 4096) % 0x1_0000_0000 / 4096 == v && InRing(v, vaddr / 4096, pages)
            && JoinsRing(v, vaddr / 4096, i) && !InRing(v, vaddr / 4096, i)
  {
    PageOfByte(vaddr, i * 4096);
    assert (vaddr % 4096 + i * 4096) / 4096 == i;
    RingIndex(vaddr / 4096, i);
    var p := vaddr / 4096;
    var v := (p + i) % VPAGES;
    assert InRing(v, p, pages) && !InRing(v, p, i);
    hide InRing, JoinsRing;
    RingStep(p, i, v);
  }

  /** The break of a process and the end of its mapped heap. */
  class UserHeap {
    const vmm: Vmm
    var brk: Word
    var brkMax: Word

    constructor (vmm: Vmm)
      requires vmm.Valid() && AllMapped(vmm.Map(), PROC_HEAP_BASE / 4096, PROC_HEAP_BASE / 4096 + 16)
      ensures this.vmm == vmm && Valid() && brk == 0x0810_0000 && brkMax == 0x0811_0000
    {
      this.vmm := vmm;
      brk := PROC_HEAP_BASE;
      brkMax := PROC_HEAP_BASE + 16 * 4096;
    }

    /** The break stays inside the heap, and the heap is mapped without a hole. */
    ghost predicate Valid()
      reads this, vmm, vmm.mem, vmm.pmm, vmm.pmm.bitmap
    {
      && vmm.Valid()
      && PROC_HEAP_BASE <= brk <= brkMax && brkMax % 4096 == 0
      && AllMapped(vmm.Map(), PROC_HEAP_BASE / 4096, brkMax / 4096)
    }

    /** The arithmetic of a move: beyond the end nothing wraps but, perhaps, the new end. */
    static lemma BreakMoves(brk: Word, brkMax: Word, increment: Word)
      requires PROC_HEAP_BASE <= brk <= brkMax && brkMax % 4096 == 0
      ensures PagesOf(increment) < VPAGES
      ensures var moved, end := (brk + increment) % 0x1_0000_0000, brkMax + PagesOf(increment) * 4096;
              moved > brkMax ==>
                && (end < 0x1_0000_0000 ==>
                      moved <= end && end % 4096 == 0 && end / 4096 == brkMax / 4096 + PagesOf(increment))
                && (end >= 0x1_0000_0000 ==> end % 0x1_0000_0000 < moved)
    {
      PagesAreEnough(increment);
    }

    /** Moves the break by any amount, a negative one as its complement; `ok` is false when
        some new page got no frame. When none is missing the heap stays as it should exactly
        if the break does not go below the base and the end does not wrap around. */
    method Sbrk(increment: Word) returns (oldBrk: Word, ok: bool)
      requires Valid()
      modifies this, vmm.mem, vmm.pmm`freePages, vmm.pmm.bitmap
      ensures oldBrk == old(brk) && brk == (old(brk) + increment) % 0x1_0000_0000
      ensures brkMax == if brk <= old(brkMax) then old(brkMax)
                        else (old(brkMax) + PagesOf(increment) * 4096) % 0x1_0000_0000
      ensures vmm.Valid() && (brk <= old(brkMax) ==> ok && vmm.Map() == old(vmm.Map()))
      ensures SameOutsideRing(old(vmm.Map()), vmm.Map(), old(brkMax) / 4096, PagesOf(increment))
      ensures Evolved(old(vmm.mem.ram), vmm.mem.ram, vmm.Dir(), old(vmm.pmm.Free()))
      ensures brk <= old(brkMax) ==> vmm.mem.ram == old(vmm.mem.ram) && vmm.pmm.Free() == old(vmm.pmm.Free())
      ensures ok && brk > old(brkMax) ==>
                OwnRing(vmm.mem.ram, vmm.Dir(), vmm.Map(), old(vmm.pmm.Free()), vmm.pmm.Free(), old(brkMax) / 4096,
                        PagesOf(increment))
      ensures ok ==>
                (Valid() <==> PROC_HEAP_BASE <= brk
                              && (brk <= old(brkMax)
                                  || old(brkMax) + PagesOf(increment) * 4096 < 0x1_0000_0000))
      ensures !ok ==> vmm.pmm.Free() == {}
    {
      hide TablePage, Mappings, WordAt, InRing, PagesOf, SameOutsideRing, RingMapped, OwnRing;
      oldBrk := brk;
      BreakMoves(brk, brkMax, increment);
      if (oldBrk + increment) % 0x1_0000_0000 <= brkMax {
        brk := (brk + increment) % 0x1_0000_0000;
        ok := true;
        NothingYet(vmm.Map(), brkMax / 4096, PagesOf(increment));
        return;
      }
      var newPages := PagesOf(increment);
      ghost var tables, p := vmm.Map(), brkMax / 4096;
      ok := MapRange(vmm, brkMax, newPages);
      if ok && brkMax + newPages * 4096 < 0x1_0000_0000 {
        OwnRingMapped(vmm.mem.ram, vmm.Dir(), vmm.Map(), old(vmm.pmm.Free()), vmm.pmm.Free(), p, newPages);
        MappedTogether(tables, vmm.Map(), PROC_HEAP_BASE / 4096, p, newPages);
      }
      brkMax := (brkMax + newPages * 4096) % 0x1_0000_0000;
      brk := (brk + increment) % 0x1_0000_0000;
    }
  }

  /** A negative increment is never refused: from the base it leads below the heap. */
  lemma SbrkBelowBase(brk: Word, brkMax: Word, less: nat)
    requires PROC_HEAP_BASE <= brk <= brkMax && 0 < less <= brk
    ensures var r := (brk + (0x1_0000_0000 - less)) % 0x1_0000_0000;
            r <= brkMax && (r < PROC_HEAP_BASE <==> less > brk - PROC_HEAP_BASE)
  {
  }

  /** Maps fresh memory at `addr`, or at a fixed address when that is 0; no memory for length 0. */
  method Mmap(vmm: Vmm, addr: Word, len: Word) returns (start: Word, ok: bool)
    requires vmm.Valid()
    modifies vmm.mem, vmm.pmm`freePages, vmm.pmm.bitmap
    ensures vmm.Valid()
    ensures len == 0 ==> start == 0 && vmm.Map() == old(vmm.Map()) && vmm.mem.ram == old(vmm.mem.ram)
    ensures len > 0 ==> start == if addr != 0 then addr else 0x4000_0000
    ensures len > 0 ==> SameOutsideRing(old(vmm.Map()), vmm.Map(), start / 4096, PagesOf(len))
    ensures Evolved(old(vmm.mem.ram), vmm.mem.ram, vmm.Dir(), old(vmm.pmm.Free()))
    ensures len > 0 && ok ==>
              OwnRing(vmm.mem.ram, vmm.Dir(), vmm.Map(), old(vmm.pmm.Free()), vmm.pmm.Free(), start / 4096,
                      PagesOf(len))
    ensures len > 0 && ok ==> RingMapped(vmm.Map(), start / 4096, PagesOf(len))
    ensures !ok ==> vmm.pmm.Free() == {}
  {
    if len == 0 {
      return 0, true;
    }
    hide TablePage, Mappings, OwnRing, InRing, PagesOf;
    PagesAreEnough(len);
    start := if addr != 0 then addr else MMAP_BASE;
    ok := MapRange(vmm, start, PagesOf(len));
    if ok {
      OwnRingMapped(vmm.mem.ram, vmm.Dir(), vmm.Map(), old(vmm.pmm.Free()), vmm.pmm.Free(), start / 4096, PagesOf(len));
    }
  }

  /** Unmaps the pages of a range; their frames are not given back. */
  method Munmap(vmm: Vmm, addr: Word, len: Word)
    requires vmm.Valid()
    modifies vmm.mem
    ensures vmm.Valid() && vmm.pmm.Free() == old(vmm.pmm.Free())
    ensures Unmapped(old(vmm.Map()), vmm.Map(), addr / 4096, PagesOf(len))
  {
    hide TablePage, Mappings, WordAt, InRing;
    ghost var tables, p := vmm.Map(), addr / 4096;
    PagesAreEnough(len);
    NothingYet(tables, p, PagesOf(len));
    var pages := PagesOf(len);
    var i := 0;
    while i < pages
      invariant 0 <= i <= pages
      invariant vmm.Valid()
      invariant Unmapped(tables, vmm.Map(), p, i)
    {
      vmm.UnmapPage((addr + i * 4096) % 0x1_0000_0000);
      PageNumber(addr, i, pages);
      i := i + 1;
    }
  }

  /** `tables'` is `tables` without the `n` pages from `p` on. */
  ghost predicate Unmapped(tables: map<nat, Word>, tables': map<nat, Word>, p: nat, n: nat) {
    tables' == map v | v in tables && !InRing(v, p, n) :: tables[v]
  }

  /** Mapping a range and unmapping it restores the translations exactly when nothing
      was mapped there before. */
  lemma MmapThenMunmap(before: map<nat, Word>, between: map<nat, Word>, after: map<nat, Word>, p: nat, n: nat)
    requires SameOutsideRing(before, between, p, n)
    requires Unmapped(between, after, p, n)
    ensures after == before <==> forall v: nat :: InRing(v, p, n) ==> v !in before
  {
    hide InRing;
    forall v: nat | !InRing(v, p, n) ensures (v in after <==> v in before) && (v in before ==> after[v] == before[v]) {
      assert SameAt(before, between, v);
    }
    if forall v: nat :: InRing(v, p, n) ==> v !in before {
      forall v: nat ensures v in after <==> v in before {
        assert InRing(v, p, n) ==> v !in after;
      }
    }
  }

  /** Every byte of the range lies in a mapped page. */
  ghost predicate BytesMapped(tables: map<nat, Word>, addr: nat, len: nat) {
    forall i: nat :: i < len ==> OnPage(tables, addr, i)
  }

  ghost predicate NoByteMapped(tables: map<nat, Word>, addr: nat, len: nat) {
    forall i: nat :: i < len ==> !OnPage(tables, addr, i)
  }

  ghost predicate OnPage(tables: map<nat, Word>, addr: nat, i: nat) {
    (addr + i) % 0x1_0000_0000 / 4096 in tables
  }

  /** Whether the pages counted for a length cover the range that starts at `addr`. */
  predicate PagesCover(addr: Word, len: Word) {
    addr % 4096 + len <= 4096 * PagesOf(len)
  }

  /** The page behind the counted ones. */
  function PageBehind(addr: Word, len: Word): nat {
    (addr / 4096 + PagesOf(len)) % VPAGES
  }

  /** A byte of the range lies in a counted page or in the one behind; the last byte lies
      behind if the counted pages do not cover the range. */
  lemma WhereBytesLie(addr: Word, len: Word, i: nat)
    requires i < len <= 0xFFFF_F000
    ensures var v := (addr + i) % 0x1_0000_0000 / 4096;
            && !InRing(PageBehind(addr, len), addr / 4096, PagesOf(len))
            && (InRing(v, addr / 4096, PagesOf(len)) || (v == PageBehind(addr, len) && !PagesCover(addr, len)))
            && (i == len - 1 && !PagesCover(addr, len) ==> v == PageBehind(addr, len))
  {
    PagesAreEnough(len);
    PageOfByte(addr, i);
    var k := (addr % 4096 + i) / 4096;
    RingIndex(addr / 4096, k);
    RingIndex(addr / 4096, PagesOf(len));
  }

  /** The page count ignores where in its page the range starts: `sys_mmap` leaves every byte
      mapped if and only if the offset still fits, or the page behind was mapped anyway; for
      more than 0xFFFFF000 bytes it maps none. */
  lemma MmapCoversBytes(before: map<nat, Word>, after: map<nat, Word>, addr: Word, len: Word)
    requires len > 0 && SameOutsideRing(before, after, addr / 4096, PagesOf(len))
    requires RingMapped(after, addr / 4096, PagesOf(len))
    ensures BytesMapped(after, addr, len)
            <==> if len > 0xFFFF_F000 then BytesMapped(before, addr, len)
                 else PagesCover(addr, len) || PageBehind(addr, len) in before
  {
    if len > 0xFFFF_F000 {
      PagesAreEnough(len);
      forall i: nat
        ensures OnPage(after, addr, i) <==> OnPage(before, addr, i)
      {
        assert SameAt(before, after, (addr + i) % 0x1_0000_0000 / 4096);
      }
    } else {
      hide PagesOf, PagesCover, PageBehind, InRing;
      WhereBytesLie(addr, len, len - 1);
      assert SameAt(before, after, PageBehind(addr, len));
      forall i: nat | i < len
        ensures OnPage(after, addr, i) || (!PagesCover(addr, len) && PageBehind(addr, len) !in before)
      {
        WhereBytesLie(addr, len, i);
      }
      if !PagesCover(addr, len) && PageBehind(addr, len) !in before {
        assert !OnPage(after, addr, len - 1);
      }
    }
  }

  /** Likewise `sys_munmap` leaves a byte mapped exactly when the range reaches into a page
      behind the counted ones that is mapped. */
  lemma MunmapCoversBytes(before: map<nat, Word>, after: map<nat, Word>, addr: Word, len: Word)
    requires len > 0 && Unmapped(before, after, addr / 4096, PagesOf(len))
    ensures NoByteMapped(after, addr, len)
            <==> if len > 0xFFFF_F000 then NoByteMapped(before, addr, len)
                 else PagesCover(addr, len) || PageBehind(addr, len) !in before
  {
    if len > 0xFFFF_F000 {
      PagesAreEnough(len);
      assert forall v: nat :: v in before <==> v in after;
      forall i: nat
        ensures OnPage(after, addr, i) <==> OnPage(before, addr, i)
      {
      }
    } else {
      hide PagesOf, PagesCover, PageBehind, InRing;
      WhereBytesLie(addr, len, len - 1);
      forall i: nat | i < len
        ensures !OnPage(after, addr, i) || (!PagesCover(addr, len) && PageBehind(addr, len) in before)
      {
        WhereBytesLie(addr, len, i);
      }
      if !PagesCover(addr, len) && PageBehind(addr, len) in before {
        assert OnPage(after, addr, len - 1);
      }
    }
  }

  /** One page of bytes from the middle of a page: counted as one page, lying in two. */
  lemma MiddleOfPage()
    ensures !PagesCover(0x1800, 0x1000) && PagesOf(0x1000) == 1
  {
  }
}
