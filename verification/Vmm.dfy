/** The paging engine: map, unmap and look up virtual pages by editing the tables
    of `PageTables` in physical memory. */
module VirtualMemory {
  import opened Bits
  import opened Memory
  import opened PageAllocator
  import opened PageTables

  const PRESENT: nat := 0x1
  const WRITABLE: nat := 0x2
  const USER: nat := 0x4

  /** A page address and what may be added below it. */
  lemma PageParts(phys: Word, f: nat)
    requires f < 4096
    ensures (phys - phys % 4096) % 4096 == 0 && phys - phys % 4096 + f < 0x1_0000_0000
    ensures (phys - phys % 4096 + f) / 4096 == phys / 4096
  {
    var x := phys - phys % 4096 + f;
    SameQuotient(4096, phys / 4096, f, x / 4096, x % 4096);
    SameQuotient(4096, phys / 4096, 0, (x - f) / 4096, (x - f) % 4096);
  }

  /** The table entry for a frame with flags; it is always present. */
  function Entry(phys: Word, flags: nat): (e: Word)
    requires flags < 4096
    ensures Present(e) && PageNo(e) == phys / 4096
  {
    PageParts(phys, flags + 1 - flags % 2);
    phys - phys % 4096 + (flags + 1 - flags % 2)
  }

  /** `PAGE_DIR_INDEX` */
  method DirIndexOf(virt: Word) returns (i: nat)
    ensures i == virt / 4096 / ENTRIES && i < ENTRIES
  {
    DirectoryIndex(virt);
    i := And(Shr(virt, 22), 0x3FF);
  }

  /** `PAGE_TBL_INDEX` */
  method TableIndexOf(virt: Word) returns (i: nat)
    ensures i == virt / 4096 % ENTRIES
  {
    TableIndex(virt);
    i := And(Shr(virt, 12), 0x3FF);
  }

  method IsPresent(e: Word) returns (p: bool)
    ensures p == Present(e)
  {
    LowBit(e);
    p := And(e, PRESENT) != 0;
  }

  method PageAddr(e: Word) returns (a: nat)
    ensures a == 4096 * PageNo(e)
  {
    PageMasks(e);
    a := And(e, 0xFFFF_F000);
  }

  method AtOffset(e: Word, virt: Word) returns (a: Word)
    ensures a == 4096 * PageNo(e) + virt % 4096
  {
    hide Or, And;
    PageMasks(e);
    PageMasks(virt);
    PageParts(e, virt % 4096);
    JoinFlags(e - e % 4096, virt % 4096);
    a := Or(And(e, 0xFFFF_F000), And(virt, 0xFFF));
  }

  lemma ParityBelow(phys: Word, f: nat)
    ensures (phys - phys % 4096 + f) % 2 == f % 2
  {
    assert phys - phys % 4096 == 2 * (2048 * (phys / 4096));
  }

  method MakeEntry(phys: Word, flags: nat) returns (e: Word)
    requires flags < 4096
    ensures e == Entry(phys, flags)
  {
    hide Or, And;
    PageMasks(phys);
    PageParts(phys, flags);
    JoinFlags(phys - phys % 4096, flags);
    OrOne(phys - phys % 4096 + flags);
    ParityBelow(phys, flags);
    e := Or(Or(And(phys, 0xFFFF_F000), flags), PRESENT);
  }

  /** Above the present bit the entry's flags are the flags asked for. */
  lemma EntryBit(phys: Word, flags: nat, n: nat)
    requires flags < 4096 && 0 < n < 12
    ensures Bit(Entry(phys, flags), n) <==> Bit(flags, n)
  {
    hide Entry, Bit;
    var f := flags + 1 - flags % 2;
    EntryLow(phys, flags);
    BitBelowPage(Entry(phys, flags), f, n);
    BitAboveFirst(f, flags, n);
  }

  lemma BitBelowPage(e: Word, f: nat, n: nat)
    requires e % 4096 == f && n < 12
    ensures Bit(e, n) == Bit(f, n)
  {
    Powers();
    SplitDiv(e, 12, 4096);
    BitOfLow(e, 12, n);
  }

  lemma BitAboveFirst(x: nat, y: nat, n: nat)
    requires x / 2 == y / 2 && n > 0
    ensures Bit(x, n) == Bit(y, n)
  {
  }

  lemma EntryLow(phys: Word, flags: nat)
    requires flags < 4096
    ensures Entry(phys, flags) % 4096 == flags + 1 - flags % 2
  {
  }

  /** An entry for frame `phys / 4096` that allows what `flags` ask for. */
  ghost predicate Allows(e: Word, phys: Word, flags: nat) {
    Present(e) && PageNo(e) == phys / 4096 && forall n :: 0 < n < 12 ==> (Bit(e, n) <==> Bit(flags, n))
  }

  lemma EntryAllows(phys: Word, flags: nat)
    requires flags < 4096
    ensures Allows(Entry(phys, flags), phys, flags)
  {
    forall n | 0 < n < 12
      ensures Bit(Entry(phys, flags), n) <==> Bit(flags, n)
    {
      EntryBit(phys, flags, n);
    }
  }

  /** Bit 2 is decided below the page number, and not by bit 0. */
  lemma ThirdBit(page: nat, f: nat)
    requires f <= 4096
    ensures Bit(4096 * page + f, 2) <==> f / 4 % 2 == 1
  {
    var x := 4096 * page + f;
    assert x / 2 / 2 == 1024 * page + f / 4;
    assert Bit(x, 2) <==> Bit(x / 2 / 2, 0);
  }

  /** Directory entries are present and writable, and carry the user flag of the mapping
      that first needed them. */
  method MakeDirectoryEntry(table: Word, flags: nat) returns (e: Word)
    requires table % 4096 == 0 && flags < 4096
    ensures Present(e) && Bit(e, 1) && PageNo(e) == table / 4096
    ensures UserBit(e) <==> Bit(flags, 2)
  {
    ghost var page := table / 4096;
    ThirdBit(page, 0);
    BitOr(table, PRESENT, 2);
    BitPow2(0, 2);
    JoinPage(table, PRESENT);
    var e1 := Or(table, PRESENT);
    JoinPage(e1, WRITABLE);
    var e2 := Or(e1, WRITABLE);
    BitOr(e1, WRITABLE, 2);
    BitOr(e1, WRITABLE, 1);
    BitPow2(1, 2);
    BitPow2(1, 1);
    BitOr(e2, And(flags, USER), 2);
    BitOr(e2, And(flags, USER), 1);
    BitAnd(flags, USER, 2);
    BitPow2(2, 2);
    AndBound(flags, USER);
    JoinPage(e2, And(flags, USER));
    e := Or(e2, And(flags, USER));
  }

  class Vmm {
    const mem: PhysMem
    const pmm: Pmm
    var pageDirectory: Word

    /** Builds the directory and one table that maps the first 4 MB to itself. */
    constructor (mem: PhysMem, pmm: Pmm)
      requires pmm.Valid() && 0 !in pmm.Free() && |pmm.Free()| >= 2
      requires pmm.totalPages * PAGE_SIZE <= |mem.ram|
      modifies mem, pmm`freePages, pmm.bitmap
      ensures this.mem == mem && this.pmm == pmm && Valid()
      ensures Map() == map v: nat | 0 <= v < ENTRIES :: FirstEntry(v)
      ensures forall v :: v in Map() <==> 0 <= v < 1024
      ensures forall v :: 0 <= v < 1024 ==> PageNo(Map()[v]) == v && Bit(Map()[v], 1) && !UserBit(Map()[v])
      ensures !UserBit(WordAt(mem.ram, Dir(), 0))
      ensures Dir() in old(pmm.Free()) && pmm.Free() <= old(pmm.Free())
      ensures |mem.ram| == old(|mem.ram|)
      ensures forall f :: TablePage(mem.ram, Dir(), f) ==> f in old(pmm.Free())
      ensures forall a :: 0 <= a < |mem.ram| && a / 4096 !in old(pmm.Free()) ==> mem.ram[a] == old(mem.ram)[a]
    {
      hide Mappings, TablePage, Separate, FirstEntry;
      var pd, table := TakeTwo(pmm);
      InitTables(mem, pd, table);
      this.mem := mem;
      this.pmm := pmm;
      pageDirectory := pd;
      new;
      forall v | 0 <= v < 1024
        ensures PageNo(FirstEntry(v)) == v && Bit(FirstEntry(v), 1) && !UserBit(FirstEntry(v))
      {
        FirstIsIdentity(v);
      }
    }

    ghost function Dir(): nat
      reads this
    {
      pageDirectory / 4096
    }

    ghost predicate Tables()
      reads this, mem
    {
      pageDirectory % 4096 == 0 && Separate(mem.ram, Dir())
    }

    /** The tables lie in pages the allocator does not count as free. */
    ghost predicate Valid()
      reads this, mem, pmm, pmm.bitmap
    {
      && Tables()
      && pmm.Valid() && 0 !in pmm.Free()
      && pmm.totalPages * PAGE_SIZE <= |mem.ram|
      && forall f :: TablePage(mem.ram, Dir(), f) ==> f !in pmm.Free()
    }

    /** The translations in force: virtual page to table entry. */
    ghost function Map(): map<nat, Word>
      requires Tables()
      reads this, mem
    {
      Mappings(mem.ram, Dir())
    }

    /** Looks a virtual address up; 0 when its page is not mapped. */
    method GetPhys(virt: Word) returns (phys: Word)
      requires Tables()
      ensures phys == if virt / 4096 in Map() then 4096 * PageNo(Map()[virt / 4096]) + virt % 4096 else 0
    {
      hide Load32, TablePage;
      var pdIdx := DirIndexOf(virt);
      var ptIdx := TableIndexOf(virt);
      ghost var v := virt / 4096;
      var pde := Load32(mem.ram, pageDirectory + 4 * pdIdx);
      assert pde == WordAt(mem.ram, Dir(), pdIdx);
      var present := IsPresent(pde);
      if !present {
        assert Pte(mem.ram, Dir(), v) == 0;
        return 0;
      }
      assert TableOk(mem.ram, Dir(), pdIdx);
      var pt := PageAddr(pde);
      var entry := Load32(mem.ram, pt + 4 * ptIdx);
      assert entry == Pte(mem.ram, Dir(), v);
      present := IsPresent(entry);
      if !present {
        return 0;
      }
      phys := AtOffset(entry, virt);
    }

    /** Stores one entry of an existing table. */
    method StoreEntry(pdIdx: nat, ptIdx: nat, e: Word)
      requires Valid() && pdIdx < ENTRIES && ptIdx < ENTRIES && Present(WordAt(mem.ram, Dir(), pdIdx))
      modifies mem
      ensures Valid()
      ensures var v := ENTRIES * pdIdx + ptIdx;
              Map() == if Present(e) then old(Map())[v := e] else old(Map()) - {v}
      ensures TablesOnly(old(mem.ram), mem.ram, Dir(), {}) && SameWords(old(mem.ram), mem.ram, Dir(), -1)
    {
      ghost var m := mem.ram;
      assert TableOk(m, Dir(), pdIdx);
      var pt := PageAddr(Load32(mem.ram, pageDirectory + 4 * pdIdx));
      mem.Write32(pt + 4 * ptIdx, e);
      SetEntry(m, mem.ram, Dir(), ENTRIES * pdIdx + ptIdx, e);
    }

    /** Removes one virtual page from the map. */
    method UnmapPage(virt: Word)
      requires Valid()
      modifies mem
      ensures Valid() && Map() == old(Map()) - {virt / 4096}
      ensures TablesOnly(old(mem.ram), mem.ram, Dir(), {})
    {
      hide Mappings, TablePage, Load32;
      var pdIdx := DirIndexOf(virt);
      var ptIdx := TableIndexOf(virt);
      assert ENTRIES * pdIdx + ptIdx == virt / 4096;
      var pde := Load32(mem.ram, pageDirectory + 4 * pdIdx);
      assert pde == WordAt(mem.ram, Dir(), pdIdx);
      var present := IsPresent(pde);
      if present {
        StoreEntry(pdIdx, ptIdx, 0);
      } else if virt / 4096 in Map() {
        MappedBelow(mem.ram, Dir(), virt / 4096);
      }
    }

    /** Hangs an empty table under directory entry `pdIdx` if there is none yet. */
    method EnsureTable(pdIdx: nat, flags: nat) returns (ok: bool)
      requires Valid() && pdIdx < ENTRIES && flags < 4096
      modifies mem, pmm`freePages, pmm.bitmap
      ensures ok == (Present(old(WordAt(mem.ram, Dir(), pdIdx))) || old(pmm.Free()) != {})
      ensures Valid() && Map() == old(Map()) && pmm.Free() <= old(pmm.Free())
      ensures ok ==> Present(WordAt(mem.ram, Dir(), pdIdx))
      ensures TablesOnly(old(mem.ram), mem.ram, Dir(), old(pmm.Free()))
      ensures !ok || Present(old(WordAt(mem.ram, Dir(), pdIdx))) ==> mem.ram == old(mem.ram)
      ensures |mem.ram| == old(|mem.ram|) && SameWords(old(mem.ram), mem.ram, Dir(), pdIdx)
      ensures ok && !Present(old(WordAt(mem.ram, Dir(), pdIdx))) ==>
                Bit(WordAt(mem.ram, Dir(), pdIdx), 1) && (UserBit(WordAt(mem.ram, Dir(), pdIdx)) <==> Bit(flags, 2))
    {
      hide TablePage, Mappings, Load32, Pmm.Free;
      var present := IsPresent(Load32(mem.ram, pageDirectory + 4 * pdIdx));
      if present {
        return true;
      }
      FreeIsManaged(pmm);
      var table := pmm.AllocPage();
      if table == 0 {
        return false;
      }
      assert !TablePage(mem.ram, Dir(), table / 4096);
      ghost var m, free := mem.ram, pmm.Free();
      HangTable(pdIdx, table, flags);
      TableFromFree(m, mem.ram, Dir(), table / 4096, free + {table / 4096});
      ok := true;
    }

    /** Clears a page that is no table yet and enters it into the directory. */
    method HangTable(pdIdx: nat, table: Word, flags: nat)
      requires Tables() && pdIdx < ENTRIES && flags < 4096
      requires table % 4096 == 0 && PageInside(mem.ram, table / 4096)
      requires !TablePage(mem.ram, Dir(), table / 4096) && !Present(WordAt(mem.ram, Dir(), pdIdx))
      modifies mem
      ensures Tables() && Map() == old(Map())
      ensures Present(WordAt(mem.ram, Dir(), pdIdx)) && Bit(WordAt(mem.ram, Dir(), pdIdx), 1)
      ensures UserBit(WordAt(mem.ram, Dir(), pdIdx)) <==> Bit(flags, 2)
      ensures TablesOnly(old(mem.ram), mem.ram, Dir(), {table / 4096})
      ensures SameWords(old(mem.ram), mem.ram, Dir(), pdIdx)
    {
      ghost var m := mem.ram;
      NotATable(m, Dir(), table / 4096);
      ClearPage(mem, table);
      ghost var m1 := mem.ram;
      PageFrame(m, m1, Dir());
      var e := MakeDirectoryEntry(table, flags);
      mem.Write32(pageDirectory + 4 * pdIdx, e);
      WordStored(m1, mem.ram, Dir(), pdIdx, e);
      PageFrame(m1, mem.ram, table / 4096);
      AddTable(m, mem.ram, Dir(), pdIdx, e);
      SameSlots(m, mem.ram, Dir());
    }

    /** Maps one virtual page. `ok` is false when a table page was needed and none was
        left; the source does not check for that. */
    method MapPage(virt: Word, phys: Word, flags: nat) returns (ok: bool)
      requires Valid() && flags < 4096
      modifies mem, pmm`freePages, pmm.bitmap
      ensures ok == (Present(old(WordAt(mem.ram, Dir(), virt / 4096 / ENTRIES))) || old(pmm.Free()) != {})
      ensures Valid() && pmm.Free() <= old(pmm.Free())
      ensures ok ==> Map() == old(Map())[virt / 4096 := Entry(phys, flags)]
      ensures ok ==> Allows(Map()[virt / 4096], phys, flags)
      ensures ok ==>
                var d := old(WordAt(mem.ram, Dir(), virt / 4096 / ENTRIES));
                UserPage(mem.ram, Dir(), virt / 4096) <==> Bit(flags, 2) && (Present(d) ==> UserBit(d))
      ensures ok ==> forall w :: w in old(Map()) && w != virt / 4096 ==>
                UserPage(mem.ram, Dir(), w) == old(UserPage(mem.ram, Dir(), w))
      ensures TablesOnly(old(mem.ram), mem.ram, Dir(), old(pmm.Free()))
      ensures !ok ==> mem.ram == old(mem.ram)
    {
      hide TablePage, Mappings, WordAt;
      var pdIdx := DirIndexOf(virt);
      var ptIdx := TableIndexOf(virt);
      assert ENTRIES * pdIdx + ptIdx == virt / 4096;
      ok := EnsureTable(pdIdx, flags);
      if !ok {
        return;
      }
      var e := MakeEntry(phys, flags);
      ghost var m := mem.ram;
      StoreEntry(pdIdx, ptIdx, e);
      TablesOnlyTransitive(old(mem.ram), m, mem.ram, Dir(), old(pmm.Free()), {});
      EntryAllows(phys, flags);
      EntryBit(phys, flags, 2);
      UserPages(old(mem.ram), mem.ram, Dir(), virt / 4096, e);
    }
  }

  /** The pages of the directory and the first table. */
  method TakeTwo(pmm: Pmm) returns (pd: Word, table: Word)
    requires pmm.Valid() && 0 !in pmm.Free() && |pmm.Free()| >= 2
    modifies pmm`freePages, pmm.bitmap
    ensures pmm.Valid() && pd % 4096 == 0 && table % 4096 == 0 && pd != table
    ensures pd / 4096 in old(pmm.Free()) && table / 4096 in old(pmm.Free())
    ensures pmm.Free() == old(pmm.Free()) - {pd / 4096} - {table / 4096}
    ensures pd + 4096 <= pmm.totalPages * PAGE_SIZE && table + 4096 <= pmm.totalPages * PAGE_SIZE
  {
    hide Pmm.Free, Pmm.Valid;
    FreeIsManaged(pmm);
    ghost var free := pmm.Free();
    OneOut(free);
    pd := pmm.AllocPage();
    table := pmm.AllocPage();
  }

  lemma OneOut(free: set<nat>)
    requires |free| >= 2
    ensures free != {} && forall p :: p in free ==> free - {p} != {}
  {
    forall p | p in free
      ensures free - {p} != {}
    {
      assert |free - {p}| == |free| - 1;
    }
  }

  /** Fills the directory page and the first table. */
  method InitTables(mem: PhysMem, pd: nat, table: Word)
    requires pd % 4096 == 0 && pd + 4096 <= |mem.ram| && table % 4096 == 0 && table + 4096 <= |mem.ram| && pd != table
    modifies mem
    ensures |mem.ram| == old(|mem.ram|) && Separate(mem.ram, pd / 4096)
    ensures Mappings(mem.ram, pd / 4096) == map v: nat | 0 <= v < ENTRIES :: FirstEntry(v)
    ensures !UserBit(WordAt(mem.ram, pd / 4096, 0))
    ensures forall f :: TablePage(mem.ram, pd / 4096, f) <==> f == pd / 4096 || f == table / 4096
    ensures forall a :: 0 <= a < |mem.ram| && a / 4096 != pd / 4096 && a / 4096 != table / 4096 ==>
              mem.ram[a] == old(mem.ram)[a]
  {
    ClearPage(mem, pd);
    ghost var m1 := mem.ram;
    IdentityPage(mem, table);
    ghost var m2 := mem.ram;
    PageFrame(m1, m2, pd / 4096);
    var e := MakeDirectoryEntry(table, 0);
    mem.Write32(pd, e);
    WordStored(m2, mem.ram, pd / 4096, 0, e);
    BitZero(2);
    FirstTable(m2, mem.ram, pd / 4096, e);
  }

  /** Writes 1024 empty entries. */
  method ClearPage(mem: PhysMem, t: nat)
    requires t % 4096 == 0 && t + 4096 <= |mem.ram|
    modifies mem
    ensures |mem.ram| == old(|mem.ram|)
    ensures forall k :: 0 <= k < ENTRIES ==> WordAt(mem.ram, t / 4096, k) == 0
    ensures SameBytes(old(mem.ram), mem.ram, 0, t) && SameBytes(old(mem.ram), mem.ram, t + 4096, |mem.ram|)
  {
    var i := 0;
    while i < 1024
      invariant 0 <= i <= 1024 && |mem.ram| == old(|mem.ram|)
      invariant forall k :: 0 <= k < i ==> WordAt(mem.ram, t / 4096, k) == 0
      invariant SameBytes(old(mem.ram), mem.ram, 0, t) && SameBytes(old(mem.ram), mem.ram, t + 4096, |mem.ram|)
    {
      ghost var m := mem.ram;
      mem.Write32(t + 4 * i, 0);
      WordStored(m, mem.ram, t / 4096, i, 0);
      i := i + 1;
    }
  }

  /** Writes the 1024 entries that map each page of the first 4 MB to itself. */
  method IdentityPage(mem: PhysMem, t: nat)
    requires t % 4096 == 0 && t + 4096 <= |mem.ram|
    modifies mem
    ensures |mem.ram| == old(|mem.ram|)
    ensures forall k :: 0 <= k < ENTRIES ==> WordAt(mem.ram, t / 4096, k) == FirstEntry(k)
    ensures SameBytes(old(mem.ram), mem.ram, 0, t) && SameBytes(old(mem.ram), mem.ram, t + 4096, |mem.ram|)
  {
    var i := 0;
    while i < 1024
      invariant 0 <= i <= 1024 && |mem.ram| == old(|mem.ram|)
      invariant forall k :: 0 <= k < i ==> WordAt(mem.ram, t / 4096, k) == FirstEntry(k)
      invariant SameBytes(old(mem.ram), mem.ram, 0, t) && SameBytes(old(mem.ram), mem.ram, t + 4096, |mem.ram|)
    {
      ghost var m := mem.ram;
      var e := IdentityEntry(i);
      mem.Write32(t + 4 * i, e);
      WordStored(m, mem.ram, t / 4096, i, e);
      i := i + 1;
    }
  }

  lemma OneOrTwo()
    ensures Or(PRESENT, WRITABLE) == PRESENT + WRITABLE
  {
  }

  method IdentityEntry(i: nat) returns (e: Word)
    requires i < ENTRIES
    ensures e == FirstEntry(i)
  {
    hide Or;
    JoinFlags(4096 * i, PRESENT);
    assert (4096 * i + 1) % 4096 == 1;
    JoinEntry(4096 * i + 1, WRITABLE);
    OneOrTwo();
    e := Or(Or(i * PAGE_SIZE, PRESENT), WRITABLE);
  }

  /** An empty directory with one table in its first entry maps what the table says. */
  lemma FirstTable(m: seq<Byte>, m': seq<Byte>, dir: nat, e: Word)
    requires PageInside(m, dir) && Present(e) && PageInside(m, PageNo(e)) && PageNo(e) != dir
    requires forall i :: 0 <= i < ENTRIES ==> WordAt(m, dir, i) == 0
    requires forall k :: 0 <= k < ENTRIES ==> WordAt(m, PageNo(e), k) == FirstEntry(k)
    requires Stored(m, m', 4096 * dir, e)
    ensures Separate(m', dir)
    ensures Mappings(m', dir) == map v: nat | 0 <= v < ENTRIES :: FirstEntry(v)
    ensures forall f :: TablePage(m', dir, f) <==> f == dir || f == PageNo(e)
  {
    hide FirstEntry, Entry;
    WordStored(m, m', dir, 0, e);
    PageFrame(m, m', PageNo(e));
    OneTable(m', dir, e);
    FirstMap(m', dir, e);
  }

  lemma FirstMap(m: seq<Byte>, dir: nat, e: Word)
    requires Separate(m, dir) && Present(e)
    requires forall i :: 0 <= i < ENTRIES ==> WordAt(m, dir, i) == if i == 0 then e else 0
    requires PageInside(m, PageNo(e))
    requires forall k :: 0 <= k < ENTRIES ==> WordAt(m, PageNo(e), k) == FirstEntry(k)
    ensures Mappings(m, dir) == map v: nat | 0 <= v < ENTRIES :: FirstEntry(v)
  {
    hide WordAt;
    forall v | 0 <= v < VPAGES ensures Pte(m, dir, v) == FirstEntry(v) {
      FirstSlot(m, dir, e, v);
    }
  }

  lemma OneTable(m: seq<Byte>, dir: nat, e: Word)
    requires PageInside(m, dir) && Present(e) && PageInside(m, PageNo(e)) && PageNo(e) != dir
    requires forall i :: 0 <= i < ENTRIES ==> WordAt(m, dir, i) == if i == 0 then e else 0
    ensures Separate(m, dir)
    ensures forall f :: TablePage(m, dir, f) <==> f == dir || f == PageNo(e)
  {
    hide WordAt;
    assert IsTable(m, dir, 0, PageNo(e));
  }

  /** The entry of virtual page `v` after boot: the first 4 MB map to themselves. */
  function FirstEntry(v: nat): Word {
    if v < ENTRIES then Entry(4096 * v, PRESENT + WRITABLE) else 0
  }

  lemma FirstIsIdentity(v: nat)
    requires v < 1024
    ensures PageNo(FirstEntry(v)) == v && Bit(FirstEntry(v), 1) && !UserBit(FirstEntry(v))
  {
    EntryBit(4096 * v, PRESENT + WRITABLE, 1);
    EntryBit(4096 * v, PRESENT + WRITABLE, 2);
    assert Bit(3, 1) && !Bit(3, 2);
  }

  /** What the first lookup after boot gives: an address below 4 MB is its own, beyond that
      nothing is mapped. */
  method LookAfterBoot(mem: PhysMem, pmm: Pmm, virt: Word) returns (phys: Word)
    requires pmm.Valid() && 0 !in pmm.Free() && |pmm.Free()| >= 2
    requires pmm.totalPages * PAGE_SIZE <= |mem.ram|
    modifies mem, pmm`freePages, pmm.bitmap
    ensures phys == if virt < 0x40_0000 then virt else 0
  {
    hide Mappings, TablePage, Separate, FirstEntry;
    var vmm := new Vmm(mem, pmm);
    phys := vmm.GetPhys(virt);
  }

  lemma FirstSlot(m: seq<Byte>, dir: nat, e: Word, v: nat)
    requires Separate(m, dir) && v < VPAGES && Present(e)
    requires forall i :: 0 <= i < ENTRIES ==> WordAt(m, dir, i) == if i == 0 then e else 0
    requires PageInside(m, PageNo(e))
    requires forall k :: 0 <= k < ENTRIES ==> WordAt(m, PageNo(e), k) == FirstEntry(k)
    ensures Pte(m, dir, v) == FirstEntry(v)
  {
    hide WordAt;
    if v < ENTRIES {
      assert v / ENTRIES == 0 && v % ENTRIES == v;
    } else {
      assert WordAt(m, dir, v / ENTRIES) == 0;
    }
  }
}
