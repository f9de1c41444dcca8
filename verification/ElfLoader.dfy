/** Loading an ELF executable: validate the header, give each loadable segment fresh
    pages, and put the file's bytes behind the page tables. */
module ElfLoader {
  import opened Bits
  import opened Memory
  import opened PageAllocator
  import opened PageTables
  import opened VirtualMemory
  import opened UserSpace

  const ELF_MAGIC: Word := 0x464C_457F
  const PT_LOAD: Word := 1
  const EHDR_SIZE: nat := 52
  const PHDR_SIZE: nat := 32

  datatype Phdr = Phdr(kind: Word, offset: Word, vaddr: Word, filesz: Word, memsz: Word, flags: Word)

  /** Program header `i` as it lies in the file. */
  function PhdrAt(data: seq<Byte>, phoff: nat, i: nat): Phdr
    requires phoff + PHDR_SIZE * i + PHDR_SIZE <= |data|
  {
    var p := phoff + PHDR_SIZE * i;
    Phdr(Load32(data, p), Load32(data, p + 4), Load32(data, p + 8), Load32(data, p + 16), Load32(data, p + 20),
         Load32(data, p + 24))
  }

  /** `elf_validate`: a 32-bit little-endian executable or shared object. */
  predicate Validate(data: seq<Byte>) {
    && |data| >= EHDR_SIZE
    && Load32(data, 0) == ELF_MAGIC
    && data[4] == 1 && data[5] == 1
    && Load16(data, 16) in {2, 3}
  }

  /** The identification bytes 7F 45 4C 46, class 1, order 1, and type 2 or 3 at byte 16. */
  predicate Identified(data: seq<Byte>) {
    && |data| >= 52
    && data[0] == 0x7F && data[1] == 0x45 && data[2] == 0x4C && data[3] == 0x46
    && data[4] == 1 && data[5] == 1
    && (data[16] == 2 || data[16] == 3) && data[17] == 0
  }

  lemma ValidateIs(data: seq<Byte>)
    ensures Validate(data) <==> Identified(data)
  {
    hide FromBytes;
    if |data| >= 52 {
      ShortBytes(data[0..4]);
      ShortBytes(data[16..18]);
      assert Load32(data, 0) == data[0] as int + 0x100 * data[1] as int + 0x1_0000 * data[2] as int
                                + 0x100_0000 * data[3] as int;
      assert Load16(data, 16) == data[16] as int + 0x100 * data[17] as int;
    }
  }

  function FirstPage(ph: Phdr): nat { ph.vaddr / 4096 }
  function EndPage(ph: Phdr): nat { (ph.vaddr as int + ph.memsz as int + 4095) / 4096 }

  predicate Covers(ph: Phdr, v: nat) {
    FirstPage(ph) <= v < EndPage(ph)
  }

  /** What the loader takes for granted of one loadable segment. */
  predicate SegmentOk(ph: Phdr) {
    && ph.filesz <= ph.memsz
    && ph.vaddr as int + ph.memsz as int + 4095 < 0x1_0000_0000
    && ph.offset as int + ph.filesz as int < 0x1_0000_0000
  }

  /** Where the page loop stops, in 32-bit arithmetic. */
  function EndOnWords(ph: Phdr): nat {
    (ph.vaddr as int + ph.memsz as int + 4095) % 0x1_0000_0000 / 4096
  }

  /** The loop visits exactly the pages of a segment if and only if its rounded end does not
      wrap around. */
  lemma WrappedEnd(ph: Phdr)
    ensures (forall v: nat :: FirstPage(ph) <= v < EndOnWords(ph) <==> Covers(ph, v))
            <==> ph.vaddr as int + ph.memsz as int + 4095 < 0x1_0000_0000
  {
    var last := EndPage(ph) - 1;
    if ph.vaddr as int + ph.memsz as int + 4095 >= 0x1_0000_0000 {
      assert Covers(ph, last) && last >= EndOnWords(ph);
    }
  }

  /** The byte a segment promises at offset `k`; a segment whose file part lies
      beyond the end of the file is loaded as zeros. */
  function SegmentByte(data: seq<Byte>, ph: Phdr, k: nat): Byte {
    if k < ph.filesz && ph.offset as int + ph.filesz as int <= |data| then data[ph.offset + k] else 0
  }

  /** The page flags of a segment: user access, writable on request. */
  function SegmentFlags(ph: Phdr): nat {
    if Bit(ph.flags, 1) then PRESENT + WRITABLE + USER else PRESENT + USER
  }

  /** A byte store as the processor does it: translate, then write. */
  method StoreVirtual(vmm: Vmm, v: Word, b: Byte)
    requires vmm.Tables() && v / 4096 in vmm.Map()
    requires Private(vmm.mem.ram, vmm.Dir(), PageNo(vmm.Map()[v / 4096]))
    modifies vmm.mem
    ensures vmm.Tables() && vmm.Map() == old(vmm.Map())
    ensures vmm.mem.ram == old(vmm.mem.ram)[PhysOf(old(vmm.Map()), v) := b]
    ensures forall f :: TablePage(vmm.mem.ram, vmm.Dir(), f) == TablePage(old(vmm.mem.ram), vmm.Dir(), f)
  {
    var phys := vmm.GetPhys(v);
    ghost var m := vmm.mem.ram;
    assert phys / 4096 == PageNo(vmm.Map()[v / 4096]);
    vmm.mem.Write8(phys, b);
    PrivateWrite(m, vmm.mem.ram, vmm.Dir(), phys, b);
  }

  /** Bytes in pages that back no virtual page from `p` up to `q` are the same. */
  ghost predicate OthersSame(m: seq<Byte>, m': seq<Byte>, tables: map<nat, Word>, p: nat, q: nat) {
    |m| == |m'| && forall a :: 0 <= a < |m| && !Backs(tables, p, q, a / 4096) ==> m'[a] == m[a]
  }

  ghost predicate Backs(tables: map<nat, Word>, p: nat, q: nat, f: nat) {
    exists v :: p <= v < q && v in tables && PageNo(tables[v]) == f
  }

  /** `memset` or `memcpy` to virtual memory: `bytes` appear at `vaddr`, and the rest
      of the backed range of `n` bytes keeps its contents. */
  method WriteVirtual(vmm: Vmm, vaddr: Word, bytes: seq<Byte>, ghost n: nat)
    requires vmm.Tables() && |bytes| <= n && vaddr + n < 0x1_0000_0000
    requires BackedBytes(vmm.mem.ram, vmm.Dir(), vmm.Map(), vaddr, n)
    modifies vmm.mem
    ensures vmm.Tables() && vmm.Map() == old(vmm.Map())
    ensures forall f :: TablePage(vmm.mem.ram, vmm.Dir(), f) == TablePage(old(vmm.mem.ram), vmm.Dir(), f)
    ensures OthersSame(old(vmm.mem.ram), vmm.mem.ram, vmm.Map(), vaddr / 4096, (vaddr + n + 4095) / 4096)
    ensures forall k :: 0 <= k < n ==> Written(old(vmm.mem.ram), vmm.mem.ram, vmm.Map(), vaddr, bytes, k)
  {
    hide TablePage, Mappings, WordAt;
    var i := 0;
    ghost var m, tables := vmm.mem.ram, vmm.Map();
    forall k | 0 <= k < n ensures Written(m, m, tables, vaddr, bytes[..0], k) {
      BackedInjective(m, vmm.Dir(), tables, vaddr, n, k, k);
    }
    while i < |bytes|
      invariant 0 <= i <= |bytes|
      invariant vmm.Tables() && vmm.Map() == tables
      invariant forall f :: TablePage(vmm.mem.ram, vmm.Dir(), f) == TablePage(m, vmm.Dir(), f)
      invariant OthersSame(m, vmm.mem.ram, tables, vaddr / 4096, (vaddr + n + 4095) / 4096)
      invariant forall k :: 0 <= k < n ==> Written(m, vmm.mem.ram, tables, vaddr, bytes[..i], k)
    {
      ghost var m' := vmm.mem.ram;
      BackedInjective(m, vmm.Dir(), tables, vaddr, n, i, i);
      StoreVirtual(vmm, vaddr + i, bytes[i]);
      WriteStep(m, m', vmm.mem.ram, vmm.Dir(), tables, vaddr, bytes[..i], bytes[i], n);
      assert bytes[..i + 1] == bytes[..i] + [bytes[i]];
      i := i + 1;
    }
    assert bytes[..i] == bytes;
  }

  ghost predicate Written(m: seq<Byte>, m': seq<Byte>, tables: map<nat, Word>, vaddr: nat, bytes: seq<Byte>, k: nat)
  {
    && (vaddr + k) / 4096 in tables && PhysOf(tables, vaddr + k) < |m| == |m'|
    && m'[PhysOf(tables, vaddr + k)] == if k < |bytes| then bytes[k] else m[PhysOf(tables, vaddr + k)]
  }

  lemma WriteStep(m: seq<Byte>, m1: seq<Byte>, m2: seq<Byte>, dir: nat, tables: map<nat, Word>, vaddr: nat,
                  bytes: seq<Byte>, b: Byte, n: nat)
    requires PageInside(m, dir) && BackedBytes(m, dir, tables, vaddr, n) && |bytes| < n
    requires OthersSame(m, m1, tables, vaddr / 4096, (vaddr + n + 4095) / 4096)
    requires forall k :: 0 <= k < n ==> Written(m, m1, tables, vaddr, bytes, k)
    requires (vaddr + |bytes|) / 4096 in tables && PhysOf(tables, vaddr + |bytes|) < |m1|
    requires m2 == m1[PhysOf(tables, vaddr + |bytes|) := b]
    ensures OthersSame(m, m2, tables, vaddr / 4096, (vaddr + n + 4095) / 4096)
    ensures var more := bytes + [b];
            forall k :: 0 <= k < n ==> Written(m, m2, tables, vaddr, more, k)
  {
    var i, more := |bytes|, bytes + [b];
    InRange(vaddr, n, i);
    assert Backs(tables, vaddr / 4096, (vaddr + n + 4095) / 4096, PhysOf(tables, vaddr + i) / 4096);
    forall k | 0 <= k < n ensures Written(m, m2, tables, vaddr, more, k) {
      assert Written(m, m1, tables, vaddr, bytes, k);
      BackedInjective(m, dir, tables, vaddr, n, i, k);
    }
  }

  /** Virtual page `v` has a private frame outside `free`, with the given flags. */
  ghost predicate OwnPage(m: seq<Byte>, dir: nat, tables: map<nat, Word>, free: set<nat>, flags: nat, v: nat)
    requires PageInside(m, dir) && flags < 4096
  {
    && v in tables
    && var f := PageNo(tables[v]);
       f !in free && Private(m, dir, f) && tables[v] == Entry(4096 * f, flags)
  }

  /** The pages from `p` up to `q` have frames of their own, all different. */
  ghost predicate OwnPages(m: seq<Byte>, dir: nat, tables: map<nat, Word>, free0: set<nat>, free: set<nat>,
                           flags: nat, p: nat, q: nat)
    requires PageInside(m, dir) && flags < 4096
  {
    && (forall v :: p <= v < q ==> OwnPage(m, dir, tables, free, flags, v) && PageNo(tables[v]) in free0)
    && (forall v, w :: p <= v < q && p <= w < q && v != w ==> FramesDiffer(tables, v, w))
  }

  ghost predicate FramesDiffer(tables: map<nat, Word>, v: nat, w: nat) {
    v in tables && w in tables && PageNo(tables[v]) != PageNo(tables[w])
  }

  /** Outside the pages from `p` up to `q` both maps translate alike. */
  ghost predicate SameOutside(tables: map<nat, Word>, tables': map<nat, Word>, p: nat, q: nat) {
    forall v: nat :: !(p <= v < q) ==> SameAt(tables, tables', v)
  }

  ghost predicate SameAt(tables: map<nat, Word>, tables': map<nat, Word>, v: nat) {
    (v in tables <==> v in tables') && (v in tables ==> tables'[v] == tables[v])
  }

  lemma SameOutsideUpdate(tables: map<nat, Word>, tables': map<nat, Word>, p: nat, q: nat, v: nat, e: Word)
    requires SameOutside(tables, tables', p, q) && p <= v < q
    ensures SameOutside(tables, tables'[v := e], p, q)
  {
    var more := tables'[v := e];
    forall w: nat | !(p <= w < q) ensures SameAt(tables, more, w) {
      assert SameAt(tables, tables', w);
    }
  }

  /** One more page mapped to a frame just taken from the free pages. */
  lemma MapOneMore(m: seq<Byte>, m': seq<Byte>, dir: nat, tables: map<nat, Word>, free0: set<nat>, free: set<nat>,
                   free': set<nat>, flags: nat, p: nat, q: nat, f: nat)
    requires PageInside(m, dir) && flags < 4096 && p <= q && 4096 * f < 0x1_0000_0000
    requires OwnPages(m, dir, tables, free0, free, flags, p, q)
    requires f in free && free <= free0 && free' <= free - {f} && PageInside(m, f) && !TablePage(m, dir, f)
    requires TablesOnly(m, m', dir, free - {f})
    ensures OwnPages(m', dir, tables[q := Entry(4096 * f, flags)], free0, free', flags, p, q + 1)
  {
    hide TablePage;
    var tables' := tables[q := Entry(4096 * f, flags)];
    forall v | p <= v < q + 1 ensures OwnPage(m', dir, tables', free', flags, v) && PageNo(tables'[v]) in free0 {
      if v < q {
        assert OwnPage(m, dir, tables, free, flags, v);
      }
    }
    forall v, w | p <= v < q + 1 && p <= w < q + 1 && v != w ensures FramesDiffer(tables', v, w) {
      if v < q && w < q {
        assert FramesDiffer(tables, v, w);
      } else {
        var u := if v < q then v else w;
        assert OwnPage(m, dir, tables, free, flags, u);
      }
    }
  }

  datatype LoadResult = Success | Invalid | OutOfFrames | OutOfTables

  /** The page loop of one segment. `OutOfTables` marks where the source goes on with
      a table it did not get. */
  method MapSegment(vmm: Vmm, ph: Phdr) returns (r: LoadResult)
    requires vmm.Valid() && SegmentOk(ph)
    modifies vmm.mem, vmm.pmm`freePages, vmm.pmm.bitmap
    ensures vmm.Valid() && vmm.pmm.Free() <= old(vmm.pmm.Free())
    ensures r != Invalid && (r != Success ==> vmm.pmm.Free() == {})
    ensures Evolved(old(vmm.mem.ram), vmm.mem.ram, vmm.Dir(), old(vmm.pmm.Free()))
    ensures SameOutside(old(vmm.Map()), vmm.Map(), FirstPage(ph), EndPage(ph))
    ensures r == Success ==>
              OwnPages(vmm.mem.ram, vmm.Dir(), vmm.Map(), old(vmm.pmm.Free()), vmm.pmm.Free(), SegmentFlags(ph),
                       FirstPage(ph), EndPage(ph))
  {
    hide TablePage, Mappings, WordAt, Entry;
    var page := FirstPage(ph) * 4096;
    ghost var m, free, tables := vmm.mem.ram, vmm.pmm.Free(), vmm.Map();
    while page < EndPage(ph) * 4096
      invariant page % 4096 == 0 && FirstPage(ph) <= page / 4096
      invariant page / 4096 <= EndPage(ph) || page / 4096 == FirstPage(ph)
      invariant vmm.Valid() && vmm.pmm.Free() <= free
      invariant Evolved(m, vmm.mem.ram, vmm.Dir(), free)
      invariant SameOutside(tables, vmm.Map(), FirstPage(ph), EndPage(ph))
      invariant OwnPages(vmm.mem.ram, vmm.Dir(), vmm.Map(), free, vmm.pmm.Free(), SegmentFlags(ph), FirstPage(ph),
                         page / 4096)
    {
      r := MapOne(vmm, page, SegmentFlags(ph), m, free, tables, FirstPage(ph), EndPage(ph));
      if r != Success {
        return;
      }
      page := page + 4096;
    }
    r := Success;
  }

  method MapOne(vmm: Vmm, page: Word, flags: nat, ghost m: seq<Byte>, ghost free: set<nat>,
                ghost tables: map<nat, Word>, ghost p: nat, ghost q: nat)
    returns (r: LoadResult)
    requires vmm.Valid() && page % 4096 == 0 && flags < 4096 && p <= page / 4096 < q
    requires PageInside(m, vmm.Dir()) && vmm.pmm.Free() <= free && Evolved(m, vmm.mem.ram, vmm.Dir(), free)
    requires SameOutside(tables, vmm.Map(), p, q)
    requires OwnPages(vmm.mem.ram, vmm.Dir(), vmm.Map(), free, vmm.pmm.Free(), flags, p, page / 4096)
    modifies vmm.mem, vmm.pmm`freePages, vmm.pmm.bitmap
    ensures vmm.Valid() && vmm.pmm.Free() <= old(vmm.pmm.Free())
    ensures r != Invalid && (r != Success ==> vmm.pmm.Free() == {})
    ensures Evolved(m, vmm.mem.ram, vmm.Dir(), free)
    ensures SameOutside(tables, vmm.Map(), p, q)
    ensures r == Success ==>
              OwnPages(vmm.mem.ram, vmm.Dir(), vmm.Map(), free, vmm.pmm.Free(), flags, p, page / 4096 + 1)
  {
    hide TablePage, Mappings, WordAt, Entry, Private;
    ghost var m1, free1, tables1 := vmm.mem.ram, vmm.pmm.Free(), vmm.Map();
    ghost var f;
    r, f := AllocAndMap(vmm, page, flags);
    EvolvedByTables(m1, vmm.mem.ram, vmm.Dir(), free1);
    EvolvedTransitive(m, m1, vmm.mem.ram, vmm.Dir(), free, free1);
    if r == Success {
      MapOneMore(m1, vmm.mem.ram, vmm.Dir(), tables1, free, free1, vmm.pmm.Free(), flags, p, page / 4096, f);
      SameOutsideUpdate(tables, tables1, p, q, page / 4096, Entry(4096 * f, flags));
    }
  }

  /** Gives one virtual page a fresh frame `f`. */
  method AllocAndMap(vmm: Vmm, page: Word, flags: nat) returns (r: LoadResult, ghost f: nat)
    requires vmm.Valid() && flags < 4096
    modifies vmm.mem, vmm.pmm`freePages, vmm.pmm.bitmap
    ensures vmm.Valid() && r != Invalid
    ensures TablesOnly(old(vmm.mem.ram), vmm.mem.ram, vmm.Dir(), old(vmm.pmm.Free()))
    ensures r != Success ==> vmm.pmm.Free() == {} && vmm.Map() == old(vmm.Map())
    ensures r == Success ==>
              && f in old(vmm.pmm.Free()) && vmm.pmm.Free() <= old(vmm.pmm.Free()) - {f}
              && PageInside(old(vmm.mem.ram), f) && 4096 * f < 0x1_0000_0000
              && !TablePage(old(vmm.mem.ram), vmm.Dir(), f)
              && vmm.Map() == old(vmm.Map())[page / 4096 := Entry(4096 * f, flags)]
              && TablesOnly(old(vmm.mem.ram), vmm.mem.ram, vmm.Dir(), old(vmm.pmm.Free()) - {f})
  {
    hide TablePage, Mappings, WordAt, Entry, Separate;
    f := 0;
    var phys := vmm.pmm.AllocPage();
    if phys == 0 {
      return OutOfFrames, f;
    }
    f := phys / 4096;
    assert 4096 * f == phys;
    var ok := vmm.MapPage(page, phys, flags);
    r := if ok then Success else OutOfTables;
  }

  /** A loaded segment: its pages are backed by frames that are not free and carry the
      segment's flags, and every byte reads as the file promises. */
  ghost predicate Loaded(m: seq<Byte>, dir: nat, tables: map<nat, Word>, free: set<nat>, data: seq<Byte>, ph: Phdr)
    requires PageInside(m, dir)
  {
    && (forall v :: Covers(ph, v) ==> OwnPage(m, dir, tables, free, SegmentFlags(ph), v))
    && (forall k :: 0 <= k < ph.memsz ==> Holds(m, tables, data, ph, k))
  }

  ghost predicate Holds(m: seq<Byte>, tables: map<nat, Word>, data: seq<Byte>, ph: Phdr, k: nat) {
    && (ph.vaddr + k) / 4096 in tables && PhysOf(tables, ph.vaddr + k) < |m|
    && ReadVirtual(m, tables, ph.vaddr + k) == SegmentByte(data, ph, k)
  }

  /** Loading segment `b` after segment `a`: a page of `a` keeps its frame if and only if
      `b` does not cover it. On a shared page the later segment gets a frame of its own,
      and the earlier one's bytes are no longer seen there. */
  lemma SharedPageIsRemapped(m: seq<Byte>, m': seq<Byte>, dir: nat, tables: map<nat, Word>, tables': map<nat, Word>,
                             free: set<nat>, free': set<nat>, data: seq<Byte>, a: Phdr, b: Phdr, v: nat)
    requires PageInside(m, dir) && PageInside(m', dir) && Loaded(m, dir, tables, free, data, a)
    requires OwnPages(m', dir, tables', free, free', SegmentFlags(b), FirstPage(b), EndPage(b))
    requires SameOutside(tables, tables', FirstPage(b), EndPage(b))
    requires Covers(a, v)
    ensures v in tables && v in tables'
    ensures PageNo(tables'[v]) == PageNo(tables[v]) <==> !Covers(b, v)
  {
    assert OwnPage(m, dir, tables, free, SegmentFlags(a), v);
    if Covers(b, v) {
      assert OwnPage(m', dir, tables', free', SegmentFlags(b), v);
    } else {
      assert SameAt(tables, tables', v);
    }
  }

  /** Two well-formed segments in the page at 0x1000, the second in its upper half: the
      first is hidden although not one of its bytes is overwritten. */
  lemma SharedPageExample(m: seq<Byte>, m': seq<Byte>, dir: nat, tables: map<nat, Word>, tables': map<nat, Word>,
                          free: set<nat>, free': set<nat>, data: seq<Byte>)
    requires PageInside(m, dir) && PageInside(m', dir)
    requires Loaded(m, dir, tables, free, data, LowerHalf())
    requires OwnPages(m', dir, tables', free, free', SegmentFlags(UpperHalf()), FirstPage(UpperHalf()),
                      EndPage(UpperHalf()))
    requires SameOutside(tables, tables', FirstPage(UpperHalf()), EndPage(UpperHalf()))
    ensures SegmentOk(LowerHalf()) && SegmentOk(UpperHalf())
    ensures 1 in tables && 1 in tables' && PageNo(tables'[1]) != PageNo(tables[1])
  {
    SharedPageIsRemapped(m, m', dir, tables, tables', free, free', data, LowerHalf(), UpperHalf(), 1);
  }

  function LowerHalf(): Phdr { Phdr(PT_LOAD, 0x100, 0x1000, 0x200, 0x200, 0) }
  function UpperHalf(): Phdr { Phdr(PT_LOAD, 0x300, 0x1800, 0x200, 0x200, 0) }

  /** Loading elsewhere does not disturb a page of a loaded segment. */
  lemma PageKept(m: seq<Byte>, m': seq<Byte>, dir: nat, tables: map<nat, Word>, tables': map<nat, Word>,
                 free: set<nat>, free': set<nat>, flags: nat, v: nat)
    requires PageInside(m, dir) && flags < 4096 && OwnPage(m, dir, tables, free, flags, v)
    requires Evolved(m, m', dir, free) && free' <= free && SameAt(tables, tables', v)
    ensures OwnPage(m', dir, tables', free', flags, v)
  {
    hide TablePage, Entry;
  }

  lemma ByteKept(m: seq<Byte>, m': seq<Byte>, dir: nat, tables: map<nat, Word>, tables': map<nat, Word>,
                 free: set<nat>, data: seq<Byte>, ph: Phdr, k: nat)
    requires PageInside(m, dir) && Holds(m, tables, data, ph, k)
    requires OwnPage(m, dir, tables, free, SegmentFlags(ph), (ph.vaddr + k) / 4096)
    requires Evolved(m, m', dir, free) && SameAt(tables, tables', (ph.vaddr + k) / 4096)
    ensures Holds(m', tables', data, ph, k)
  {
    hide TablePage, Entry;
    assert PhysOf(tables, ph.vaddr + k) / 4096 == PageNo(tables[(ph.vaddr + k) / 4096]);
  }

  lemma OwnIsBacked(m: seq<Byte>, dir: nat, tables: map<nat, Word>, free0: set<nat>, free: set<nat>, ph: Phdr)
    requires PageInside(m, dir)
    requires OwnPages(m, dir, tables, free0, free, SegmentFlags(ph), FirstPage(ph), EndPage(ph))
    ensures BackedBytes(m, dir, tables, ph.vaddr, ph.memsz)
  {
    hide TablePage, Entry;
    forall v | FirstPage(ph) <= v < EndPage(ph) ensures v in tables && Private(m, dir, PageNo(tables[v])) {
      assert OwnPage(m, dir, tables, free, SegmentFlags(ph), v);
    }
    forall v, w | FirstPage(ph) <= v < EndPage(ph) && FirstPage(ph) <= w < EndPage(ph) && v != w
      ensures v in tables && w in tables && PageNo(tables[v]) != PageNo(tables[w])
    {
      assert FramesDiffer(tables, v, w);
    }
  }

  /** Memory in which the tables are the same pages as before. */
  ghost predicate SameTables(m: seq<Byte>, m': seq<Byte>, dir: nat)
    requires PageInside(m, dir)
  {
    |m| == |m'| && forall f :: TablePage(m', dir, f) == TablePage(m, dir, f)
  }

  lemma StillBacked(m: seq<Byte>, m': seq<Byte>, dir: nat, tables: map<nat, Word>, ph: Phdr)
    requires PageInside(m, dir) && SameTables(m, m', dir)
    requires BackedBytes(m, dir, tables, ph.vaddr, ph.memsz)
    ensures BackedBytes(m', dir, tables, ph.vaddr, ph.memsz)
  {
    hide TablePage;
  }

  lemma BacksOwn(m: seq<Byte>, dir: nat, tables: map<nat, Word>, free0: set<nat>, free: set<nat>, ph: Phdr, f: nat)
    requires PageInside(m, dir)
    requires OwnPages(m, dir, tables, free0, free, SegmentFlags(ph), FirstPage(ph), EndPage(ph))
    ensures Backs(tables, FirstPage(ph), EndPage(ph), f) ==> f in free0
  {
    hide TablePage, Entry;
    if Backs(tables, FirstPage(ph), EndPage(ph), f) {
      var v :| FirstPage(ph) <= v < EndPage(ph) && v in tables && PageNo(tables[v]) == f;
      assert OwnPage(m, dir, tables, free, SegmentFlags(ph), v);
    }
  }

  /** Writes confined to the segment's own frames. */
  lemma OwnWrites(m: seq<Byte>, m': seq<Byte>, dir: nat, tables: map<nat, Word>, free0: set<nat>, free: set<nat>,
                  ph: Phdr)
    requires PageInside(m, dir) && SameTables(m, m', dir)
    requires OwnPages(m, dir, tables, free0, free, SegmentFlags(ph), FirstPage(ph), EndPage(ph))
    requires OthersSame(m, m', tables, FirstPage(ph), EndPage(ph))
    ensures OwnPages(m', dir, tables, free0, free, SegmentFlags(ph), FirstPage(ph), EndPage(ph))
    ensures Evolved(m, m', dir, free0)
  {
    hide TablePage, Entry;
    forall v | FirstPage(ph) <= v < EndPage(ph)
      ensures OwnPage(m', dir, tables, free, SegmentFlags(ph), v) && PageNo(tables[v]) in free0
    {
      assert OwnPage(m, dir, tables, free, SegmentFlags(ph), v);
    }
    forall a | 0 <= a < |m| && a / 4096 !in free0 ensures m'[a] == m[a] {
      BacksOwn(m, dir, tables, free0, free, ph, a / 4096);
    }
  }

  /** Zeros over the whole segment, then the file's part. */
  method FillSegment(vmm: Vmm, data: seq<Byte>, ph: Phdr, ghost free0: set<nat>)
    requires vmm.Valid() && SegmentOk(ph)
    requires OwnPages(vmm.mem.ram, vmm.Dir(), vmm.Map(), free0, vmm.pmm.Free(), SegmentFlags(ph), FirstPage(ph),
                      EndPage(ph))
    modifies vmm.mem
    ensures vmm.Valid() && vmm.Map() == old(vmm.Map())
    ensures Loaded(vmm.mem.ram, vmm.Dir(), vmm.Map(), vmm.pmm.Free(), data, ph)
    ensures OwnPages(vmm.mem.ram, vmm.Dir(), vmm.Map(), free0, vmm.pmm.Free(), SegmentFlags(ph), FirstPage(ph),
                     EndPage(ph))
    ensures Evolved(old(vmm.mem.ram), vmm.mem.ram, vmm.Dir(), free0)
  {
    hide TablePage, Mappings, WordAt, Entry, OwnPages;
    ghost var m, tables, free, dir := vmm.mem.ram, vmm.Map(), vmm.pmm.Free(), vmm.Dir();
    var zeros := seq(ph.memsz, _ => 0);
    OwnIsBacked(m, dir, tables, free0, free, ph);
    WriteVirtual(vmm, ph.vaddr, zeros, ph.memsz);
    ghost var m1 := vmm.mem.ram;
    OwnWrites(m, m1, dir, tables, free0, free, ph);
    if ph.filesz > 0 && ph.offset as int + ph.filesz as int <= |data| {
      StillBacked(m, m1, dir, tables, ph);
      WriteVirtual(vmm, ph.vaddr, data[ph.offset..ph.offset + ph.filesz], ph.memsz);
      OwnWrites(m1, vmm.mem.ram, dir, tables, free0, free, ph);
      EvolvedTransitive(m, m1, vmm.mem.ram, dir, free0, free0);
    }
    FilledIsLoaded(m, m1, vmm.mem.ram, dir, tables, free0, free, data, zeros, ph);
  }

  lemma FilledIsLoaded(m: seq<Byte>, m1: seq<Byte>, m2: seq<Byte>, dir: nat, tables: map<nat, Word>,
                       free0: set<nat>, free: set<nat>, data: seq<Byte>, zeros: seq<Byte>, ph: Phdr)
    requires PageInside(m2, dir)
    requires OwnPages(m2, dir, tables, free0, free, SegmentFlags(ph), FirstPage(ph), EndPage(ph))
    requires zeros == seq(ph.memsz, _ => 0)
    requires forall k :: 0 <= k < ph.memsz ==> Written(m, m1, tables, ph.vaddr, zeros, k)
    requires var copied := ph.filesz > 0 && ph.offset as int + ph.filesz as int <= |data|;
             && (!copied ==> m2 == m1)
             && (copied ==>
                   var part := data[ph.offset..ph.offset + ph.filesz];
                   forall k :: 0 <= k < ph.memsz ==> Written(m1, m2, tables, ph.vaddr, part, k))
    ensures Loaded(m2, dir, tables, free, data, ph)
  {
    hide TablePage, Entry;
    forall k | 0 <= k < ph.memsz ensures Holds(m2, tables, data, ph, k) {
      assert Written(m, m1, tables, ph.vaddr, zeros, k);
      if ph.filesz > 0 && ph.offset as int + ph.filesz as int <= |data| {
        var part := data[ph.offset..ph.offset + ph.filesz];
        assert Written(m1, m2, tables, ph.vaddr, part, k);
      }
    }
  }

  /** Loads one segment into fresh frames. */
  method LoadSegment(vmm: Vmm, data: seq<Byte>, ph: Phdr) returns (r: LoadResult)
    requires vmm.Valid() && SegmentOk(ph)
    modifies vmm.mem, vmm.pmm`freePages, vmm.pmm.bitmap
    ensures vmm.Valid() && vmm.pmm.Free() <= old(vmm.pmm.Free())
    ensures r != Invalid && (r != Success ==> vmm.pmm.Free() == {})
    ensures Evolved(old(vmm.mem.ram), vmm.mem.ram, vmm.Dir(), old(vmm.pmm.Free()))
    ensures SameOutside(old(vmm.Map()), vmm.Map(), FirstPage(ph), EndPage(ph))
    ensures r == Success ==> Loaded(vmm.mem.ram, vmm.Dir(), vmm.Map(), vmm.pmm.Free(), data, ph)
    ensures r == Success ==>
              OwnPages(vmm.mem.ram, vmm.Dir(), vmm.Map(), old(vmm.pmm.Free()), vmm.pmm.Free(), SegmentFlags(ph),
                       FirstPage(ph), EndPage(ph))
  {
    hide TablePage, Mappings, WordAt, OwnPages, Loaded;
    ghost var m, free := vmm.mem.ram, vmm.pmm.Free();
    r := MapSegment(vmm, ph);
    if r == Success {
      ghost var m1 := vmm.mem.ram;
      FillSegment(vmm, data, ph, free);
      EvolvedTransitive(m, m1, vmm.mem.ram, vmm.Dir(), free, free);
    }
  }

  function PhdrCount(data: seq<Byte>): nat
    requires |data| >= EHDR_SIZE
  {
    Load16(data, 44)
  }

  function PhdrOffset(data: seq<Byte>): nat
    requires |data| >= EHDR_SIZE
  {
    Load32(data, 28)
  }

  /** The program header table lies inside the file. */
  predicate TableInside(data: seq<Byte>) {
    |data| >= EHDR_SIZE && PhdrOffset(data) + PHDR_SIZE * PhdrCount(data) <= |data|
  }

  function Segment(data: seq<Byte>, i: nat): Phdr
    requires TableInside(data) && i < PhdrCount(data)
  {
    PhdrAt(data, PhdrOffset(data), i)
  }

  predicate Loadable(data: seq<Byte>, i: nat)
    requires TableInside(data) && i < PhdrCount(data)
  {
    Segment(data, i).kind == PT_LOAD
  }

  predicate Apart(a: Phdr, b: Phdr) {
    EndPage(a) <= FirstPage(b) || EndPage(b) <= FirstPage(a)
  }

  /** What the loader takes for granted of a file: its segments are well formed. */
  ghost predicate WellFormed(data: seq<Byte>) {
    && TableInside(data)
    && forall i :: 0 <= i < PhdrCount(data) && Loadable(data, i) ==> SegmentOk(Segment(data, i))
  }

  /** No two segments share a page. */
  ghost predicate PagesApart(data: seq<Byte>)
    requires TableInside(data)
  {
    forall i, j :: 0 <= i < j < PhdrCount(data) && Loadable(data, i) && Loadable(data, j) ==>
                     Apart(Segment(data, i), Segment(data, j))
  }

  /** Whether virtual page `v` belongs to a loadable segment from number `from` up to `n`. */
  ghost predicate InSegments(data: seq<Byte>, from: nat, n: nat, v: nat)
    requires TableInside(data) && n <= PhdrCount(data)
  {
    exists i :: from <= i < n && Loadable(data, i) && Covers(Segment(data, i), v)
  }

  /** After `n` segments segment `i` is in place on every page that no later one covers. */
  ghost predicate Shown(m: seq<Byte>, dir: nat, tables: map<nat, Word>, free: set<nat>, data: seq<Byte>, i: nat, n: nat)
    requires PageInside(m, dir) && TableInside(data) && i < n <= PhdrCount(data)
  {
    var ph := Segment(data, i);
    && (forall v :: Covers(ph, v) && !InSegments(data, i + 1, n, v) ==>
                      OwnPage(m, dir, tables, free, SegmentFlags(ph), v))
    && (forall k :: 0 <= k < ph.memsz && !InSegments(data, i + 1, n, (ph.vaddr + k) / 4096) ==>
                      Holds(m, tables, data, ph, k))
  }

  /** The first `n` segments are in place, as far as they do not hide one another. */
  ghost predicate AllShown(m: seq<Byte>, dir: nat, tables: map<nat, Word>, free: set<nat>, data: seq<Byte>, n: nat)
    requires PageInside(m, dir) && TableInside(data) && n <= PhdrCount(data)
  {
    forall i :: 0 <= i < n && Loadable(data, i) ==> Shown(m, dir, tables, free, data, i, n)
  }

  ghost predicate SameElsewhere(tables: map<nat, Word>, tables': map<nat, Word>, data: seq<Byte>, n: nat)
    requires TableInside(data) && n <= PhdrCount(data)
  {
    forall v: nat :: !InSegments(data, 0, n, v) ==> SameAt(tables, tables', v)
  }

  lemma InSegmentsMono(data: seq<Byte>, from: nat, n: nat, k: nat, v: nat)
    requires TableInside(data) && n <= k <= PhdrCount(data)
    ensures InSegments(data, from, n, v) ==> InSegments(data, from, k, v)
  {
    hide Segment;
    if InSegments(data, from, n, v) {
      var i :| from <= i < n && Loadable(data, i) && Covers(Segment(data, i), v);
      assert from <= i < k && Loadable(data, i) && Covers(Segment(data, i), v);
    }
  }

  /** Loading segment `n` keeps an earlier one on the pages that `n` does not cover. */
  lemma ShownKept(m: seq<Byte>, m': seq<Byte>, dir: nat, tables: map<nat, Word>, tables': map<nat, Word>,
                  free: set<nat>, free': set<nat>, data: seq<Byte>, i: nat, n: nat)
    requires PageInside(m, dir) && WellFormed(data) && i < n < PhdrCount(data) && Loadable(data, i) && Loadable(data, n)
    requires Shown(m, dir, tables, free, data, i, n)
    requires Evolved(m, m', dir, free) && free' <= free
    requires SameOutside(tables, tables', FirstPage(Segment(data, n)), EndPage(Segment(data, n)))
    ensures Shown(m', dir, tables', free', data, i, n + 1)
  {
    hide TablePage, Segment, OwnPage, Holds, EndPage, FirstPage, Evolved;
    var ph, next := Segment(data, i), Segment(data, n);
    EvolvedInside(m, m', dir, free);
    forall v | Covers(ph, v) && !InSegments(data, i + 1, n + 1, v)
      ensures OwnPage(m', dir, tables', free', SegmentFlags(ph), v)
    {
      InSegmentsMono(data, i + 1, n, n + 1, v);
      assert !Covers(next, v) && SameAt(tables, tables', v);
      PageKept(m, m', dir, tables, tables', free, free', SegmentFlags(ph), v);
    }
    forall k | 0 <= k < ph.memsz && !InSegments(data, i + 1, n + 1, (ph.vaddr + k) / 4096)
      ensures Holds(m', tables', data, ph, k)
    {
      var v := (ph.vaddr + k) / 4096;
      ByteOnPage(ph, k);
      InSegmentsMono(data, i + 1, n, n + 1, v);
      assert !Covers(next, v) && SameAt(tables, tables', v);
      ByteKept(m, m', dir, tables, tables', free, data, ph, k);
    }
  }

  lemma EvolvedInside(m: seq<Byte>, m': seq<Byte>, dir: nat, free: set<nat>)
    requires PageInside(m, dir) && Evolved(m, m', dir, free)
    ensures PageInside(m', dir)
  {
  }

  lemma ByteOnPage(ph: Phdr, k: nat)
    requires k < ph.memsz
    ensures Covers(ph, (ph.vaddr + k) / 4096)
  {
    InRange(ph.vaddr, ph.memsz, k);
  }

  lemma AllShownStep(m: seq<Byte>, m': seq<Byte>, dir: nat, tables: map<nat, Word>, tables': map<nat, Word>,
                     free: set<nat>, free': set<nat>, data: seq<Byte>, n: nat)
    requires PageInside(m, dir) && PageInside(m', dir) && WellFormed(data) && n < PhdrCount(data) && Loadable(data, n)
    requires AllShown(m, dir, tables, free, data, n)
    requires Evolved(m, m', dir, free) && free' <= free
    requires SameOutside(tables, tables', FirstPage(Segment(data, n)), EndPage(Segment(data, n)))
    requires Loaded(m', dir, tables', free', data, Segment(data, n))
    ensures AllShown(m', dir, tables', free', data, n + 1)
  {
    hide TablePage, Segment, EndPage, FirstPage, Evolved, OwnPage, Holds, SameOutside;
    forall i | 0 <= i < n + 1 && Loadable(data, i)
      ensures Shown(m', dir, tables', free', data, i, n + 1)
    {
      if i < n {
        ShownKept(m, m', dir, tables, tables', free, free', data, i, n);
      }
    }
  }

  lemma AllShownSkip(m: seq<Byte>, dir: nat, tables: map<nat, Word>, free: set<nat>, data: seq<Byte>, n: nat)
    requires PageInside(m, dir) && TableInside(data) && n < PhdrCount(data) && !Loadable(data, n)
    requires AllShown(m, dir, tables, free, data, n)
    ensures AllShown(m, dir, tables, free, data, n + 1)
  {
    hide Segment, OwnPage, Holds;
    forall i | 0 <= i < n + 1 && Loadable(data, i)
      ensures Shown(m, dir, tables, free, data, i, n + 1)
    {
      assert Shown(m, dir, tables, free, data, i, n);
      var from := i + 1;
      forall v: nat | InSegments(data, from, n, v)
        ensures InSegments(data, from, n + 1, v)
      {
        InSegmentsMono(data, from, n, n + 1, v);
      }
    }
  }

  /** When no two segments share a page, every segment is in place as a whole. */
  lemma ApartAllLoaded(m: seq<Byte>, dir: nat, tables: map<nat, Word>, free: set<nat>, data: seq<Byte>, i: nat)
    requires PageInside(m, dir) && TableInside(data) && AllShown(m, dir, tables, free, data, PhdrCount(data))
    requires PagesApart(data) && i < PhdrCount(data) && Loadable(data, i)
    ensures Loaded(m, dir, tables, free, data, Segment(data, i))
  {
    hide Segment, OwnPage, Holds;
    var n, ph := PhdrCount(data), Segment(data, i);
    assert Shown(m, dir, tables, free, data, i, n);
    forall v | Covers(ph, v)
      ensures !InSegments(data, i + 1, n, v)
    {
      forall j | i + 1 <= j < n && Loadable(data, j)
        ensures !Covers(Segment(data, j), v)
      {
        assert Apart(ph, Segment(data, j));
      }
    }
    forall k | 0 <= k < ph.memsz
      ensures Holds(m, tables, data, ph, k)
    {
      ByteOnPage(ph, k);
    }
  }

  /** The pages of the first `n` segments have frames taken from `free0`, free no more, no
      two pages the same. */
  ghost predicate NewFrames(tables: map<nat, Word>, data: seq<Byte>, n: nat, free0: set<nat>, free: set<nat>)
    requires TableInside(data) && n <= PhdrCount(data)
  {
    && (forall v :: InSegments(data, 0, n, v) ==>
                      v in tables && PageNo(tables[v]) in free0 && PageNo(tables[v]) !in free)
    && (forall v, w :: InSegments(data, 0, n, v) && InSegments(data, 0, n, w) && v != w ==> FramesDiffer(tables, v, w))
  }

  lemma NewFramesStep(m: seq<Byte>, dir: nat, tables: map<nat, Word>, tables': map<nat, Word>, free0: set<nat>,
                      free: set<nat>, free': set<nat>, data: seq<Byte>, n: nat)
    requires PageInside(m, dir) && TableInside(data) && n < PhdrCount(data) && Loadable(data, n)
    requires NewFrames(tables, data, n, free0, free) && free' <= free <= free0
    requires var ph := Segment(data, n);
             && SameOutside(tables, tables', FirstPage(ph), EndPage(ph))
             && OwnPages(m, dir, tables', free, free', SegmentFlags(ph), FirstPage(ph), EndPage(ph))
    ensures NewFrames(tables', data, n + 1, free0, free')
  {
    hide TablePage, Segment, FirstPage, EndPage, Entry, Private, Loadable;
    var ph := Segment(data, n);
    forall v | InSegments(data, 0, n + 1, v)
      ensures v in tables' && PageNo(tables'[v]) in free0 && PageNo(tables'[v]) !in free'
      ensures PageNo(tables'[v]) in free <==> Covers(ph, v)
      ensures !Covers(ph, v) ==> InSegments(data, 0, n, v) && tables'[v] == tables[v]
    {
      if Covers(ph, v) {
        assert OwnPage(m, dir, tables', free', SegmentFlags(ph), v);
      } else {
        BeforeLast(data, n, v);
        assert SameAt(tables, tables', v);
      }
    }
    forall v, w | InSegments(data, 0, n + 1, v) && InSegments(data, 0, n + 1, w) && v != w
      ensures FramesDiffer(tables', v, w)
    {
      assert !Covers(ph, v) && !Covers(ph, w) ==> FramesDiffer(tables, v, w);
    }
  }

  lemma BeforeLast(data: seq<Byte>, n: nat, v: nat)
    requires TableInside(data) && n < PhdrCount(data)
    requires InSegments(data, 0, n + 1, v) && !(Loadable(data, n) && Covers(Segment(data, n), v))
    ensures InSegments(data, 0, n, v)
  {
    hide Segment, Loadable;
    var i :| 0 <= i < n + 1 && Loadable(data, i) && Covers(Segment(data, i), v);
    assert 0 <= i < n && Loadable(data, i) && Covers(Segment(data, i), v);
  }

  lemma NewFramesSkip(tables: map<nat, Word>, free0: set<nat>, free: set<nat>, data: seq<Byte>, n: nat)
    requires TableInside(data) && n < PhdrCount(data) && !Loadable(data, n)
    requires NewFrames(tables, data, n, free0, free)
    ensures NewFrames(tables, data, n + 1, free0, free)
  {
    hide Segment, Loadable;
    forall v | InSegments(data, 0, n + 1, v)
      ensures InSegments(data, 0, n, v)
    {
      BeforeLast(data, n, v);
    }
  }

  // What the file says, field by field

  /** The word at offset `o` of program header `i`: header entries of 32 bytes start at the
      offset that byte 28 of the file holds. */
  function HeaderWord(data: seq<Byte>, i: nat, o: nat): Word
    requires |data| >= 52 && Load32(data, 28) + 32 * i + o + 4 <= |data|
  {
    Load32(data, Load32(data, 28) + 32 * i + o)
  }

  /** Header `i` is of type 1 and its pages, from the word at 8 on for as many bytes as the
      word at 20 says, contain page `v`. */
  ghost predicate Spans(data: seq<Byte>, i: nat, v: nat)
    requires |data| >= 52 && Load32(data, 28) + 32 * i + 32 <= |data|
  {
    var vaddr, memsz := HeaderWord(data, i, 8), HeaderWord(data, i, 20);
    HeaderWord(data, i, 0) == 1 && vaddr / 4096 <= v < (vaddr + memsz + 4095) / 4096
  }

  ghost predicate HiddenAt(data: seq<Byte>, i: nat, v: nat)
    requires |data| >= 52 && Load32(data, 28) + 32 * Load16(data, 44) <= |data|
  {
    exists j :: i < j < Load16(data, 44) && Spans(data, j, v)
  }

  /** Segment `i` as its header describes it, on each page that no later one covers: open to
      user code, writable if and only if bit 1 of the word at 24 is set, and holding the bytes
      of the file from the word at 4 on, as many as the word at 16 says, and zeros behind. */
  ghost predicate AsHeaderSays(m: seq<Byte>, tables: map<nat, Word>, data: seq<Byte>, i: nat)
    requires |data| >= 52 && Load32(data, 28) + 32 * Load16(data, 44) <= |data| && i < Load16(data, 44)
  {
    && (forall v :: Spans(data, i, v) && !HiddenAt(data, i, v) ==>
                      v in tables && UserBit(tables[v]) && (Bit(tables[v], 1) <==> Bit(HeaderWord(data, i, 24), 1)))
    && (forall k :: 0 <= k < HeaderWord(data, i, 20) ==> ByteAsHeaderSays(m, tables, data, i, k))
  }

  ghost predicate ByteAsHeaderSays(m: seq<Byte>, tables: map<nat, Word>, data: seq<Byte>, i: nat, k: nat)
    requires |data| >= 52 && Load32(data, 28) + 32 * Load16(data, 44) <= |data| && i < Load16(data, 44)
  {
    var a := HeaderWord(data, i, 8) + k;
    var offset, filesz := HeaderWord(data, i, 4), HeaderWord(data, i, 16);
    !HiddenAt(data, i, a / 4096) ==>
      && a / 4096 in tables && PhysOf(tables, a) < |m|
      && m[PhysOf(tables, a)] == if k < filesz && offset + filesz <= |data| then data[offset + k] else 0
  }

  ghost predicate AsFileSays(m: seq<Byte>, tables: map<nat, Word>, data: seq<Byte>)
    requires |data| >= 52 && Load32(data, 28) + 32 * Load16(data, 44) <= |data|
  {
    forall i :: 0 <= i < Load16(data, 44) && HeaderWord(data, i, 0) == 1 ==> AsHeaderSays(m, tables, data, i)
  }

  lemma SpansIs(data: seq<Byte>, i: nat, v: nat)
    requires TableInside(data) && i < PhdrCount(data)
    ensures Loadable(data, i) <==> HeaderWord(data, i, 0) == 1
    ensures Spans(data, i, v) <==> Loadable(data, i) && Covers(Segment(data, i), v)
  {
  }

  lemma HiddenIs(data: seq<Byte>, i: nat, v: nat)
    requires TableInside(data) && i < PhdrCount(data)
    ensures HiddenAt(data, i, v) <==> InSegments(data, i + 1, PhdrCount(data), v)
  {
    hide Segment, Loadable, Spans, Covers;
    var from := i + 1;
    forall j | from <= j < PhdrCount(data)
      ensures Spans(data, j, v) <==> Loadable(data, j) && Covers(Segment(data, j), v)
    {
      SpansIs(data, j, v);
    }
  }

  /** The writable bit of a segment's flags. */
  lemma FlagsOfSegment(ph: Phdr, f: nat)
    requires 4096 * f < 0x1_0000_0000
    ensures var e := Entry(4096 * f, SegmentFlags(ph)); UserBit(e) && (Bit(e, 1) <==> Bit(ph.flags, 1))
  {
    EntryBit(4096 * f, SegmentFlags(ph), 1);
    EntryBit(4096 * f, SegmentFlags(ph), 2);
    assert Bit(7, 1) && Bit(7, 2) && !Bit(5, 1) && Bit(5, 2);
  }

  lemma ShownAsHeaderSays(m: seq<Byte>, dir: nat, tables: map<nat, Word>, free: set<nat>, data: seq<Byte>, i: nat)
    requires PageInside(m, dir) && TableInside(data) && i < PhdrCount(data) && Loadable(data, i)
    requires Shown(m, dir, tables, free, data, i, PhdrCount(data))
    ensures AsHeaderSays(m, tables, data, i)
  {
    hide TablePage, Entry, InSegments, HiddenAt, Private;
    var ph := Segment(data, i);
    forall v | Spans(data, i, v) && !HiddenAt(data, i, v)
      ensures v in tables && UserBit(tables[v]) && (Bit(tables[v], 1) <==> Bit(HeaderWord(data, i, 24), 1))
    {
      SpansIs(data, i, v);
      HiddenIs(data, i, v);
      assert OwnPage(m, dir, tables, free, SegmentFlags(ph), v);
      FlagsOfSegment(ph, PageNo(tables[v]));
    }
    forall k | 0 <= k < HeaderWord(data, i, 20)
      ensures ByteAsHeaderSays(m, tables, data, i, k)
    {
      HiddenIs(data, i, (ph.vaddr + k) / 4096);
      assert !HiddenAt(data, i, (ph.vaddr + k) / 4096) ==> Holds(m, tables, data, ph, k);
    }
  }

  lemma AllAsFileSays(m: seq<Byte>, dir: nat, tables: map<nat, Word>, free: set<nat>, data: seq<Byte>)
    requires PageInside(m, dir) && TableInside(data) && AllShown(m, dir, tables, free, data, PhdrCount(data))
    ensures AsFileSays(m, tables, data)
  {
    hide Shown, AsHeaderSays, Segment;
    forall i | 0 <= i < PhdrCount(data) && HeaderWord(data, i, 0) == 1
      ensures AsHeaderSays(m, tables, data, i)
    {
      SpansIs(data, i, 0);
      ShownAsHeaderSays(m, dir, tables, free, data, i);
    }
  }

  lemma SameElsewhereStep(t0: map<nat, Word>, t1: map<nat, Word>, t2: map<nat, Word>, data: seq<Byte>, n: nat)
    requires TableInside(data) && n < PhdrCount(data) && Loadable(data, n)
    requires SameElsewhere(t0, t1, data, n)
    requires SameOutside(t1, t2, FirstPage(Segment(data, n)), EndPage(Segment(data, n)))
    ensures SameElsewhere(t0, t2, data, n + 1)
  {
    hide Segment, EndPage, FirstPage;
    forall v: nat | !InSegments(data, 0, n + 1, v) ensures SameAt(t0, t2, v) {
      assert !Covers(Segment(data, n), v);
      InSegmentsMono(data, 0, n, n + 1, v);
      assert SameAt(t0, t1, v) && SameAt(t1, t2, v);
    }
  }

  lemma SameElsewhereSkip(t0: map<nat, Word>, t1: map<nat, Word>, data: seq<Byte>, n: nat, k: nat)
    requires TableInside(data) && n <= k <= PhdrCount(data)
    requires SameElsewhere(t0, t1, data, n)
    ensures SameElsewhere(t0, t1, data, k)
  {
    hide Segment;
    forall v: nat | !InSegments(data, 0, k, v) ensures SameAt(t0, t1, v) {
      InSegmentsMono(data, 0, n, k, v);
    }
  }

  /** `elf_load_segments`: after success every byte of every loadable segment, on each
      page that no later segment covers, reads through the page tables as the file
      promises; translations outside the segments' pages, and all bytes in pages that
      were in use, are unchanged in any case. */
  method LoadSegments(vmm: Vmm, data: seq<Byte>) returns (r: LoadResult)
    requires vmm.Valid() && (Validate(data) ==> WellFormed(data))
    modifies vmm.mem, vmm.pmm`freePages, vmm.pmm.bitmap
    ensures vmm.Valid() && vmm.pmm.Free() <= old(vmm.pmm.Free())
    ensures (r == Invalid <==> !Validate(data)) && (r == Invalid <==> !Identified(data))
    ensures r == OutOfFrames || r == OutOfTables ==> vmm.pmm.Free() == {}
    ensures Evolved(old(vmm.mem.ram), vmm.mem.ram, vmm.Dir(), old(vmm.pmm.Free()))
    ensures Validate(data) ==> SameElsewhere(old(vmm.Map()), vmm.Map(), data, PhdrCount(data))
    ensures r == Success ==> AllShown(vmm.mem.ram, vmm.Dir(), vmm.Map(), vmm.pmm.Free(), data, PhdrCount(data))
    ensures r == Success ==>
              && Load32(data, 28) + 32 * Load16(data, 44) <= |data|
              && AsFileSays(vmm.mem.ram, vmm.Map(), data)
              && NewFrames(vmm.Map(), data, PhdrCount(data), old(vmm.pmm.Free()), vmm.pmm.Free())
    ensures r == Success && PagesApart(data) ==>
              forall i :: 0 <= i < PhdrCount(data) && Loadable(data, i) ==>
                Loaded(vmm.mem.ram, vmm.Dir(), vmm.Map(), vmm.pmm.Free(), data, Segment(data, i))
  {
    hide TablePage, Mappings, WordAt, Loaded, Shown, Segment, FirstPage, EndPage, SegmentOk, PagesApart,
         AsFileSays, Identified;
    ValidateIs(data);
    if !Validate(data) {
      return Invalid;
    }
    ghost var m, free, tables, dir := vmm.mem.ram, vmm.pmm.Free(), vmm.Map(), vmm.Dir();
    var i := 0;
    while i < PhdrCount(data)
      invariant 0 <= i <= PhdrCount(data)
      invariant vmm.Valid() && vmm.pmm.Free() <= free
      invariant Evolved(m, vmm.mem.ram, dir, free)
      invariant SameElsewhere(tables, vmm.Map(), data, i)
      invariant AllShown(vmm.mem.ram, dir, vmm.Map(), vmm.pmm.Free(), data, i)
      invariant NewFrames(vmm.Map(), data, i, free, vmm.pmm.Free())
    {
      if Loadable(data, i) {
        r := LoadNext(vmm, data, i, m, free, tables);
        if r != Success {
          SameElsewhereSkip(tables, vmm.Map(), data, i + 1, PhdrCount(data));
          return;
        }
      } else {
        SameElsewhereSkip(tables, vmm.Map(), data, i, i + 1);
        AllShownSkip(vmm.mem.ram, dir, vmm.Map(), vmm.pmm.Free(), data, i);
        NewFramesSkip(vmm.Map(), free, vmm.pmm.Free(), data, i);
      }
      i := i + 1;
    }
    r := Success;
    AllAsFileSays(vmm.mem.ram, dir, vmm.Map(), vmm.pmm.Free(), data);
    if PagesApart(data) {
      forall j | 0 <= j < PhdrCount(data) && Loadable(data, j)
        ensures Loaded(vmm.mem.ram, dir, vmm.Map(), vmm.pmm.Free(), data, Segment(data, j))
      {
        ApartAllLoaded(vmm.mem.ram, dir, vmm.Map(), vmm.pmm.Free(), data, j);
      }
    }
  }

  method LoadNext(vmm: Vmm, data: seq<Byte>, i: nat, ghost m: seq<Byte>, ghost free: set<nat>,
                  ghost tables: map<nat, Word>)
    returns (r: LoadResult)
    requires vmm.Valid() && WellFormed(data) && i < PhdrCount(data) && Loadable(data, i)
    requires PageInside(m, vmm.Dir()) && vmm.pmm.Free() <= free
    requires Evolved(m, vmm.mem.ram, vmm.Dir(), free)
    requires SameElsewhere(tables, vmm.Map(), data, i)
    requires AllShown(vmm.mem.ram, vmm.Dir(), vmm.Map(), vmm.pmm.Free(), data, i)
    requires NewFrames(vmm.Map(), data, i, free, vmm.pmm.Free())
    modifies vmm.mem, vmm.pmm`freePages, vmm.pmm.bitmap
    ensures vmm.Valid() && vmm.pmm.Free() <= old(vmm.pmm.Free())
    ensures r != Invalid && (r != Success ==> vmm.pmm.Free() == {})
    ensures Evolved(m, vmm.mem.ram, vmm.Dir(), free)
    ensures SameElsewhere(tables, vmm.Map(), data, i + 1)
    ensures r == Success ==> AllShown(vmm.mem.ram, vmm.Dir(), vmm.Map(), vmm.pmm.Free(), data, i + 1)
    ensures r == Success ==> NewFrames(vmm.Map(), data, i + 1, free, vmm.pmm.Free())
  {
    hide TablePage, Mappings, WordAt, Loaded, AllShown, Segment, FirstPage, EndPage, SegmentOk, NewFrames, OwnPages;
    ghost var m1, free1, tables1, dir := vmm.mem.ram, vmm.pmm.Free(), vmm.Map(), vmm.Dir();
    r := LoadSegment(vmm, data, Segment(data, i));
    if r == Success {
      AllShownStep(m1, vmm.mem.ram, dir, tables1, vmm.Map(), free1, vmm.pmm.Free(), data, i);
      NewFramesStep(vmm.mem.ram, dir, tables1, vmm.Map(), free, free1, vmm.pmm.Free(), data, i);
    }
    EvolvedTransitive(m, m1, vmm.mem.ram, dir, free, free1);
    SameElsewhereStep(tables, tables1, vmm.Map(), data, i);
  }
}
