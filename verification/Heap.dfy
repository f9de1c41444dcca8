/** The kernel heap in physical memory: 13-byte headers chained through raw
    links, each operation proved against the block lists of `HeapSpec`. */
module KernelHeap {
  import opened Memory
  import opened HeapSpec
  import opened PageAllocator
  import opened PmmRuns

  const MAGIC: Word := 0xDEAD_BEEF

  /** The header of `b`, linked to `next`, stands in memory. */
  ghost predicate HeaderAt(m: seq<Byte>, b: Block, next: nat) {
    && b.addr + HEADER <= |m|
    && Load32(m, b.addr) == 0xDEAD_BEEF
    && Load32(m, b.addr + 4) == b.size
    && m[b.addr + 8] == (if b.free then 1 else 0)
    && Load32(m, b.addr + 9) == next
  }

  function NextAddr(bs: seq<Block>, i: nat): nat
    requires i < |bs|
  {
    if i + 1 < |bs| then bs[i + 1].addr else 0
  }

  ghost predicate Linked(m: seq<Byte>, bs: seq<Block>, i: nat)
    requires i < |bs|
  {
    HeaderAt(m, bs[i], NextAddr(bs, i))
  }

  /** The headers in memory chain the blocks of `bs`. */
  ghost predicate Encoded(m: seq<Byte>, bs: seq<Block>) {
    forall i :: 0 <= i < |bs| ==> Linked(m, bs, i)
  }

  /** Every live payload and every byte outside the arena is as it was. */
  ghost predicate Kept(m: seq<Byte>, m': seq<Byte>, live: set<Block>, start: nat, end: nat) {
    && |m'| == |m|
    && (forall b :: b in live ==> SameBytes(m, m', b.Payload(), b.End()))
    && SameBytes(m, m', 0, start)
    && SameBytes(m, m', end, |m|)
  }

  lemma KeptTransitive(m: seq<Byte>, m': seq<Byte>, m'': seq<Byte>, live: set<Block>, start: nat, end: nat)
    requires Kept(m, m', live, start, end) && Kept(m', m'', live, start, end)
    ensures Kept(m, m'', live, start, end)
  {
    forall b | b in live ensures SameBytes(m, m'', b.Payload(), b.End()) {
      assert SameBytes(m, m', b.Payload(), b.End()) && SameBytes(m', m'', b.Payload(), b.End());
    }
  }

  /** Two stretches in a row, the arena growing and some payloads written in between. */
  lemma KeptChain(m: seq<Byte>, m': seq<Byte>, m'': seq<Byte>, live: set<Block>, live': set<Block>, start: nat,
                  end: nat, end': nat)
    requires Kept(m, m', live, start, end) && Kept(m', m'', live', start, end')
    requires live <= live' && end <= end'
    ensures Kept(m, m'', live, start, end')
  {
    KeptSub(m', m'', live', live, start, end');
    forall b | b in live ensures SameBytes(m, m'', b.Payload(), b.End()) {
      assert SameBytes(m, m', b.Payload(), b.End()) && SameBytes(m', m'', b.Payload(), b.End());
    }
  }

  lemma KeptSub(m: seq<Byte>, m': seq<Byte>, live: set<Block>, live': set<Block>, start: nat, end: nat)
    requires Kept(m, m', live, start, end) && live' <= live
    ensures Kept(m, m', live', start, end)
  {
  }

  /** Copying into `b'` and then freeing `b` keeps the other payloads and the copy. */
  lemma MovedBytes(m: seq<Byte>, m1: seq<Byte>, m2: seq<Byte>, live: set<Block>, b: Block, b': Block, start: nat,
                   end: nat)
    requires b != b' && b' in live && b'.End() <= |m|
    requires Kept(m, m1, live - {b'}, start, end) && Kept(m1, m2, live - {b}, start, end)
    ensures Kept(m, m2, live - {b} - {b'}, start, end)
    ensures |m1| == |m2| && SameBytes(m1, m2, b'.Payload(), b'.End())
  {
    KeptTransitive(m, m1, m2, live - {b} - {b'}, start, end);
  }

  lemma FrontKept(m: seq<Byte>, m': seq<Byte>, from: nat, n: nat, to: nat)
    requires from + n <= to <= |m| == |m'| && SameBytes(m, m', from, to)
    ensures m'[from..from + n] == m[from..from + n]
  {
  }

  lemma HeaderFrame(m: seq<Byte>, m': seq<Byte>, b: Block, next: nat)
    requires HeaderAt(m, b, next) && |m'| == |m|
    requires SameBytes(m, m', b.addr, b.addr + HEADER)
    ensures HeaderAt(m', b, next)
  {
    LoadFrame(m, m', b.addr);
    LoadFrame(m, m', b.addr + 4);
    LoadFrame(m, m', b.addr + 9);
  }

  /** A write confined to the extent of block `i` disturbs no other header and no
      other live payload. */
  lemma OthersKept(m: seq<Byte>, m': seq<Byte>, bs: seq<Block>, i: nat, start: nat, end: nat)
    requires Tiles(bs, start, end) && end <= |m| == |m'| && i < |bs| && Encoded(m, bs)
    requires SameBytes(m, m', 0, bs[i].addr) && SameBytes(m, m', bs[i].End(), |m|)
    ensures forall k :: 0 <= k < |bs| && k != i ==> Linked(m', bs, k)
    ensures Kept(m, m', Live(bs) - {bs[i]}, start, end)
  {
    TilesOrdered(bs, i, start, end);
    forall k | 0 <= k < |bs| && k != i
      ensures Linked(m', bs, k) && SameBytes(m, m', bs[k].addr, bs[k].End())
    {
      assert Linked(m, bs, k);
      if k < i {
        TilesDisjoint(bs, k, i, start, end);
      } else {
        TilesDisjoint(bs, i, k, start, end);
      }
      HeaderFrame(m, m', bs[k], NextAddr(bs, k));
    }
  }

  /** The headers in memory chain `bs`, and `bs` tiles the arena. */
  ghost predicate Arena(m: seq<Byte>, bs: seq<Block>, start: nat, end: nat) {
    && 0 < start < end <= |m|
    && end <= 0x1_0000_0000
    && bs != []
    && Tiles(bs, start, end)
    && Encoded(m, bs)
  }

  lemma BlockFacts(m: seq<Byte>, bs: seq<Block>, start: nat, end: nat, i: nat)
    requires Arena(m, bs, start, end) && i < |bs|
    ensures start <= bs[i].addr && bs[i].End() <= end
    ensures Load32(m, bs[i].addr) == 0xDEAD_BEEF
    ensures Load32(m, bs[i].addr + 4) == bs[i].size
    ensures (m[bs[i].addr + 8] != 0) == bs[i].free
    ensures Load32(m, bs[i].addr + 9) == NextAddr(bs, i)
    ensures NextAddr(bs, i) != 0 <==> i + 1 < |bs|
    ensures i == 0 ==> bs[i].addr == start
  {
    TilesOrdered(bs, i, start, end);
    assert Linked(m, bs, i);
  }

  /** Rewriting size and link leaves magic and flag alone. */
  lemma HeaderRewrite(m: seq<Byte>, m1: seq<Byte>, m2: seq<Byte>, b: Block, next: nat, size: Word, next': Word)
    requires HeaderAt(m, b, next)
    requires Stored(m, m1, b.addr + 4, size) && Stored(m1, m2, b.addr + 9, next')
    ensures HeaderAt(m2, b.(size := size), next')
    ensures |m| == |m2| && SameBytes(m, m2, 0, b.addr) && SameBytes(m, m2, b.addr + HEADER, |m|)
  {
    LoadFrame(m, m2, b.addr);
    LoadFrame(m1, m2, b.addr + 4);
    assert m2[b.addr + 8] == m1[b.addr + 8] == m[b.addr + 8];
  }

  /** A block whose header holds the joint size and the far link has absorbed the next. */
  lemma MergeInMemory(m: seq<Byte>, m': seq<Byte>, bs: seq<Block>, start: nat, end: nat, n: nat)
    requires Arena(m, bs, start, end) && n + 1 < |bs| && bs[n].free && bs[n + 1].free
    requires HeaderAt(m', Merge(bs[n], bs[n + 1]), NextAddr(bs, n + 1))
    requires |m| == |m'| && SameBytes(m, m', 0, bs[n].addr) && SameBytes(m, m', bs[n].addr + HEADER, |m|)
    ensures Arena(m', MergeAt(bs, n), start, end)
    ensures Kept(m, m', Live(bs), start, end)
  {
    var t := MergeAt(bs, n);
    TilesOrdered(bs, n, start, end);
    OthersKept(m, m', bs, n, start, end);
    assert Live(bs) - {bs[n]} == Live(bs);
    MergeAtTiles(bs, n, start, end);
    forall k | 0 <= k < |t| ensures Linked(m', t, k) {
      if k < n {
        assert Linked(m', bs, k) && t[k] == bs[k] && NextAddr(t, k) == NextAddr(bs, k);
      } else if k > n {
        assert Linked(m', bs, k + 1) && t[k] == bs[k + 1] && NextAddr(t, k) == NextAddr(bs, k + 1);
      }
    }
  }

  lemma MarkInMemory(m: seq<Byte>, m': seq<Byte>, bs: seq<Block>, start: nat, end: nat, n: nat)
    requires Arena(m, bs, start, end) && n < |bs| && bs[n].End() <= |m|
    requires m' == m[bs[n].addr + 8 := 1]
    ensures Arena(m', bs[n := bs[n].(free := true)], start, end)
    ensures Kept(m, m', Live(bs) - {bs[n]}, start, end)
  {
    var t := bs[n := bs[n].(free := true)];
    TilesOrdered(bs, n, start, end);
    OthersKept(m, m', bs, n, start, end);
    MarkTiles(bs, n, start, end);
    assert Linked(m, bs, n);
    LoadFrame(m, m', bs[n].addr);
    LoadFrame(m, m', bs[n].addr + 4);
    LoadFrame(m, m', bs[n].addr + 9);
    forall k | 0 <= k < |t| ensures Linked(m', t, k) {
      assert NextAddr(t, k) == NextAddr(bs, k);
      assert k != n ==> Linked(m', bs, k);
    }
  }

  /** Writing inside one payload leaves the block list and the other payloads alone. */
  lemma PayloadWrite(m: seq<Byte>, m': seq<Byte>, bs: seq<Block>, start: nat, end: nat, n: nat)
    requires Arena(m, bs, start, end) && n < |bs| && |m| == |m'|
    requires SameBytes(m, m', 0, bs[n].Payload()) && SameBytes(m, m', bs[n].End(), |m|)
    ensures Arena(m', bs, start, end)
    ensures Kept(m, m', Live(bs) - {bs[n]}, start, end)
  {
    OthersKept(m, m', bs, n, start, end);
    assert Linked(m, bs, n);
    HeaderFrame(m, m', bs[n], NextAddr(bs, n));
  }

  /** Memory after block `n` was taken: only its own extent changed, and there the
      headers of the carved blocks stand. */
  lemma TakeInMemory(m: seq<Byte>, m': seq<Byte>, bs: seq<Block>, start: nat, end: nat, n: nat, req: nat)
    requires Arena(m, bs, start, end) && n < |bs| && bs[n].free && bs[n].size >= req
    requires |m| == |m'| && SameBytes(m, m', 0, bs[n].addr) && SameBytes(m, m', bs[n].End(), |m|)
    requires var c := Carve(bs[n], req);
             && HeaderAt(m', c[0], if |c| > 1 then c[1].addr else NextAddr(bs, n))
             && (|c| > 1 ==> HeaderAt(m', c[1], NextAddr(bs, n)))
    ensures Arena(m', Take(bs, n, req), start, end)
    ensures Kept(m, m', Live(bs), start, end)
  {
    var t, c := Take(bs, n, req), Carve(bs[n], req);
    TilesOrdered(bs, n, start, end);
    OthersKept(m, m', bs, n, start, end);
    assert Live(bs) - {bs[n]} == Live(bs);
    TakeTiles(bs, n, req, start, end);
    forall k | 0 <= k < |t| ensures Linked(m', t, k) {
      if k < n {
        assert Linked(m', bs, k) && t[k] == bs[k] && NextAddr(t, k) == NextAddr(bs, k);
      } else if k >= n + |c| {
        var j := k - |c| + 1;
        assert Linked(m', bs, j) && t[k] == bs[j] && NextAddr(t, k) == NextAddr(bs, j);
      } else {
        assert t[k] == c[k - n];
        assert k == n + |c| - 1 ==> NextAddr(t, k) == NextAddr(bs, n);
      }
    }
  }

  lemma LastBlock(m: seq<Byte>, bs: seq<Block>, start: nat, end: nat)
    requires Arena(m, bs, start, end)
    ensures HeaderAt(m, bs[|bs| - 1], 0) && bs[|bs| - 1].End() == end
  {
    assert Linked(m, bs, |bs| - 1);
    TilesOrdered(bs, |bs| - 1, start, end);
  }

  /** What growth leaves of the old memory: all but the last link and the new pages. */
  ghost predicate LinkChanged(m: seq<Byte>, m': seq<Byte>, last: Block, end: nat, end': nat) {
    && |m| == |m'| && end <= end' <= |m|
    && SameBytes(m, m', 0, last.addr) && SameBytes(m, m', last.Payload(), end) && SameBytes(m, m', end', |m|)
    && HeaderAt(m', last, end)
  }

  lemma GrowKeeps(m: seq<Byte>, m': seq<Byte>, bs: seq<Block>, start: nat, end: nat, end': nat)
    requires Arena(m, bs, start, end)
    requires LinkChanged(m, m', bs[|bs| - 1], end, end')
    ensures forall k :: 0 <= k < |bs| - 1 ==> Linked(m', bs, k)
    ensures Kept(m, m', Live(bs), start, end')
  {
    var z := |bs| - 1;
    TilesOrdered(bs, z, start, end);
    forall k | 0 <= k < |bs| ensures SameBytes(m, m', bs[k].Payload(), bs[k].End()) && (k < z ==> Linked(m', bs, k)) {
      TilesOrdered(bs, k, start, end);
      if k < z {
        assert Linked(m, bs, k);
        TilesDisjoint(bs, k, z, start, end);
        HeaderFrame(m, m', bs[k], NextAddr(bs, k));
      }
    }
  }

  /** Memory after growth: the last link leads to the carved new pages. */
  lemma GrowInMemory(m: seq<Byte>, m': seq<Byte>, bs: seq<Block>, start: nat, end: nat, pages: nat, req: nat)
    requires Arena(m, bs, start, end) && req + HEADER <= pages * PAGE_SIZE
    requires end + pages * PAGE_SIZE <= 0x1_0000_0000
    requires LinkChanged(m, m', bs[|bs| - 1], end, end + pages * PAGE_SIZE)
    requires var c := Carve(Block(end, pages * PAGE_SIZE - HEADER, true), req);
             && HeaderAt(m', c[0], if |c| > 1 then c[1].addr else 0)
             && (|c| > 1 ==> HeaderAt(m', c[1], 0))
    ensures Arena(m', Extend(bs, end, pages, req), start, end + pages * PAGE_SIZE)
    ensures Kept(m, m', Live(bs), start, end + pages * PAGE_SIZE)
  {
    var c := Carve(Block(end, pages * PAGE_SIZE - HEADER, true), req);
    var e := Extend(bs, end, pages, req);
    GrowKeeps(m, m', bs, start, end, end + pages * PAGE_SIZE);
    ExtendTiles(bs, end, pages, req, start, end);
    forall k | 0 <= k < |e| ensures Linked(m', e, k) {
      if k < |bs| - 1 {
        assert Linked(m', bs, k) && e[k] == bs[k] && e[k + 1] == bs[k + 1];
      } else if k < |bs| {
        assert e[k] == bs[k] && e[k + 1] == c[0];
      } else {
        assert e[k] == c[k - |bs|];
      }
    }
  }

  function InitialPages(size: Word): nat {
    ((if size < 0x10_0000 then 0x10_0000 else size) as int + 4095) / 4096
  }

  /** Largest request whose page count is computed without wrap-around. */
  const MAX_REQUEST: nat := 0xFFFF_EFF0

  function PagesFor(req: nat): (n: nat)
    ensures req + HEADER <= n * PAGE_SIZE
  {
    (req + HEADER + PAGE_SIZE - 1) / PAGE_SIZE
  }

  /** The least number of pages for a header and `req` bytes, and the number that the source
      computes on 32 bits as long as that does not wrap. */
  lemma PagesForLeast(req: nat)
    ensures req + 13 <= 4096 * PagesFor(req) < req + 13 + 4096
    ensures req <= MAX_REQUEST ==> PagesOnWords(req) == PagesFor(req)
  {
  }

  /** The least number of pages for the size asked for and for 1 MB. */
  lemma InitialPagesLeast(size: Word)
    ensures size <= 4096 * InitialPages(size) && 0x10_0000 <= 4096 * InitialPages(size)
    ensures InitialPages(size) == 256 || 4096 * (InitialPages(size) - 1) < size
  {
  }

  /** The free pages lost exactly the run of `count` pages from `first`. */
  ghost predicate GaveRun(free: set<nat>, free': set<nat>, first: nat, count: nat) {
    forall p :: p in free' <==> p in free && !InRun(p, first, count)
  }

  /** No page of the run is free once the lowest pages from its first on are taken. */
  lemma NoneInRun(free: set<nat>, left: set<nat>, first: nat, count: nat)
    requires IsLowest(first, free) && TookLowest(free, left, count) && count <= |free|
    ensures left <= free && forall p :: first <= p < first + count ==> p !in left
  {
    forall p | first <= p < first + count
      ensures p !in left
    {
      if p in left {
        RunSize(free - left, first, p - first);
      }
    }
  }

  lemma RunTaken(free: set<nat>, left: set<nat>, first: nat, count: nat, page: nat, total: nat)
    requires LowestAre(free, first, count) && TookLowest(free, left, count) && count > 0 && IsLowest(page, free)
    requires forall p :: p in free ==> p < total
    ensures page == first && GaveRun(free, left, first, count) && first + count <= total
  {
    LowestNext(free, first, count, page);
    TakenAreRun(free, left, first, count);
    assert first + (count - 1) in free;
  }

  /** With the run taken, the pages of the longer arena are not free. */
  lemma GrownOwned(free: set<nat>, left: set<nat>, start: nat, first: nat, count: nat)
    requires GaveRun(free, left, first, count) && forall p :: start <= p < first ==> p !in free
    ensures left <= free && forall p :: start <= p < first + count ==> p !in left
  {
    forall p | start <= p < first + count
      ensures p !in left
    {
      assert p < first || InRun(p, first, count);
    }
  }

  /** Growing an arena by the `k` lowest free pages leaves a tiling whose new part is exactly
      the pages taken if and only if those follow the arena one by one. The source looks at
      the first of them only. */
  lemma GrowthIsSound(bs: seq<Block>, start: nat, end: nat, free: set<nat>, left: set<nat>, p: nat, k: nat, req: nat)
    requires Tiles(bs, start, end) && end % PAGE_SIZE == 0 && req + HEADER <= k * PAGE_SIZE
    requires IsLowest(p, free) && TookLowest(free, left, k)
    ensures Tiles(Extend(bs, p * PAGE_SIZE, k, req), start, p * PAGE_SIZE + k * PAGE_SIZE) && IsRun(free - left, p, k)
            <==> LowestAre(free, end / PAGE_SIZE, k)
  {
    ExtendTiles(bs, p * PAGE_SIZE, k, req, start, end);
    TookRun(free, left, p, k);
    if LowestAre(free, end / PAGE_SIZE, k) {
      LowestNext(free, end / PAGE_SIZE, k, p);
    }
  }

  /** An arena that ends where page 0x101 starts, and the free pages 0x101 and 0x108: a
      request of two pages starts right at the arena's end, and its block covers page 0x102,
      which was never free, while page 0x108 is lost. */
  lemma GrowthOverTakenPage()
    ensures var bs, free := [Block(0x10_0000, PAGE_SIZE - HEADER, false)], {0x101, 0x108};
            && Tiles(bs, 0x10_0000, 0x10_1000) && IsLowest(0x101, free) && TookLowest(free, {}, 2)
            && Tiles(Extend(bs, 0x10_1000, 2, 5000), 0x10_0000, 0x10_3000)
            && 0x102 !in free && !IsRun(free - {}, 0x101, 2)
  {
    var bs, free := [Block(0x10_0000, PAGE_SIZE - HEADER, false)], {0x101, 0x108};
    assert Tiles(bs[1..], 0x10_1000, 0x10_1000);
    ExtendTiles(bs, 0x10_1000, 2, 5000, 0x10_0000, 0x10_1000);
    assert free - {} == free && |free| == 2;
    assert InRun(0x102, 0x101, 2) && 0x102 !in free - {};
  }

  // What decides an allocation

  /** The block list, where the arena ends, and the pages that are free. */
  datatype Stock = Stock(blocks: seq<Block>, end: nat, free: set<nat>)

  /** No block has room and no page is left. */
  ghost predicate Short(s: Stock, req: nat) {
    FirstFit(s.blocks, req) == |s.blocks| && s.free == {}
  }

  /** A block has room, or the next pages follow the arena, or none is left; the source
      relies on this without checking it. */
  ghost predicate Serves(s: Stock, req: nat) {
    || FirstFit(s.blocks, req) < |s.blocks|
    || s.free == {} || LowestAre(s.free, s.end / PAGE_SIZE, PagesFor(req))
  }

  /** What `Serves` asks of a growth is exactly what makes its result sound. */
  lemma ServesExactly(s: Stock, start: nat, req: nat, left: set<nat>, p: nat)
    requires Tiles(s.blocks, start, s.end) && s.end % PAGE_SIZE == 0 && FirstFit(s.blocks, req) == |s.blocks|
    requires IsLowest(p, s.free) && TookLowest(s.free, left, PagesFor(req))
    ensures var k := PagesFor(req);
            Tiles(Extend(s.blocks, p * PAGE_SIZE, k, req), start, p * PAGE_SIZE + k * PAGE_SIZE)
            && IsRun(s.free - left, p, k)
            <==> Serves(s, req)
  {
    hide Tiles, LowestAre, IsRun, Extend, TookLowest;
    GrowthIsSound(s.blocks, start, s.end, s.free, left, p, PagesFor(req), req);
  }

  /** The stock after an allocation that is served. */
  ghost function Served(s: Stock, req: nat): Stock {
    var i := FirstFit(s.blocks, req);
    if i < |s.blocks| then s.(blocks := Take(s.blocks, i, req))
    else
      var k := PagesFor(req);
      Stock(Extend(s.blocks, s.end, k, req), s.end + k * PAGE_SIZE,
            set p | p in s.free && !InRun(p, s.end / PAGE_SIZE, k))
  }

  /** The address that such an allocation returns. */
  ghost function ServedAt(s: Stock, req: nat): nat {
    var i := FirstFit(s.blocks, req);
    if i < |s.blocks| then s.blocks[i].Payload() else s.end + HEADER
  }

  lemma AlignedRequest(size: Word)
    requires size <= MAX_REQUEST
    ensures size <= AlignUp4(size) <= MAX_REQUEST
    ensures size > 0 ==> AlignUp4(size) > 0
  {
  }

  class Heap {
    const mem: PhysMem
    const pmm: Pmm
    var heapStart: Word
    var heapEnd: nat
    ghost var blocks: seq<Block>

    /** The arena's pages are managed by the page allocator and not free. */
    ghost predicate Owned()
      reads this`heapStart, this`heapEnd, pmm, pmm.bitmap
    {
      && pmm.Valid()
      && 0 !in pmm.Free()
      && heapStart < heapEnd <= pmm.totalPages * PAGE_SIZE
      && heapStart % PAGE_SIZE == 0 && heapEnd % PAGE_SIZE == 0
      && (forall p :: heapStart / PAGE_SIZE <= p < heapEnd / PAGE_SIZE ==> p !in pmm.Free())
    }

    ghost predicate Tiled()
      reads this`heapStart, this`heapEnd, this`blocks, mem, pmm`totalPages
    {
      Arena(mem.ram, blocks, heapStart, heapEnd) && pmm.totalPages * PAGE_SIZE <= |mem.ram|
    }

    ghost predicate Valid()
      reads this, mem, pmm, pmm.bitmap
    {
      Owned() && Tiled() && Canonical(blocks)
    }

    /** `heap_init`: as many bytes as `InitialPages(size)` pages have, from the lowest free
        page on, become one free block. Those are the pages it took exactly when the lowest
        free pages were consecutive. */
    constructor (mem: PhysMem, pmm: Pmm, size: Word, ghost first: nat)
      requires pmm.Valid() && 0 !in pmm.Free() && pmm.totalPages * PAGE_SIZE <= |mem.ram|
      requires InitialPages(size) <= |pmm.Free()| && IsLowest(first, pmm.Free())
      requires first + InitialPages(size) <= pmm.totalPages
      modifies pmm`freePages, pmm.bitmap, mem
      ensures this.mem == mem && this.pmm == pmm && Valid()
      ensures heapStart == first * PAGE_SIZE && heapEnd == heapStart + InitialPages(size) * PAGE_SIZE
      ensures OneFree(blocks, heapStart, heapEnd)
      ensures Kept(old(mem.ram), mem.ram, {}, heapStart, heapEnd)
      ensures TookLowest(old(pmm.Free()), pmm.Free(), InitialPages(size))
      ensures IsRun(old(pmm.Free()) - pmm.Free(), first, InitialPages(size))
              <==> LowestAre(old(pmm.Free()), first, InitialPages(size))
    {
      hide TookLowest, LowestAre, IsRun, InRun, Load32;
      var pages := InitialPages(size);
      ghost var free := pmm.Free();
      var start := AllocRun(pmm, pages);
      TookRun(free, pmm.Free(), first, pages);
      NoneInRun(free, pmm.Free(), first, pages);
      this.mem := mem;
      this.pmm := pmm;
      heapStart := start;
      heapEnd := start + pages * PAGE_SIZE;
      blocks := [Block(start, pages * PAGE_SIZE - HEADER, true)];
      new;
      assert heapStart / PAGE_SIZE == first && heapEnd / PAGE_SIZE == first + pages;
      WriteHeader(mem, start, pages * PAGE_SIZE - HEADER, true, 0);
      assert Tiles(blocks[1..], heapEnd, heapEnd);
      assert Linked(mem.ram, blocks, 0);
    }

    /** Folds block `n + 1` into block `n`; both are free. */
    method MergeNext(curr: nat, next: nat, ghost n: nat)
      requires Tiled() && n + 1 < |blocks|
      requires curr == blocks[n].addr && next == blocks[n + 1].addr
      requires blocks[n].free && blocks[n + 1].free
      modifies this`blocks, mem
      ensures Tiled()
      ensures blocks == MergeAt(old(blocks), n) && Live(blocks) == old(Live(blocks))
      ensures Kept(old(mem.ram), mem.ram, Live(blocks), heapStart, heapEnd)
    {
      hide Tiles, Live, Kept;
      BlockFacts(mem.ram, blocks, heapStart, heapEnd, n);
      BlockFacts(mem.ram, blocks, heapStart, heapEnd, n + 1);
      TilesOrdered(blocks, n, heapStart, heapEnd);
      ghost var m := mem.ram;
      var size0, size1 := Load32(mem.ram, curr + 4), Load32(mem.ram, next + 4);
      var size := size0 as int + HEADER + size1 as int;
      assert curr + HEADER + size <= heapEnd;
      assert Linked(mem.ram, blocks, n);
      SetSizeAndLink(mem, curr, size, Load32(mem.ram, next + 9), blocks[n], next);
      MergeAtLive(blocks, n);
      MergeInMemory(m, mem.ram, blocks, heapStart, heapEnd, n);
      blocks := MergeAt(blocks, n);
    }

    /** One turn of the coalescing walk: merge and stay, or move on. */
    method CoalesceTurn(curr: nat, ghost n: nat) returns (curr': nat, ghost n': nat)
      requires Tiled() && n + 1 < |blocks| && curr == blocks[n].addr
      modifies this`blocks, mem
      ensures Tiled()
      ensures n' < |blocks| && curr' == blocks[n'].addr && |blocks| - n' < old(|blocks|) - n
      ensures blocks[..n'] + HeapSpec.Coalesce(blocks[n'..]) == old(blocks[..n] + HeapSpec.Coalesce(blocks[n..]))
      ensures Live(blocks) == old(Live(blocks))
      ensures Kept(old(mem.ram), mem.ram, Live(blocks), heapStart, heapEnd)
    {
      BlockFacts(mem.ram, blocks, heapStart, heapEnd, n);
      BlockFacts(mem.ram, blocks, heapStart, heapEnd, n + 1);
      CoalesceStep(blocks, n);
      var next := Load32(mem.ram, curr + 9);
      if mem.ram[curr + 8] != 0 && mem.ram[next + 8] != 0 {
        MergeNext(curr, next, n);
        curr', n' := curr, n;
      } else {
        curr', n' := next, n + 1;
      }
    }

    /** Walks the list once; merges every free block with its free successors. */
    method Coalesce()
      requires Owned() && Tiled()
      modifies this`blocks, mem
      ensures Valid()
      ensures blocks == HeapSpec.Coalesce(old(blocks))
      ensures Kept(old(mem.ram), mem.ram, old(Live(blocks)), heapStart, heapEnd)
    {
      hide HeaderAt, Encoded, Tiles, Live;
      ghost var live := Live(blocks);
      var curr: nat := heapStart;
      ghost var n: nat := 0;
      BlockFacts(mem.ram, blocks, heapStart, heapEnd, 0);
      assert blocks[0..] == blocks;
      while Load32(mem.ram, curr + 9) != 0
        invariant Tiled()
        invariant n < |blocks| && curr == blocks[n].addr && curr + HEADER <= |mem.ram|
        invariant blocks[..n] + HeapSpec.Coalesce(blocks[n..]) == HeapSpec.Coalesce(old(blocks))
        invariant Live(blocks) == live
        invariant Kept(old(mem.ram), mem.ram, live, heapStart, heapEnd)
        decreases |blocks| - n
      {
        ghost var m := mem.ram;
        BlockFacts(mem.ram, blocks, heapStart, heapEnd, n);
        curr, n := CoalesceTurn(curr, n);
        KeptTransitive(old(mem.ram), m, mem.ram, live, heapStart, heapEnd);
        BlockFacts(mem.ram, blocks, heapStart, heapEnd, n);
      }
      BlockFacts(mem.ram, blocks, heapStart, heapEnd, n);
      assert blocks[..n] + blocks[n..] == blocks;
      CoalesceCanonical(old(blocks));
    }

    /** Chains one live block of `size` bytes at `page` behind the last block. */
    method ChainBytes(page: nat, size: Word, last: nat, ghost b: Block)
      requires HeaderAt(mem.ram, b, 0) && b.addr == last && b.End() == page
      requires page + HEADER + size <= |mem.ram| && page < 0x1_0000_0000
      modifies mem
      ensures LinkChanged(old(mem.ram), mem.ram, b, page, page + HEADER + size)
      ensures HeaderAt(mem.ram, Block(page, size, false), 0)
    {
      hide Load32;
      ghost var m := mem.ram;
      WriteHeader(mem, page, size, false, 0);
      HeaderFrame(m, mem.ram, b, 0);
      ghost var m1 := mem.ram;
      SetLink(mem, last, page, b, 0);
      HeaderFrame(m1, mem.ram, Block(page, size, false), 0);
    }

    /** Chains new pages behind the last block and keeps `req` bytes of them. */
    method GrowBytes(page: nat, pages: nat, req: Word, last: nat, ghost b: Block)
      requires HeaderAt(mem.ram, b, 0) && b.addr == last && b.End() == page
      requires 0 < pages && req + HEADER <= pages * PAGE_SIZE
      requires page + pages * PAGE_SIZE <= |mem.ram| && page + pages * PAGE_SIZE <= 0x1_0000_0000
      modifies mem
      ensures LinkChanged(old(mem.ram), mem.ram, b, page, page + pages * PAGE_SIZE)
      ensures var c := Carve(Block(page, pages * PAGE_SIZE - HEADER, true), req);
              && HeaderAt(mem.ram, c[0], if |c| > 1 then c[1].addr else 0)
              && (|c| > 1 ==> HeaderAt(mem.ram, c[1], 0))
    {
      hide Load32;
      var size := pages * PAGE_SIZE - HEADER;
      ChainBytes(page, size, last, b);
      if size >= req as int + HEADER + 16 {
        ghost var m := mem.ram;
        SplitAt(page, req, Block(page, size, false), 0);
        HeaderFrame(m, mem.ram, b, page);
      }
    }

    /** Extends the arena by `pages` fresh pages right behind it. */
    method GrowAt(page: nat, pages: nat, req: Word, last: nat)
      requires Tiled() && last == blocks[|blocks| - 1].addr && page == heapEnd
      requires 0 < pages && req + HEADER <= pages * PAGE_SIZE
      requires page + pages * PAGE_SIZE <= |mem.ram| && page + pages * PAGE_SIZE <= 0x1_0000_0000
      modifies this`blocks, this`heapEnd, mem
      ensures Tiled() && heapEnd == old(heapEnd) + pages * PAGE_SIZE
      ensures blocks == Extend(old(blocks), old(heapEnd), pages, req)
      ensures Kept(old(mem.ram), mem.ram, old(Live(blocks)), heapStart, heapEnd)
    {
      hide HeaderAt, Tiles, Live;
      LastBlock(mem.ram, blocks, heapStart, heapEnd);
      ghost var m := mem.ram;
      GrowBytes(page, pages, req, last, blocks[|blocks| - 1]);
      GrowInMemory(m, mem.ram, blocks, heapStart, heapEnd, pages, req);
      blocks := Extend(blocks, heapEnd, pages, req);
      heapEnd := page + pages * PAGE_SIZE;
    }

    /** Grows the arena for `req` bytes, or returns 0 when no page is left. */
    method Grow(last: nat, req: Word) returns (ptr: nat, ghost b: Block)
      requires Valid() && last == blocks[|blocks| - 1].addr
      requires 0 < req <= MAX_REQUEST + 3 && CanGrow(req)
      modifies this`blocks, this`heapEnd, mem, pmm`freePages, pmm.bitmap
      ensures Valid() && pmm.Free() <= old(pmm.Free())
      ensures Kept(old(mem.ram), mem.ram, old(Live(blocks)), heapStart, heapEnd)
      ensures old(pmm.Free()) == {} ==> ptr == 0 && blocks == old(blocks) && heapEnd == old(heapEnd)
      ensures old(pmm.Free()) != {} ==>
                && ptr == old(heapEnd) + HEADER && heapEnd == old(heapEnd) + PagesFor(req) * PAGE_SIZE
                && blocks == Extend(old(blocks), old(heapEnd), PagesFor(req), req)
                && GaveRun(old(pmm.Free()), pmm.Free(), old(heapEnd) / PAGE_SIZE, PagesFor(req))
                && Joined(old(blocks), blocks, b) && b.Payload() == ptr && Snug(b, req)
    {
      hide Tiles, Live, Canonical, PagesFor, Joined, Extend, LowestAre, GaveRun, InRun;
      var pages := PagesFor(req);
      ghost var free := pmm.Free();
      var page := TakeRun(pmm, pages, heapEnd / PAGE_SIZE);
      if page == 0 {
        return 0, Block(0, 0, false);
      }
      GrownOwned(free, pmm.Free(), heapStart / PAGE_SIZE, heapEnd / PAGE_SIZE, pages);
      ptr, b := GrowBy(page, pages, req, last);
    }

    /** Chains the pages just taken, which follow the arena, and keeps a block of them. */
    method GrowBy(page: nat, pages: nat, req: Word, last: nat) returns (ptr: nat, ghost b: Block)
      requires Tiled() && Canonical(blocks) && last == blocks[|blocks| - 1].addr && page == heapEnd
      requires pmm.Valid() && 0 !in pmm.Free() && heapStart % PAGE_SIZE == 0 && heapEnd % PAGE_SIZE == 0
      requires 0 < pages && req + HEADER <= pages * PAGE_SIZE && heapEnd / PAGE_SIZE + pages <= pmm.totalPages
      requires forall p :: heapStart / PAGE_SIZE <= p < heapEnd / PAGE_SIZE + pages ==> p !in pmm.Free()
      modifies this`blocks, this`heapEnd, mem
      ensures Valid() && Kept(old(mem.ram), mem.ram, old(Live(blocks)), heapStart, heapEnd)
      ensures ptr == old(heapEnd) + HEADER && heapEnd == old(heapEnd) + pages * PAGE_SIZE
      ensures blocks == Extend(old(blocks), old(heapEnd), pages, req)
      ensures Joined(old(blocks), blocks, b) && b.Payload() == ptr && Snug(b, req)
    {
      hide Tiles, Live, Canonical, Kept, Joined, Encoded, Extend;
      b := Carve(Block(heapEnd, pages * PAGE_SIZE - HEADER, true), req)[0];
      ExtendCanonical(blocks, heapEnd, pages, req);
      ExtendNew(blocks, pages, req, heapStart, heapEnd);
      GrowAt(page, pages, req, last);
      assert heapEnd / PAGE_SIZE == old(heapEnd) / PAGE_SIZE + pages;
      ptr := page + HEADER;
    }

    /** Growing for `req` bytes would get the pages right behind the arena, or none. */
    ghost predicate CanGrow(req: nat)
      reads this`heapEnd, pmm, pmm.bitmap
      requires pmm.totalPages <= 32 * pmm.bitmap.Length
    {
      pmm.Free() == {} || LowestAre(pmm.Free(), heapEnd / PAGE_SIZE, PagesFor(req))
    }

    /** The list walk of `kmalloc`: the first fitting block, or 0 and the last block. */
    method FindFit(req: nat) returns (curr: nat, last: nat, ghost n: nat)
      requires Tiled()
      ensures n == FirstFit(blocks, req)
      ensures if FirstFit(blocks, req) < |blocks| then curr == blocks[FirstFit(blocks, req)].addr > 0
              else curr == 0 && last == blocks[|blocks| - 1].addr
    {
      curr, last, n := heapStart, 0, 0;
      BlockFacts(mem.ram, blocks, heapStart, heapEnd, 0);
      while curr != 0
        invariant n <= |blocks|
        invariant curr == if n < |blocks| then blocks[n].addr else 0
        invariant n > 0 ==> last == blocks[n - 1].addr
        invariant forall k :: 0 <= k < n ==> !(blocks[k].free && blocks[k].size >= req)
        decreases |blocks| - n
      {
        BlockFacts(mem.ram, blocks, heapStart, heapEnd, n);
        if mem.ram[curr + 8] != 0 && Load32(mem.ram, curr + 4) >= req {
          break;
        }
        last := curr;
        curr := Load32(mem.ram, curr + 9);
        n := n + 1;
      }
      if n < |blocks| {
        BlockFacts(mem.ram, blocks, heapStart, heapEnd, n);
      }
      FirstFitIs(blocks, n, req);
    }

    /** Cuts the block at `curr` after `req` bytes; the rest is a free block. */
    method SplitAt(curr: nat, req: Word, ghost b: Block, ghost link: nat)
      requires HeaderAt(mem.ram, b, link) && b.End() <= |mem.ram| && b.End() <= 0x1_0000_0000
      requires curr == b.addr && b.size >= req + HEADER + 16
      modifies mem
      ensures |mem.ram| == old(|mem.ram|)
      ensures HeaderAt(mem.ram, Block(b.addr, req, b.free), b.addr + HEADER + req)
      ensures HeaderAt(mem.ram, Block(b.addr + HEADER + req, b.size - req - HEADER, true), link)
      ensures SameBytes(old(mem.ram), mem.ram, 0, b.addr) && SameBytes(old(mem.ram), mem.ram, b.End(), |mem.ram|)
    {
      hide Load32;
      ghost var m := mem.ram;
      var next := curr + HEADER + req;
      var size := Load32(mem.ram, curr + 4);
      WriteHeader(mem, next, size - req - HEADER, true, Load32(mem.ram, curr + 9));
      HeaderFrame(m, mem.ram, b, link);
      ghost var m1 := mem.ram;
      SetSizeAndLink(mem, curr, req, next, b, link);
      HeaderFrame(m1, mem.ram, Block(next, size - req - HEADER, true), link);
    }

    /** Takes the free block at `curr`, splitting it when the rest is worth a block. */
    method TakeBytes(curr: nat, req: Word, ghost b: Block, ghost link: nat)
      requires HeaderAt(mem.ram, b, link) && b.free && b.End() <= |mem.ram| && b.End() <= 0x1_0000_0000
      requires curr == b.addr && b.size >= req
      modifies mem
      ensures |mem.ram| == old(|mem.ram|)
      ensures var c := Carve(b, req);
              && HeaderAt(mem.ram, c[0], if |c| > 1 then c[1].addr else link)
              && (|c| > 1 ==> HeaderAt(mem.ram, c[1], link))
      ensures SameBytes(old(mem.ram), mem.ram, 0, b.addr) && SameBytes(old(mem.ram), mem.ram, b.End(), |mem.ram|)
    {
      hide Load32;
      ghost var c := Carve(b, req);
      if Load32(mem.ram, curr + 4) as int >= req as int + HEADER + 16 {
        SplitAt(curr, req, b, link);
      }
      ghost var m := mem.ram;
      mem.Write8(curr + 8, 0);
      FlagCleared(m, mem.ram, c[0].(free := true), if |c| > 1 then c[1].addr else link);
      if |c| > 1 {
        HeaderFrame(m, mem.ram, c[1], link);
      }
    }

    method TakeAt(curr: nat, req: Word, ghost n: nat)
      requires Tiled() && n < |blocks| && blocks[n].free && blocks[n].size >= req
      requires curr == blocks[n].addr
      modifies this`blocks, mem
      ensures Tiled() && blocks == Take(old(blocks), n, req)
      ensures Kept(old(mem.ram), mem.ram, old(Live(blocks)), heapStart, heapEnd)
    {
      BlockFacts(mem.ram, blocks, heapStart, heapEnd, n);
      assert Linked(mem.ram, blocks, n);
      ghost var m := mem.ram;
      TakeBytes(curr, req, blocks[n], NextAddr(blocks, n));
      TakeInMemory(m, mem.ram, blocks, heapStart, heapEnd, n, req);
      blocks := Take(blocks, n, req);
    }

    ghost function Supply(): Stock
      reads this`heapEnd, this`blocks, pmm, pmm.bitmap
      requires pmm.totalPages <= 32 * pmm.bitmap.Length
    {
      Stock(blocks, heapEnd, pmm.Free())
    }

    /** Allocates `size` bytes: the first free block with room, else new pages. */
    method Kmalloc(size: Word) returns (ptr: nat, ghost fit: nat, ghost b: Block)
      requires Valid() && (size > 0 ==> size <= MAX_REQUEST && Serves(Supply(), AlignUp4(size)))
      modifies this, mem, pmm`freePages, pmm.bitmap
      ensures Valid() && heapStart == old(heapStart) && heapEnd >= old(heapEnd)
      ensures fit == FirstFit(old(blocks), AlignUp4(size))
      ensures Kept(old(mem.ram), mem.ram, old(Live(blocks)), heapStart, heapEnd)
      ensures pmm.Free() <= old(pmm.Free())
      ensures ptr == 0 <==> size == 0 || (fit == |old(blocks)| && old(pmm.Free()) == {})
      ensures ptr == 0 ==> blocks == old(blocks)
      ensures ptr != 0 ==> Joined(old(blocks), blocks, b) && b.Payload() == ptr
      ensures ptr != 0 ==> b.size >= size && Snug(b, AlignUp4(size))
      ensures ptr != 0 && fit < |old(blocks)| ==>
                ptr == old(blocks)[fit].Payload() && blocks == Take(old(blocks), fit, AlignUp4(size))
      ensures ptr == 0 || fit < |old(blocks)| ==> heapEnd == old(heapEnd) && pmm.Free() == old(pmm.Free())
      ensures ptr != 0 && fit == |old(blocks)| ==>
                && ptr == old(heapEnd) + HEADER && heapEnd == old(heapEnd) + PagesFor(AlignUp4(size)) * PAGE_SIZE
                && blocks == Extend(old(blocks), old(heapEnd), PagesFor(AlignUp4(size)), AlignUp4(size))
                && GaveRun(old(pmm.Free()), pmm.Free(), old(heapEnd) / PAGE_SIZE, PagesFor(AlignUp4(size)))
    {
      hide HeaderAt, Tiles, Live, Take, Linked, Joined, Extend, Canonical, AlignUp4, PagesFor, LowestAre, FirstFit;
      AlignedRequest(size);
      var req := AlignUp4(size);
      fit := FirstFit(blocks, req);
      b := Block(0, 0, false);
      if size == 0 {
        return 0, fit, b;
      }
      var curr, last, n := FindFit(req);
      if curr != 0 {
        ptr, b := KmallocFit(curr, req, n);
      } else {
        ptr, b := Grow(last, req);
      }
    }

    method KmallocFit(curr: nat, req: Word, ghost n: nat) returns (ptr: nat, ghost b: Block)
      requires Valid() && n < |blocks| && blocks[n].free && blocks[n].size >= req
      requires curr == blocks[n].addr
      modifies this`blocks, mem
      ensures Valid() && blocks == Take(old(blocks), n, req)
      ensures ptr == old(blocks)[n].Payload()
      ensures ptr != 0 && Joined(old(blocks), blocks, b) && b.Payload() == ptr && Snug(b, req)
      ensures Kept(old(mem.ram), mem.ram, old(Live(blocks)), heapStart, heapEnd)
    {
      TakeCanonical(blocks, n, req);
      TakeNew(blocks, n, req, heapStart, heapEnd);
      b := Carve(blocks[n], req)[0];
      TakeAt(curr, req, n);
      ptr := curr + HEADER;
    }

    /** Whether `ptr` was handed out for a block that is still in the list. */
    ghost predicate Owns(ptr: nat)
      reads this`blocks
    {
      exists b :: b in blocks && b.Payload() == ptr
    }

    /** Gives a block back. */
    method Kfree(ptr: nat)
      requires Valid() && (ptr == 0 || Owns(ptr))
      modifies this`blocks, mem
      ensures Valid()
      ensures ptr == 0 ==> blocks == old(blocks) && mem.ram == old(mem.ram)
      ensures ptr != 0 ==>
                var i := IndexOf(old(blocks), ptr - HEADER);
                && i < |old(blocks)| && blocks == Release(old(blocks), i)
                && Live(blocks) == old(Live(blocks)) - {old(blocks)[i]}
      ensures Kept(old(mem.ram), mem.ram, Live(blocks), heapStart, heapEnd)
    {
      if ptr == 0 {
        return;
      }
      var addr := ptr - HEADER;
      ghost var n := IndexOf(blocks, addr);
      BlockFacts(mem.ram, blocks, heapStart, heapEnd, n);
      ghost var m := mem.ram;
      ReleaseKeeps(blocks, n, heapStart, heapEnd);
      MarkLive(blocks, n, heapStart, heapEnd);
      mem.Write8(addr + 8, 1);
      MarkInMemory(m, mem.ram, blocks, heapStart, heapEnd, n);
      blocks := blocks[n := blocks[n].(free := true)];
      ghost var m1 := mem.ram;
      Coalesce();
      KeptTransitive(m, m1, mem.ram, Live(blocks), heapStart, heapEnd);
    }

    /** Whether `b` is live and `ptr` is its payload. */
    ghost predicate LiveAt(ptr: nat, b: Block)
      reads this`blocks
    {
      b in Live(blocks) && b.Payload() == ptr
    }

    lemma IndexOfLive(b: Block) returns (n: nat)
      requires b in Live(blocks) && Tiles(blocks, heapStart, heapEnd)
      ensures n < |blocks| && blocks[n] == b && IndexOf(blocks, b.addr) == n
    {
      n :| 0 <= n < |blocks| && blocks[n] == b;
      SameAddr(blocks, n, IndexOf(blocks, b.addr), heapStart, heapEnd);
    }

    /** Reads the size field in the header before `ptr`. */
    method SizeOf(ptr: nat, ghost b: Block) returns (size: Word)
      requires Tiled() && LiveAt(ptr, b)
      ensures size == b.size && b.End() <= heapEnd <= |mem.ram|
    {
      ghost var n := IndexOfLive(b);
      BlockFacts(mem.ram, blocks, heapStart, heapEnd, n);
      size := Load32(mem.ram, ptr - HEADER + 4);
    }

    /** Copies the payload of `b` to the front of the payload of `b'`. */
    method CopyPayload(ptr: nat, r: nat, ghost b: Block, ghost b': Block)
      requires Valid() && LiveAt(ptr, b) && LiveAt(r, b')
      requires b.size <= b'.size && (b.End() <= b'.addr || b'.End() <= b.addr)
      modifies mem
      ensures Valid() && Kept(old(mem.ram), mem.ram, Live(blocks) - {b'}, heapStart, heapEnd)
      ensures b'.End() <= |mem.ram| && ptr + b.size <= |mem.ram|
      ensures mem.ram[r..r + b.size] == old(mem.ram)[ptr..ptr + b.size]
    {
      hide Tiles, Canonical;
      ghost var n' := IndexOfLive(b');
      TilesOrdered(blocks, n', heapStart, heapEnd);
      var size := SizeOf(ptr, b);
      ghost var m := mem.ram;
      assert r + size <= b'.End() <= |m| && ptr + size == b.End();
      Memcpy(mem, r, ptr, size);
      PayloadWrite(m, mem.ram, blocks, heapStart, heapEnd, n');
    }

    /** `Kfree` for a live block. */
    method FreeLive(ptr: nat, ghost b: Block)
      requires Valid() && LiveAt(ptr, b)
      modifies this`blocks, mem
      ensures Valid() && Live(blocks) == old(Live(blocks)) - {b}
      ensures Kept(old(mem.ram), mem.ram, Live(blocks), heapStart, heapEnd)
    {
      ghost var n := IndexOfLive(b);
      Kfree(ptr);
    }

    /** An allocation served from the arena and its release leave the block list exactly
        as it was, and no live payload changed. */
    method AllocateAndRelease(size: Word)
      requires Valid() && 0 < size <= MAX_REQUEST && FirstFit(blocks, AlignUp4(size)) < |blocks|
      modifies this, mem, pmm`freePages, pmm.bitmap
      ensures Valid() && blocks == old(blocks) && heapStart == old(heapStart) && heapEnd == old(heapEnd)
      ensures pmm.Free() == old(pmm.Free())
      ensures Kept(old(mem.ram), mem.ram, Live(blocks), heapStart, heapEnd)
    {
      hide FirstFit, Take, Release, Tiles, Canonical, Kept;
      ghost var before, m := blocks, mem.ram;
      ghost var fit, b;
      var ptr;
      ptr, fit, b := Kmalloc(size);
      ghost var taken, m1 := blocks, mem.ram;
      ghost var k: nat :| k < |taken| && taken[k] == b;
      assert Owns(ptr);
      Kfree(ptr);
      SameAddr(taken, IndexOf(taken, ptr - HEADER), k, heapStart, heapEnd);
      assert Live(blocks) == Live(before);
      CanonicalUnique(blocks, before, heapStart, heapEnd);
      KeptTransitive(m, m1, mem.ram, Live(before), heapStart, heapEnd);
    }

    /** Copies the old payload into the new one and frees the old block. */
    method MoveTo(ptr: nat, r: nat, ghost b: Block, ghost b': Block)
      requires Valid() && LiveAt(ptr, b) && LiveAt(r, b')
      requires b.size <= b'.size && (b.End() <= b'.addr || b'.End() <= b.addr)
      modifies this`blocks, mem
      ensures Valid() && Live(blocks) == old(Live(blocks)) - {b}
      ensures Kept(old(mem.ram), mem.ram, old(Live(blocks)) - {b} - {b'}, heapStart, heapEnd)
      ensures ptr + b.size <= |old(mem.ram)| && r + b.size <= |mem.ram|
      ensures mem.ram[r..r + b.size] == old(mem.ram)[ptr..ptr + b.size]
    {
      hide Tiles, Canonical, HeaderAt;
      ghost var m, live := mem.ram, Live(blocks);
      CopyPayload(ptr, r, b, b');
      ghost var m1 := mem.ram;
      FreeLive(ptr, b);
      MovedBytes(m, m1, mem.ram, live, b, b', heapStart, heapEnd);
      FrontKept(m1, mem.ram, r, b.size, b'.End());
    }

    /** Allocates afresh, copies and frees: the growing case of `krealloc`. */
    method KreallocMove(ptr: nat, newSize: Word, ghost b: Block) returns (r: nat, ghost b': Block)
      requires Valid() && b.size < newSize <= MAX_REQUEST && LiveAt(ptr, b) && Serves(Supply(), AlignUp4(newSize))
      modifies this, mem, pmm`freePages, pmm.bitmap
      ensures Valid()
      ensures Kept(old(mem.ram), mem.ram, old(Live(blocks)) - {b}, heapStart, heapEnd)
      ensures r == 0 <==> Short(old(Supply()), AlignUp4(newSize))
      ensures r == 0 ==> blocks == old(blocks)
      ensures r != 0 ==> Moved(old(blocks), blocks, b, b') && b'.Payload() == r && b'.size >= newSize
      ensures r != 0 ==>
                ptr + b.size <= |old(mem.ram)| && r + b.size <= |mem.ram|
                && mem.ram[r..r + b.size] == old(mem.ram)[ptr..ptr + b.size]
    {
      hide FirstFit, Take, Extend, AlignUp4, PagesFor, Tiles, Canonical, GaveRun, Serves, LowestAre;
      ghost var fit;
      ghost var m, live := mem.ram, Live(blocks);
      r, fit, b' := Kmalloc(newSize);
      if r != 0 {
        ghost var m1 := mem.ram;
        MoveTo(ptr, r, b, b');
        assert live + {b'} - {b} - {b'} == live - {b};
        assert m1[ptr..ptr + b.size] == m[ptr..ptr + b.size] by {
          assert SameBytes(m, m1, b.Payload(), b.End());
        }
        KeptTransitive(m, m1, mem.ram, live - {b}, heapStart, heapEnd);
      }
    }

    /** Resizes a block. The block `b` at `ptr` keeps its place when it is big enough;
        otherwise its contents move to a new block `b'`. */
    method Krealloc(ptr: nat, newSize: Word, ghost b: Block) returns (r: nat, ghost b': Block)
      requires Valid() && (ptr != 0 ==> LiveAt(ptr, b))
      requires newSize > 0 && (ptr == 0 || newSize > b.size) ==>
                 newSize <= MAX_REQUEST && Serves(Supply(), AlignUp4(newSize))
      modifies this, mem, pmm`freePages, pmm.bitmap
      ensures Valid()
      ensures ptr == 0 ==> Kept(old(mem.ram), mem.ram, old(Live(blocks)), heapStart, heapEnd)
      ensures ptr == 0 && r != 0 ==> Joined(old(blocks), blocks, b') && b'.Payload() == r && b'.size >= newSize
      ensures ptr != 0 ==> Kept(old(mem.ram), mem.ram, old(Live(blocks)) - {b}, heapStart, heapEnd)
      ensures ptr != 0 && newSize == 0 ==> r == 0 && Live(blocks) == old(Live(blocks)) - {b}
      ensures ptr != 0 && 0 < newSize <= b.size ==> r == ptr && blocks == old(blocks) && mem.ram == old(mem.ram)
      ensures r == 0 && (ptr == 0 || newSize > 0) ==> blocks == old(blocks)
      ensures newSize > 0 && (ptr == 0 || newSize > b.size) ==> (r == 0 <==> Short(old(Supply()), AlignUp4(newSize)))
      ensures ptr != 0 && newSize > b.size && r != 0 ==>
                Moved(old(blocks), blocks, b, b') && b'.Payload() == r && b'.size >= newSize
      ensures ptr != 0 && r != 0 ==>
                ptr + b.size <= |old(mem.ram)| && r + b.size <= |mem.ram|
                && mem.ram[r..r + b.size] == old(mem.ram)[ptr..ptr + b.size]
    {
      ghost var fit;
      b' := b;
      if ptr == 0 {
        r, fit, b' := Kmalloc(newSize);
        return;
      }
      if newSize == 0 {
        FreeLive(ptr, b);
        return 0, b;
      }
      var size := SizeOf(ptr, b);
      if size >= newSize {
        return ptr, b;
      }
      r, b' := KreallocMove(ptr, newSize, b);
    }

    /** `heap_get_free` and `heap_get_used`: the payload bytes in free, or in live, blocks. */
    method CountBytes(free: bool) returns (bytes: nat)
      requires Tiled()
      ensures bytes == PayloadBytes(blocks, free)
    {
      bytes := 0;
      var curr: nat := heapStart;
      ghost var n: nat := 0;
      BlockFacts(mem.ram, blocks, heapStart, heapEnd, 0);
      assert blocks[0..] == blocks;
      while curr != 0
        invariant n <= |blocks|
        invariant curr == if n < |blocks| then blocks[n].addr else 0
        invariant n < |blocks| ==> curr > 0
        invariant bytes + PayloadBytes(blocks[n..], free) == PayloadBytes(blocks, free)
        decreases |blocks| - n
      {
        BlockFacts(mem.ram, blocks, heapStart, heapEnd, n);
        assert blocks[n..][1..] == blocks[n + 1..];
        if Load32(mem.ram, curr) == MAGIC && (mem.ram[curr + 8] != 0) == free {
          bytes := bytes + Load32(mem.ram, curr + 4);
        }
        curr := Load32(mem.ram, curr + 9);
        n := n + 1;
        if n < |blocks| {
          BlockFacts(mem.ram, blocks, heapStart, heapEnd, n);
        }
      }
      assert blocks[n..] == [];
    }
  }

  /** Takes `count` pages, whatever they are; only the first allocation is checked. */
  method TakePages(pmm: Pmm, count: nat) returns (start: Word)
    requires pmm.Valid() && 0 !in pmm.Free() && count > 0
    modifies pmm`freePages, pmm.bitmap
    ensures pmm.Valid() && TookLowest(old(pmm.Free()), pmm.Free(), count)
    ensures start == 0 <==> old(pmm.Free()) == {}
    ensures start != 0 ==> start % PAGE_SIZE == 0 && IsLowest(start / PAGE_SIZE, old(pmm.Free()))
  {
    hide TookLowest;
    ghost var free := pmm.Free();
    NoneTaken(free);
    start := TakePage(pmm, free, 0);
    if start == 0 {
      TookMore(free, 1, count);
      return;
    }
    var i := 1;
    while i < count
      invariant 1 <= i <= count
      invariant pmm.Valid() && TookLowest(free, pmm.Free(), i)
    {
      var _ := TakePage(pmm, free, i);
      i := i + 1;
    }
  }

  /** The same where the lowest free pages are known to follow one another from `first` on,
      unless none is left. */
  method TakeRun(pmm: Pmm, count: nat, ghost first: nat) returns (start: Word)
    requires pmm.Valid() && 0 !in pmm.Free() && count > 0
    requires pmm.Free() == {} || LowestAre(pmm.Free(), first, count)
    modifies pmm`freePages, pmm.bitmap
    ensures pmm.Valid() && pmm.Free() <= old(pmm.Free())
    ensures old(pmm.Free()) == {} <==> start == 0
    ensures start != 0 ==>
              && start == first * PAGE_SIZE && first + count <= pmm.totalPages
              && GaveRun(old(pmm.Free()), pmm.Free(), first, count)
  {
    ghost var free := pmm.Free();
    FreeIsManaged(pmm);
    start := TakePages(pmm, count);
    if start != 0 {
      RunTaken(free, pmm.Free(), first, count, start / PAGE_SIZE, pmm.totalPages);
    }
  }

  /** One allocation more. */
  method TakePage(pmm: Pmm, ghost free: set<nat>, ghost taken: nat) returns (page: Word)
    requires pmm.Valid() && TookLowest(free, pmm.Free(), taken)
    modifies pmm`freePages, pmm.bitmap
    ensures pmm.Valid() && TookLowest(free, pmm.Free(), taken + 1)
    ensures old(pmm.Free()) == {} ==> page == 0 && pmm.Free() == {}
    ensures old(pmm.Free()) != {} ==> page % PAGE_SIZE == 0 && IsLowest(page / PAGE_SIZE, old(pmm.Free()))
  {
    hide TookLowest;
    ghost var before := pmm.Free();
    page := pmm.AllocPage();
    if before == {} {
      TookAll(free, taken);
    } else {
      TookNext(free, before, taken, page / PAGE_SIZE);
    }
  }

  lemma NoneTaken(free: set<nat>)
    ensures TookLowest(free, free, 0)
  {
    assert free - free == {};
  }

  lemma {:induction false} TookMore(free: set<nat>, count: nat, more: nat)
    requires TookLowest(free, {}, count) && count <= more
    ensures TookLowest(free, {}, more)
    decreases more
  {
    if count < more {
      TookMore(free, count, more - 1);
      TookAll(free, more - 1);
    }
  }

  /** Takes the initial pages, of which there are enough. */
  method AllocRun(pmm: Pmm, count: nat) returns (start: Word)
    requires pmm.Valid() && 0 < count <= |pmm.Free()|
    modifies pmm`freePages, pmm.bitmap
    ensures pmm.Valid() && TookLowest(old(pmm.Free()), pmm.Free(), count)
    ensures start % PAGE_SIZE == 0 && IsLowest(start / PAGE_SIZE, old(pmm.Free()))
  {
    hide TookLowest;
    ghost var free := pmm.Free();
    NoneTaken(free);
    start := 0;
    var i := 0;
    while i < count
      invariant 0 <= i <= count
      invariant pmm.Valid() && TookLowest(free, pmm.Free(), i)
      invariant i == 0 ==> pmm.Free() == free
      invariant i > 0 ==> start % PAGE_SIZE == 0 && IsLowest(start / PAGE_SIZE, free)
    {
      var p := TakePage(pmm, free, i);
      if i == 0 {
        start := p;
      }
      i := i + 1;
    }
  }

  lemma FlagCleared(m: seq<Byte>, m': seq<Byte>, b: Block, next: nat)
    requires HeaderAt(m, b, next) && m' == m[b.addr + 8 := 0]
    ensures HeaderAt(m', b.(free := false), next)
  {
    LoadFrame(m, m', b.addr);
    LoadFrame(m, m', b.addr + 4);
    LoadFrame(m, m', b.addr + 9);
  }

  /** Rewrites the link of the header of `b`. */
  method SetLink(mem: PhysMem, addr: nat, link: Word, ghost b: Block, ghost next: nat)
    requires addr == b.addr && HeaderAt(mem.ram, b, next)
    modifies mem
    ensures |mem.ram| == old(|mem.ram|)
    ensures HeaderAt(mem.ram, b, link)
    ensures SameBytes(old(mem.ram), mem.ram, 0, addr)
    ensures SameBytes(old(mem.ram), mem.ram, addr + HEADER, |mem.ram|)
  {
    ghost var m := mem.ram;
    mem.Write32(addr + 9, link);
    LoadFrame(m, mem.ram, addr);
    LoadFrame(m, mem.ram, addr + 4);
  }

  /** Rewrites size and link of the header of `b`. */
  method SetSizeAndLink(mem: PhysMem, addr: nat, size: Word, link: Word, ghost b: Block, ghost next: nat)
    requires addr == b.addr && HeaderAt(mem.ram, b, next)
    modifies mem
    ensures |mem.ram| == old(|mem.ram|)
    ensures HeaderAt(mem.ram, b.(size := size), link)
    ensures SameBytes(old(mem.ram), mem.ram, 0, addr)
    ensures SameBytes(old(mem.ram), mem.ram, addr + HEADER, |mem.ram|)
  {
    ghost var m := mem.ram;
    mem.Write32(addr + 4, size);
    ghost var m1 := mem.ram;
    mem.Write32(addr + 9, link);
    HeaderRewrite(m, m1, mem.ram, b, next, size, link);
  }

  /** Writes the four fields of a block header. */
  method WriteHeader(mem: PhysMem, addr: nat, size: Word, free: bool, next: Word)
    requires addr + HEADER <= |mem.ram|
    modifies mem
    ensures |mem.ram| == old(|mem.ram|)
    ensures HeaderAt(mem.ram, Block(addr, size, free), next)
    ensures SameBytes(old(mem.ram), mem.ram, 0, addr)
    ensures SameBytes(old(mem.ram), mem.ram, addr + HEADER, |mem.ram|)
  {
    ghost var m := mem.ram;
    mem.Write32(addr, MAGIC);
    ghost var m1 := mem.ram;
    mem.Write32(addr + 4, size);
    ghost var m2 := mem.ram;
    mem.Write8(addr + 8, if free then 1 else 0);
    mem.Write32(addr + 9, next);
    LoadFrame(m1, mem.ram, addr);
    LoadFrame(m2, mem.ram, addr + 4);
  }
}
