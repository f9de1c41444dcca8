/** The physical page allocator: a bitmap with one bit for each page, set when
    the page is taken. It refines a finite set of free pages. */
module PageAllocator {
  import opened Bits
  import opened Memory

  /** An entry of the firmware's memory map, in words as it stands in memory. */
  datatype MmapEntry = MmapEntry(addrLow: Word, addrHigh: Word, lenLow: Word, lenHigh: Word, kind: Word) {
    function Start(): nat { addrHigh * 0x1_0000_0000 + addrLow }
    function End(): nat { Start() + lenHigh * 0x1_0000_0000 + lenLow }
  }

  /** What the boot loader passes; `entries` is the memory map, in order. */
  datatype BootInfo =
    | NoInfo
    | Multiboot(flags: Word, memUpper: Word, entries: seq<MmapEntry>)

  predicate HasMap(mbi: BootInfo) {
    mbi.Multiboot? && Bit(mbi.flags, 6) && mbi.entries != []
  }

  function MaxAddr(entries: seq<MmapEntry>, k: nat): Word
    requires k <= |entries|
  {
    if k == 0 then 0x100_0000
    else
      var e := entries[k - 1];
      var end := (e.addrLow as int + e.lenLow as int) % 0x1_0000_0000;
      if e.kind == 1 && end > MaxAddr(entries, k - 1) then end else MaxAddr(entries, k - 1)
  }

  function MemoryEnd(mbi: BootInfo): Word {
    if HasMap(mbi) then MaxAddr(mbi.entries, |mbi.entries|)
    else if mbi.Multiboot? && Bit(mbi.flags, 0) then (mbi.memUpper as int + 1024) % 0x1_0000_0000 * 1024 % 0x1_0000_0000
    else 0x100_0000
  }

  function TotalPages(mbi: BootInfo): nat {
    MemoryEnd(mbi) / PAGE_SIZE
  }

  /** The highest of 16 MB and the ends of the available entries, which wrap on 32 bits. */
  ghost predicate HighestEnd(entries: seq<MmapEntry>, end: int) {
    && 0x100_0000 <= end
    && (forall i :: 0 <= i < |entries| && entries[i].kind == 1 ==> EndOnWords(entries[i]) <= end)
    && (end == 0x100_0000
        || exists i :: 0 <= i < |entries| && entries[i].kind == 1 && EndOnWords(entries[i]) == end)
  }

  function EndOnWords(e: MmapEntry): nat {
    (e.addrLow as int + e.lenLow as int) % 0x1_0000_0000
  }

  lemma {:induction false} MaxAddrIsHighest(entries: seq<MmapEntry>, k: nat)
    requires k <= |entries|
    ensures HighestEnd(entries[..k], MaxAddr(entries, k))
    decreases k
  {
    if k > 0 {
      MaxAddrIsHighest(entries, k - 1);
      var before, now := entries[..k - 1], entries[..k];
      assert now[k - 1] == entries[k - 1] && forall i :: 0 <= i < k - 1 ==> now[i] == before[i];
      if MaxAddr(entries, k) == MaxAddr(entries, k - 1) != 0x100_0000 {
        var i :| 0 <= i < k - 1 && before[i].kind == 1 && EndOnWords(before[i]) == MaxAddr(entries, k - 1);
        assert now[i].kind == 1 && EndOnWords(now[i]) == MaxAddr(entries, k);
      }
    }
  }

  /** Where memory ends: by the memory map if its flag, number 6, is set, else by the size of
      upper memory if flag 0 is, else at 16 MB. */
  lemma MemoryEndIs(mbi: BootInfo)
    ensures mbi.NoInfo? ==> MemoryEnd(mbi) == 0x100_0000
    ensures mbi.Multiboot? ==>
              if mbi.flags / 64 % 2 == 1 && mbi.entries != [] then HighestEnd(mbi.entries, MemoryEnd(mbi))
              else if mbi.flags % 2 == 1 then MemoryEnd(mbi) == (mbi.memUpper + 1024) * 1024 % 0x1_0000_0000
              else MemoryEnd(mbi) == 0x100_0000
  {
    hide Bit, MaxAddr, HighestEnd;
    if mbi.Multiboot? {
      FlagSix(mbi.flags);
      FlagZero(mbi.flags);
      MaxAddrIsHighest(mbi.entries, |mbi.entries|);
      assert mbi.entries[..|mbi.entries|] == mbi.entries;
      ScaledOnWords(mbi.memUpper + 1024);
    }
  }

  lemma ScaledOnWords(x: nat)
    ensures x % 0x1_0000_0000 * 1024 % 0x1_0000_0000 == x * 1024 % 0x1_0000_0000
  {
    var q, low, d := x / 0x1_0000_0000, x % 0x1_0000_0000 * 1024, 0x1_0000_0000;
    SameQuotient(d, 1024 * q + low / d, low % d, x * 1024 / d, x * 1024 % d);
  }

  lemma FlagZero(flags: nat)
    ensures Bit(flags, 0) <==> flags % 2 == 1
  {
  }

  lemma FlagSix(flags: nat)
    ensures Bit(flags, 6) <==> flags / 64 % 2 == 1
  {
    assert flags / 2 / 2 / 2 == flags / 8;
    assert flags / 8 / 2 / 2 / 2 == flags / 64;
    assert Bit(flags, 6) == Bit(flags / 8, 3) == Bit(flags / 64, 0);
  }

  /** The two passes over the boot information that find the end of memory. */
  method FindMemoryEnd(mbi: BootInfo) returns (maxAddr: Word)
    ensures maxAddr == MemoryEnd(mbi)
  {
    maxAddr := 0x100_0000;
    if HasMap(mbi) {
      var i := 0;
      while i < |mbi.entries|
        invariant 0 <= i <= |mbi.entries| && maxAddr == MaxAddr(mbi.entries, i)
      {
        if mbi.entries[i].kind == 1 {
          var end := (mbi.entries[i].addrLow as int + mbi.entries[i].lenLow as int) % 0x1_0000_0000;
          if end > maxAddr {
            maxAddr := end;
          }
        }
        i := i + 1;
      }
    } else if mbi.Multiboot? && Bit(mbi.flags, 0) {
      maxAddr := (mbi.memUpper as int + 1024) % 0x1_0000_0000 * 1024 % 0x1_0000_0000;
    }
  }

  /** Pages that the boot loop frees for an entry; it never looks at the high words. */
  predicate Covers(e: MmapEntry, p: nat) {
    e.kind == 1 && e.addrLow / 4096 <= p < e.addrLow / 4096 + e.lenLow / 4096
  }

  /** Pages that lie in the memory an entry reports as usable. */
  predicate Reported(e: MmapEntry, p: nat) {
    e.kind == 1 && e.Start() <= 4096 * p && 4096 * p + 4096 <= e.End()
  }

  /** Number of pages that 32 bits address. */
  const ALL_PAGES: nat := 0x10_0000

  /** Whether some whole page below 4 GB lies in the entry. */
  predicate HoldsPage(e: MmapEntry) {
    var first := (e.Start() + 4095) / 4096;
    first < ALL_PAGES && 4096 * first + 4096 <= e.End()
  }

  /** An entry that is not usable, has no page for either side, or starts on a page boundary
      below 4 GB with a length that fits its low word or reaches 4 GB by the low word alone. */
  predicate ReadRight(e: MmapEntry) {
    || e.kind != 1
    || (e.lenLow < 4096 && !HoldsPage(e))
    || (e.addrHigh == 0 && e.addrLow % 4096 == 0 && (e.lenHigh == 0 || e.addrLow + e.lenLow >= 0x1_0000_0000))
  }

  /** The loop frees exactly the reported pages of an entry if and only if it is read right. */
  lemma CoversIsReported(e: MmapEntry)
    ensures (forall p :: 0 <= p < ALL_PAGES ==> (Covers(e, p) <==> Reported(e, p))) <==> ReadRight(e)
  {
    if ReadRight(e) {
      ReadRightCovers(e);
    } else {
      var p := ReadWrong(e);
      assert Covers(e, p) != Reported(e, p);
    }
  }

  lemma ReadRightCovers(e: MmapEntry)
    requires ReadRight(e)
    ensures forall p :: 0 <= p < ALL_PAGES ==> (Covers(e, p) <==> Reported(e, p))
  {
    forall p | 0 <= p < ALL_PAGES
      ensures Covers(e, p) <==> Reported(e, p)
    {
    }
  }

  /** A page that the loop and the entry disagree about. */
  lemma ReadWrong(e: MmapEntry) returns (p: nat)
    requires !ReadRight(e)
    ensures p < ALL_PAGES && Covers(e, p) != Reported(e, p)
  {
    var c := e.addrLow / 4096;
    var r := (e.Start() + 4095) / 4096;
    if e.lenLow >= 4096 && !Reported(e, c) {
      p := c;
    } else if e.lenLow < 4096 {
      p := r;
    } else {
      p := c + e.lenLow / 4096;
    }
  }

  /** Pages the boot code takes for usable. */
  ghost predicate Available(mbi: BootInfo, p: nat) {
    if HasMap(mbi) then exists i :: 0 <= i < |mbi.entries| && Covers(mbi.entries[i], p) else p >= 256
  }

  ghost predicate ReportedBy(entries: seq<MmapEntry>, p: nat) {
    exists i :: 0 <= i < |entries| && Reported(entries[i], p)
  }

  ghost predicate AllReadRight(entries: seq<MmapEntry>) {
    forall i :: 0 <= i < |entries| ==> ReadRight(entries[i])
  }

  /** Over a map of entries that are read right the usable pages are the reported ones. */
  lemma AvailableIsReported(mbi: BootInfo)
    requires HasMap(mbi) && AllReadRight(mbi.entries)
    ensures forall p :: 0 <= p < ALL_PAGES ==> (Available(mbi, p) <==> ReportedBy(mbi.entries, p))
  {
    hide Covers, Reported, ReadRight;
    forall i | 0 <= i < |mbi.entries|
      ensures forall p :: 0 <= p < ALL_PAGES ==> (Covers(mbi.entries[i], p) <==> Reported(mbi.entries[i], p))
    {
      ReadRightCovers(mbi.entries[i]);
    }
    forall p | 0 <= p < ALL_PAGES
      ensures Available(mbi, p) <==> ReportedBy(mbi.entries, p)
    {
      assert forall i :: 0 <= i < |mbi.entries| ==> (Covers(mbi.entries[i], p) <==> Reported(mbi.entries[i], p));
    }
  }

  /** Memory above 4 GB is taken for memory far below: the entry for the megabyte at 4 GB
      frees page 0xA0. An entry from the middle of page 1 frees all of that page. */
  lemma ReadWrongExamples()
    ensures var high := MmapEntry(0, 1, 0x10_0000, 0, 1); Covers(high, 0xA0) && !Reported(high, 0xA0)
    ensures var middle := MmapEntry(0x1800, 0, 0x1000, 0, 1); Covers(middle, 1) && !Reported(middle, 1)
  {
  }

  lemma {:induction false} MaxAddrBounds(entries: seq<MmapEntry>, k: nat, i: nat)
    requires i < k <= |entries| && entries[i].kind == 1 && entries[i].End() < 0x1_0000_0000
    ensures entries[i].End() <= MaxAddr(entries, k)
    decreases k
  {
    if i < k - 1 {
      MaxAddrBounds(entries, k - 1, i);
    }
  }

  /** Where no entry reaches past 4 GB, the allocator manages every reported page if and only
      if none reports the last page below 4 GB, whose end is 0 on 32 bits. */
  lemma LastPageIsLost(mbi: BootInfo)
    requires HasMap(mbi)
    requires forall i :: 0 <= i < |mbi.entries| && mbi.entries[i].kind == 1 ==> mbi.entries[i].End() <= 0x1_0000_0000
    ensures (forall p: nat :: ReportedBy(mbi.entries, p) ==> p < TotalPages(mbi))
            <==> !ReportedBy(mbi.entries, ALL_PAGES - 1)
  {
    if !ReportedBy(mbi.entries, ALL_PAGES - 1) {
      forall p: nat | ReportedBy(mbi.entries, p)
        ensures p < TotalPages(mbi)
      {
        var i :| 0 <= i < |mbi.entries| && Reported(mbi.entries[i], p);
        if mbi.entries[i].End() < 0x1_0000_0000 {
          MaxAddrBounds(mbi.entries, |mbi.entries|, i);
        } else {
          assert Reported(mbi.entries[i], ALL_PAGES - 1);
        }
      }
    }
  }

  /** Without a memory map the usable pages are those of the memory from 1 MB on. */
  lemma AvailableWithoutMap(mbi: BootInfo, p: nat)
    requires !HasMap(mbi)
    ensures Available(mbi, p) <==> 4096 * p >= 0x10_0000
  {
  }

  function BitmapAddr(kernelEnd: Word): nat {
    (kernelEnd as int + 4095) - (kernelEnd as int + 4095) % 4096
  }

  function BitmapEndPage(mbi: BootInfo, kernelEnd: Word): nat {
    (BitmapAddr(kernelEnd) + (TotalPages(mbi) + 31) / 32 * 4) / 4096
  }

  /** Pages taken at boot: page 0, the kernel image and the bitmap itself. */
  predicate Reserved(mbi: BootInfo, kernelStart: Word, kernelEnd: Word, p: nat) {
    || p == 0
    || kernelStart / 4096 <= p <= kernelEnd / 4096
    || BitmapAddr(kernelEnd) / 4096 <= p <= BitmapEndPage(mbi, kernelEnd)
  }

  /** Some byte from `from` to `to`, both included, lies in page `p`, or the two are on it in
      the wrong order. */
  predicate Meets(p: nat, from: nat, to: nat) {
    from < 4096 * p + 4096 && 4096 * p <= to
  }

  /** The pages taken at boot hold address 0, a byte of the kernel image, or a byte of the
      bitmap of `words` words, or the byte behind it; the bitmap starts on the first page
      boundary that is not before the end of the kernel. */
  lemma ReservedIs(mbi: BootInfo, kernelStart: Word, kernelEnd: Word, at: nat, words: nat, p: nat)
    requires at % 4096 == 0 && kernelEnd <= at < kernelEnd + 4096 && words == (TotalPages(mbi) + 31) / 32
    ensures Reserved(mbi, kernelStart, kernelEnd, p)
            <==> p == 0 || Meets(p, kernelStart, kernelEnd) || Meets(p, at, at + 4 * words)
  {
    assert BitmapAddr(kernelEnd) == at;
  }

  ghost predicate LiesInFree(free: set<nat>, a: nat) {
    a / 4096 in free
  }

  lemma FreeAfterBoot(free: set<nat>, mbi: BootInfo, kernelStart: Word, kernelEnd: Word, words: nat)
    requires words == (TotalPages(mbi) + 31) / 32
    requires forall p :: p in free <==>
               0 <= p < TotalPages(mbi) && Available(mbi, p) && !Reserved(mbi, kernelStart, kernelEnd, p)
    ensures var at := (kernelEnd + 4095) / 4096 * 4096;
            && (forall p :: p in free <==>
                  && 0 < p < TotalPages(mbi) && Available(mbi, p)
                  && !Meets(p, kernelStart, kernelEnd) && !Meets(p, at, at + 4 * words))
            && (forall a :: kernelStart <= a <= kernelEnd ==> !LiesInFree(free, a))
            && (forall a :: at <= a < at + 4 * words ==> !LiesInFree(free, a))
  {
    hide Available, Reserved;
    var at := (kernelEnd + 4095) / 4096 * 4096;
    forall p: nat
      ensures p in free <==>
              && 0 < p < TotalPages(mbi) && Available(mbi, p)
              && !Meets(p, kernelStart, kernelEnd) && !Meets(p, at, at + 4 * words)
    {
      ReservedIs(mbi, kernelStart, kernelEnd, at, words, p);
    }
    forall a | kernelStart <= a <= kernelEnd
      ensures !LiesInFree(free, a)
    {
      assert Meets(a / 4096, kernelStart, kernelEnd);
    }
    forall a | at <= a < at + 4 * words
      ensures !LiesInFree(free, a)
    {
      assert Meets(a / 4096, at, at + 4 * words);
    }
  }

  ghost predicate IsLowest(p: nat, s: set<nat>) {
    p in s && forall q :: q in s ==> p <= q
  }

  class Pmm {
    var bitmap: array<Word>
    var totalPages: nat
    var freePages: nat

    /** Whether the bit of page `p` is set. */
    ghost predicate Taken(p: nat)
      requires p < 32 * bitmap.Length
      reads this`bitmap, bitmap
    {
      Bit(bitmap[p / 32], p % 32)
    }

    ghost function Free(): set<nat>
      requires totalPages <= 32 * bitmap.Length
      reads this`bitmap, this`totalPages, bitmap
    {
      set p: nat | 0 <= p < totalPages && !Taken(p)
    }

    /** The counter is exact and no bit past the last page is clear. */
    ghost predicate Valid()
      reads this, bitmap
    {
      && totalPages < 0x10_0000
      && bitmap.Length == (totalPages + 31) / 32
      && freePages == |Free()|
      && (forall p :: totalPages <= p < 32 * bitmap.Length ==> Taken(p))
    }

    method SetBit(page: nat)
      requires page < 32 * bitmap.Length
      modifies bitmap
      ensures forall q :: 0 <= q < 32 * bitmap.Length ==> Taken(q) == (q == page || old(Taken(q)))
    {
      ghost var w := bitmap[page / 32];
      PowBelow(page % 32);
      OrBound(w, Pow2(page % 32), 32);
      bitmap[page / 32] := Or(bitmap[page / 32], Pow2(page % 32));
      forall q | 0 <= q < 32 * bitmap.Length ensures Taken(q) == (q == page || old(Taken(q))) {
        BitOr(w, Pow2(page % 32), q % 32);
        BitPow2(page % 32, q % 32);
      }
    }

    method ClearBit(page: nat)
      requires page < 32 * bitmap.Length
      modifies bitmap
      ensures forall q :: 0 <= q < 32 * bitmap.Length ==> Taken(q) == (q != page && old(Taken(q)))
    {
      ghost var w := bitmap[page / 32];
      PowBelow(page % 32);
      AndBound(w, Not32(Pow2(page % 32)));
      bitmap[page / 32] := And(bitmap[page / 32], Not32(Pow2(page % 32)));
      forall q | 0 <= q < 32 * bitmap.Length ensures Taken(q) == (q != page && old(Taken(q))) {
        BitAnd(w, Not32(Pow2(page % 32)), q % 32);
        BitComplement(Pow2(page % 32), 32, q % 32);
        BitPow2(page % 32, q % 32);
      }
    }

    method TestBit(page: nat) returns (taken: bool)
      requires page < 32 * bitmap.Length
      ensures taken == Taken(page)
    {
      BitShr(bitmap[page / 32], page % 32);
      taken := And(Shr(bitmap[page / 32], page % 32), 1) != 0;
    }

    /** Marks a page free unless it already is. */
    method Release(page: nat)
      requires Valid() && page < totalPages
      modifies this`freePages, bitmap
      ensures Valid()
      ensures Free() == old(Free()) + {page}
    {
      hide Bit;
      var taken := TestBit(page);
      if taken {
        ClearBit(page);
        assert Free() == old(Free()) + {page};
        freePages := freePages + 1;
      } else {
        assert page in Free();
      }
    }

    /** Marks a page taken unless it already is. */
    method Reserve(page: nat)
      requires Valid() && page < totalPages
      modifies this`freePages, bitmap
      ensures Valid()
      ensures Free() == old(Free()) - {page}
    {
      hide Bit;
      var taken := TestBit(page);
      if !taken {
        assert page in Free();
        SetBit(page);
        assert Free() == old(Free()) - {page};
        if freePages > 0 {
          freePages := freePages - 1;
        }
      } else {
        assert page !in Free();
      }
    }

    /** Builds the bitmap over a memory map whose entries may overlap. The kernel
        image and the bitmap must lie inside the managed memory. */
    constructor (mbi: BootInfo, kernelStart: Word, kernelEnd: Word)
      requires BitmapEndPage(mbi, kernelEnd) < TotalPages(mbi)
      ensures Valid() && fresh(bitmap)
      ensures totalPages == MemoryEnd(mbi) / 4096
      ensures Free() == set p: nat | 0 <= p < totalPages && Available(mbi, p)
                                     && !Reserved(mbi, kernelStart, kernelEnd, p)
      ensures var at := (kernelEnd + 4095) / 4096 * 4096;
              && (forall p :: p in Free() <==>
                    && 0 < p < totalPages && Available(mbi, p)
                    && !Meets(p, kernelStart, kernelEnd) && !Meets(p, at, at + 4 * bitmap.Length))
              && (forall a :: kernelStart <= a <= kernelEnd ==> !LiesInFree(Free(), a))
              && (forall a :: at <= a < at + 4 * bitmap.Length ==> !LiesInFree(Free(), a))
      ensures HasMap(mbi) && AllReadRight(mbi.entries) ==>
                Free() == set p: nat | 0 <= p < totalPages && ReportedBy(mbi.entries, p)
                                       && !Reserved(mbi, kernelStart, kernelEnd, p)
      ensures !HasMap(mbi) ==>
                Free() == set p: nat | 0 <= p < totalPages && 4096 * p >= 0x10_0000
                                       && !Reserved(mbi, kernelStart, kernelEnd, p)
    {
      var end := FindMemoryEnd(mbi);
      var total := end / PAGE_SIZE;
      totalPages := total;
      freePages := 0;
      bitmap := new Word[(total + 31) / 32](_ => 0xFFFF_FFFF);
      new;
      BitmapBeyondKernel(mbi, kernelEnd);
      AllTaken();
      ReleaseAvailable(mbi);
      ReserveBoot(mbi, kernelStart, kernelEnd);
      hide Free, Reserved, Available, Meets, LiesInFree;
      FreeAfterBoot(Free(), mbi, kernelStart, kernelEnd, bitmap.Length);
      if HasMap(mbi) && AllReadRight(mbi.entries) {
        AvailableIsReported(mbi);
      }
      if !HasMap(mbi) {
        forall p: nat
          ensures Available(mbi, p) <==> 4096 * p >= 0x10_0000
        {
          AvailableWithoutMap(mbi, p);
        }
      }
    }

    method ReserveBoot(mbi: BootInfo, kernelStart: Word, kernelEnd: Word)
      requires Valid() && BitmapEndPage(mbi, kernelEnd) < totalPages
      modifies this`freePages, bitmap
      ensures Valid()
      ensures forall p :: p in Free() <==> p in old(Free()) && !Reserved(mbi, kernelStart, kernelEnd, p)
    {
      BitmapBeyondKernel(mbi, kernelEnd);
      Reserve(0);
      ReserveRange(kernelStart / PAGE_SIZE, kernelEnd / PAGE_SIZE);
      ReserveRange(BitmapAddr(kernelEnd) / PAGE_SIZE, BitmapEndPage(mbi, kernelEnd));
    }

    lemma AllTaken()
      requires totalPages <= 32 * bitmap.Length
      requires forall i :: 0 <= i < bitmap.Length ==> bitmap[i] == 0xFFFF_FFFF
      ensures forall p :: 0 <= p < 32 * bitmap.Length ==> Taken(p)
      ensures Free() == {}
    {
      forall p | 0 <= p < 32 * bitmap.Length ensures Taken(p) {
        AllOnesWord(p % 32);
      }
    }

    /** Unmarks what the memory map offers, or everything above 1 MB without one. */
    method ReleaseAvailable(mbi: BootInfo)
      requires Valid() && Free() == {}
      modifies this`freePages, bitmap
      ensures Valid()
      ensures Free() == set p: nat | 0 <= p < totalPages && Available(mbi, p)
    {
      if HasMap(mbi) {
        var i := 0;
        while i < |mbi.entries|
          invariant 0 <= i <= |mbi.entries|
          invariant Valid()
          invariant forall p :: p in Free() <==> 0 <= p < totalPages && CoveredBefore(mbi.entries, i, p)
        {
          if mbi.entries[i].kind == 1 {
            ReleaseRange(mbi.entries[i].addrLow / PAGE_SIZE, mbi.entries[i].lenLow / PAGE_SIZE);
          }
          i := i + 1;
          CoveredStep(mbi.entries, i);
        }
      } else {
        if 256 < totalPages {
          ReleaseRange(256, totalPages - 256);
        }
      }
    }

    /** Marks the managed pages among `count` pages from `start` as free. */
    method ReleaseRange(start: nat, count: nat)
      requires Valid()
      modifies this`freePages, bitmap
      ensures Valid()
      ensures forall p :: p in Free() <==> p in old(Free()) || (start <= p < start + count && p < totalPages)
    {
      var p := 0;
      while p < count
        invariant 0 <= p <= count
        invariant Valid()
        invariant forall q :: q in Free() <==> q in old(Free()) || (start <= q < start + p && q < totalPages)
      {
        var page := start + p;
        if page < totalPages {
          Release(page);
        }
        p := p + 1;
      }
    }

    /** Marks the pages from `first` to `last`, both included, as taken. */
    method ReserveRange(first: nat, last: nat)
      requires Valid() && last < totalPages
      modifies this`freePages, bitmap
      ensures Valid()
      ensures forall p :: p in Free() <==> p in old(Free()) && !(first <= p <= last)
    {
      hide Free, Taken;
      var p := first;
      while p <= last
        invariant first <= p && (p <= last + 1 || p == first)
        invariant Valid()
        invariant forall q :: q in Free() <==> q in old(Free()) && !(first <= q < p)
      {
        Reserve(p);
        p := p + 1;
      }
    }

    /** Scans the bitmap a word at a time, skipping full words, for a clear bit. */
    method FirstClear() returns (page: nat)
      requires Valid()
      ensures Free() == {} ==> page == 32 * bitmap.Length
      ensures Free() != {} ==> IsLowest(page, Free())
    {
      var i := 0;
      while i < bitmap.Length
        invariant 0 <= i <= bitmap.Length
        invariant forall q :: 0 <= q < 32 * i ==> Taken(q)
      {
        if bitmap[i] != 0xFFFF_FFFF {
          var j := LowestZero(bitmap[i]);
          ClearBitIsFree(i, j);
          return i * 32 + j;
        }
        forall q | 32 * i <= q < 32 * i + 32 ensures Taken(q) {
          AllOnesWord(q % 32);
        }
        i := i + 1;
      }
      assert Free() == {};
      return 32 * bitmap.Length;
    }

    /** Hands out the lowest free page, or address 0 when there is none. */
    method AllocPage() returns (addr: Word)
      requires Valid()
      modifies this`freePages, bitmap
      ensures Valid()
      ensures old(Free()) == {} ==> addr == 0 && Free() == {}
      ensures old(Free()) != {} ==>
                && addr % PAGE_SIZE == 0 && IsLowest(addr / PAGE_SIZE, old(Free()))
                && Free() == old(Free()) - {addr / PAGE_SIZE}
    {
      hide Free, Taken, Bit;
      FreeIsManaged(this);
      var page := FirstClear();
      if page >= totalPages {
        return 0;
      }
      Reserve(page);
      return page * PAGE_SIZE;
    }

    lemma ClearBitIsFree(i: nat, j: nat)
      requires Valid() && i < bitmap.Length && j < 32
      requires forall q :: 0 <= q < 32 * i ==> Taken(q)
      requires forall n :: 0 <= n < j ==> Bit(bitmap[i], n)
      requires !Bit(bitmap[i], j)
      ensures IsLowest(32 * i + j, Free())
    {
      forall q | 32 * i <= q < 32 * i + j ensures Taken(q) {
        assert q / 32 == i && Bit(bitmap[i], q % 32);
      }
      assert (32 * i + j) / 32 == i && (32 * i + j) % 32 == j;
      assert !Taken(32 * i + j);
    }

    /** Gives a page back; an address past the end and a free page are ignored. */
    method FreePage(addr: Word)
      requires Valid()
      modifies this`freePages, bitmap
      ensures Valid()
      ensures Free() == if addr / PAGE_SIZE < totalPages then old(Free()) + {addr / PAGE_SIZE} else old(Free())
    {
      var page := addr / PAGE_SIZE;
      if page < totalPages {
        Release(page);
      }
    }
  }

  lemma FreeIsManaged(pmm: Pmm)
    requires pmm.Valid()
    ensures pmm.totalPages <= 32 * pmm.bitmap.Length
    ensures forall p :: p in pmm.Free() ==> p < pmm.totalPages
  {
  }

  ghost predicate CoveredBefore(entries: seq<MmapEntry>, k: nat, p: nat)
    requires k <= |entries|
  {
    exists i :: 0 <= i < k && Covers(entries[i], p)
  }

  lemma CoveredStep(entries: seq<MmapEntry>, k: nat)
    requires 0 < k <= |entries|
    ensures forall p :: CoveredBefore(entries, k, p) <==> CoveredBefore(entries, k - 1, p) || Covers(entries[k - 1], p)
  {
    forall p | CoveredBefore(entries, k - 1, p) ensures CoveredBefore(entries, k, p) {
      var i :| 0 <= i < k - 1 && Covers(entries[i], p);
      assert 0 <= i < k && Covers(entries[i], p);
    }
  }

  lemma FullWord(w: Word)
    requires forall n :: 0 <= n < 32 ==> Bit(w, n)
    ensures w == 0xFFFF_FFFF
  {
    PowBelow(0);
    if w != 0xFFFF_FFFF {
      var n := SomeZero(w, 32);
    }
  }

  lemma AllOnesWord(n: nat)
    requires n < 32
    ensures Bit(0xFFFF_FFFF, n)
  {
    PowBelow(0);
    AllOnes(32, n);
  }

  lemma BitmapBeyondKernel(mbi: BootInfo, kernelEnd: Word)
    ensures kernelEnd / 4096 <= BitmapAddr(kernelEnd) / 4096 <= BitmapEndPage(mbi, kernelEnd)
    ensures TotalPages(mbi) < 0x10_0000
  {
  }

  /** The position of the lowest zero bit of a word that is not full. */
  method LowestZero(w: Word) returns (j: nat)
    requires w != 0xFFFF_FFFF
    ensures j < 32 && !Bit(w, j)
    ensures forall n :: 0 <= n < j ==> Bit(w, n)
  {
    j := 0;
    while And(w, Pow2(j)) != 0
      invariant 0 <= j < 32
      invariant forall n :: 0 <= n < j ==> Bit(w, n)
      decreases 32 - j
    {
      AndPow2(w, j);
      if j == 31 {
        FullWord(w);
        assert false;
      }
      j := j + 1;
    }
    AndPow2(w, j);
  }

  lemma PowBelow(n: nat)
    requires n < 32
    ensures Pow2(n) < 0x1_0000_0000 && Pow2(32) == 0x1_0000_0000
  {
    Powers();
    Pow2Mono(n, 31);
    assert Pow2(32) == 2 * Pow2(31);
  }
}
