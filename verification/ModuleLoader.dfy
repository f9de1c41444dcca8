/** Loading and unloading kernel modules on the kernel heap: copy the sections, link
    them in place, register the module; undo all of it on failure or unload. */
module ModuleLoader {
  import opened Bits
  import opened Memory
  import opened HeapSpec
  import opened KernelHeap
  import opened PageAllocator
  import opened PmmRuns
  import opened ModuleLinker
  import opened Options

  /** Reads the `w`-byte field at `a`, as the relocation types do. */
  method ReadField(mem: PhysMem, a: nat, w: nat) returns (v: nat)
    requires w in {0, 1, 2, 4} && a + w <= |mem.ram|
    ensures v == Field(mem.ram, a, w)
  {
    if w == 4 {
      v := Load32(mem.ram, a);
    } else if w == 2 {
      v := Load16(mem.ram, a);
    } else if w == 1 {
      v := mem.ram[a];
      assert mem.ram[a..a + 1] == [mem.ram[a]];
      assert FromBytes([mem.ram[a]]) == mem.ram[a];
    } else {
      v := 0;
    }
  }

  /** Writes the `w`-byte field at `a`. */
  method WriteField(mem: PhysMem, a: nat, w: nat, v: nat)
    requires w in {0, 1, 2, 4} && a + w <= |mem.ram| && v < Radix(w)
    modifies mem
    ensures mem.ram == Patch(old(mem.ram), a, w, v)
  {
    ghost var m := mem.ram;
    BytesRoundTrip(v, w);
    ghost var i := 0;
    if w == 4 {
      assert Radix(4) == 0x1_0000_0000;
      mem.Write32(a, v);
      BytesInjective(mem.ram[a..a + 4], ToBytes(v, 4));
      SplicedIs(m, mem.ram, a, 4, v);
    } else if w == 2 {
      assert Radix(2) == 0x1_0000;
      mem.Write8(a, v % 0x100);
      mem.Write8(a + 1, v / 0x100);
      assert ToBytes(v, 2) == [v % 0x100] + ToBytes(v / 0x100, 1);
      assert ToBytes(v / 0x100, 1) == [v / 0x100];
      SplicedIs(m, mem.ram, a, 2, v);
    } else if w == 1 {
      assert Radix(1) == 0x100;
      mem.Write8(a, v);
      assert ToBytes(v, 1) == [v];
      SplicedIs(m, mem.ram, a, 1, v);
    } else {
      assert Patch(m, a, 0, v) == m;
    }
  }

  lemma SplicedIs(m: seq<Byte>, m': seq<Byte>, a: nat, w: nat, v: nat)
    requires a + w <= |m| == |m'| && m'[a..a + w] == ToBytes(v, w)
    requires SameBytes(m, m', 0, a) && SameBytes(m, m', a + w, |m|)
    ensures m' == Patch(m, a, w, v)
  {
    assert m'[..a] == m[..a] && m'[a + w..] == m[a + w..];
    assert m' == m'[..a] + m'[a..a + w] + m'[a + w..];
  }

  /** A field of the block is the field of memory at the block's address. */
  lemma BlockField(m: seq<Byte>, base: nat, len: nat, site: nat, w: nat)
    requires base + len <= |m| && site + w <= len
    ensures Field(m[base..base + len], site, w) == Field(m, base + site, w)
  {
    var block := m[base..base + len];
    var x, y := block[site..site + w], m[base + site..base + site + w];
    forall i | 0 <= i < w ensures x[i] == y[i] {
      assert block[site + i] == m[base + site + i];
    }
    assert x == y;
  }

  lemma BlockPatch(m: seq<Byte>, base: nat, len: nat, site: nat, w: nat, v: nat)
    requires base + len <= |m| && site + w <= len
    ensures var r := Patch(m, base + site, w, v);
            && r[base..base + len] == Patch(m[base..base + len], site, w, v)
            && SameBytes(m, r, 0, base) && SameBytes(m, r, base + len, |m|)
  {
    var r := Patch(m, base + site, w, v);
    var block := m[base..base + len];
    assert r == m[..base + site] + ToBytes(v, w) + m[base + site + w..];
    assert r[base..base + len] == m[base..base + site] + ToBytes(v, w) + m[base + site + w..base + len];
    assert block[..site] == m[base..base + site] && block[site + w..] == m[base + site + w..base + len];
  }

  // Relocation in place

  /** Relocations act on allocated sections only. */
  predicate TargetsOk(secs: Image) {
    forall i :: 0 <= i < |secs| && secs[i].kind == SHT_REL && secs[i].info < |secs| ==> secs[secs[i].info].Alloc()
  }

  /** `addrs` are the section addresses of a module at `base`. */
  predicate AddrsAt(secs: Image, base: Word, addrs: seq<Word>) {
    |addrs| == |secs| && forall i :: 0 <= i < |secs| ==> addrs[i] == SectionAddr(secs, base, i)
  }

  /** The relocations done before entry `r` of section `i`. */
  function Done(secs: Image, nsyms: nat, i: nat, r: nat): seq<Fixup>
    requires i < |secs| && secs[i].kind == SHT_REL && secs[i].info < |secs| && r <= |secs[i].rels|
  {
    Fixups(secs, nsyms, i) + RelFixups(secs, secs[i].info, secs[i].rels, nsyms, r)
  }

  lemma DoneIsPrefix(secs: Image, nsyms: nat, i: nat, r: nat)
    requires i < |secs| && secs[i].kind == SHT_REL && secs[i].info < |secs| && r <= |secs[i].rels|
    ensures Done(secs, nsyms, i, r) <= Fixups(secs, nsyms, i + 1) <= Fixups(secs, nsyms, |secs|)
  {
    RelFixupsPrefix(secs, secs[i].info, secs[i].rels, nsyms, r, |secs[i].rels|);
    FixupsPrefix(secs, nsyms, i + 1, |secs|);
  }

  lemma PrefixOk(fs: seq<Fixup>, gs: seq<Fixup>, len: nat, nsyms: nat)
    requires fs <= gs && FixupsOk(gs, len, nsyms)
    ensures FixupsOk(fs, len, nsyms)
  {
    forall k | 0 <= k < |fs| ensures FixupOk(fs[k], len, nsyms) {
      assert fs[k] == gs[k];
    }
  }

  lemma {:induction false} ApplyPrefix(bytes: seq<Byte>, base: Word, values: seq<Word>, fs: seq<Fixup>,
                                       gs: seq<Fixup>, n: nat)
    requires fs <= gs && n <= |fs| && FixupsOk(gs, |bytes|, |values|)
    ensures FixupsOk(fs, |bytes|, |values|)
    ensures ApplyFirst(bytes, base, values, fs, n) == ApplyFirst(bytes, base, values, gs, n)
    decreases n
  {
    hide FixupOk, Apply;
    PrefixOk(fs, gs, |bytes|, |values|);
    if n > 0 {
      ApplyPrefix(bytes, base, values, fs, gs, n - 1);
    }
  }

  /** Applies a whole list. */
  function ApplyAll(bytes: seq<Byte>, base: Word, values: seq<Word>, fs: seq<Fixup>): (r: seq<Byte>)
    requires FixupsOk(fs, |bytes|, |values|)
    ensures |r| == |bytes|
  {
    ApplyFirst(bytes, base, values, fs, |fs|)
  }

  lemma ApplyAppend(bytes: seq<Byte>, base: Word, values: seq<Word>, fs: seq<Fixup>, f: Fixup)
    requires FixupsOk(fs + [f], |bytes|, |values|)
    ensures FixupsOk(fs, |bytes|, |values|) && FixupOk(f, |bytes|, |values|)
    ensures ApplyAll(bytes, base, values, fs + [f]) == Apply(ApplyAll(bytes, base, values, fs), base, values, f)
  {
    ApplyPrefix(bytes, base, values, fs, fs + [f], |fs|);
    assert FixupOk((fs + [f])[|fs|], |bytes|, |values|);
  }

  /** Adds a symbol to the word, half word or byte at `p`; other types change nothing. */
  method RelocateField(mem: PhysMem, p: nat, kind: Word, s: Word, ghost base: Word, ghost len: nat,
                       ghost values: seq<Word>, ghost f: Fixup)
    requires FixupOk(f, len, |values|) && f.kind == kind && values[f.sym] == s && p == base + f.site
    requires base + len <= |mem.ram|
    modifies mem
    ensures |mem.ram| == old(|mem.ram|)
    ensures mem.ram[base..base + len] == Apply(old(mem.ram)[base..base + len], base, values, f)
    ensures SameBytes(old(mem.ram), mem.ram, 0, base) && SameBytes(old(mem.ram), mem.ram, base + len, |mem.ram|)
  {
    hide FromBytes, ToBytes, Radix, Field;
    var w := Width(kind);
    var v := ReadField(mem, p, w);
    var sum := (v + if kind == R_386_PC32 then s as int - p else s) % Radix(w);
    BlockField(mem.ram, base, len, f.site, w);
    BlockPatch(mem.ram, base, len, f.site, w, sum);
    WriteField(mem, p, w, sum);
  }

  /** The relocation loops. */
  method Relocate(mem: PhysMem, secs: Image, base: Word, addrs: seq<Word>, values: seq<Word>, ghost bytes: seq<Byte>)
    requires AddrsAt(secs, base, addrs) && TargetsOk(secs)
    requires base + |bytes| <= |mem.ram| && base + |bytes| < 0x1_0000_0000 && CalcSize(secs) == |bytes|
    requires mem.ram[base..base + |bytes|] == bytes
    requires FixupsOk(Fixups(secs, |values|, |secs|), |bytes|, |values|)
    modifies mem
    ensures |mem.ram| == old(|mem.ram|)
    ensures mem.ram[base..base + |bytes|] == ApplyAll(bytes, base, values, Fixups(secs, |values|, |secs|))
    ensures SameBytes(old(mem.ram), mem.ram, 0, base) && SameBytes(old(mem.ram), mem.ram, base + |bytes|, |mem.ram|)
  {
    hide FixupsOk, Fixups, ApplyAll;
    ghost var all, n := Fixups(secs, |values|, |secs|), |values|;
    var i := 0;
    NoFixups(secs, bytes, base, values);
    while i < |secs|
      invariant 0 <= i <= |secs| && |mem.ram| == old(|mem.ram|)
      invariant FixupsOk(Fixups(secs, n, i), |bytes|, n)
      invariant mem.ram[base..base + |bytes|] == ApplyAll(bytes, base, values, Fixups(secs, n, i))
      invariant SameBytes(old(mem.ram), mem.ram, 0, base) && SameBytes(old(mem.ram), mem.ram, base + |bytes|, |mem.ram|)
    {
      FixupsPrefix(secs, n, i + 1, |secs|);
      PrefixOk(Fixups(secs, n, i + 1), all, |bytes|, n);
      if secs[i].kind == SHT_REL && secs[i].info < |secs| {
        RelocateSection(mem, secs, base, addrs, values, bytes, i);
      } else {
        SkippedSection(secs, n, i);
      }
      i := i + 1;
    }
  }

  lemma NoFixups(secs: Image, bytes: seq<Byte>, base: Word, values: seq<Word>)
    ensures Fixups(secs, |values|, 0) == [] && FixupsOk([], |bytes|, |values|)
    ensures ApplyAll(bytes, base, values, []) == bytes
  {
  }

  lemma SkippedSection(secs: Image, n: nat, i: nat)
    requires i < |secs| && !(secs[i].kind == SHT_REL && secs[i].info < |secs|)
    ensures Fixups(secs, n, i + 1) == Fixups(secs, n, i)
  {
  }

  /** The entries of one relocation section. */
  method RelocateSection(mem: PhysMem, secs: Image, base: Word, addrs: seq<Word>, values: seq<Word>,
                         ghost bytes: seq<Byte>, i: nat)
    requires AddrsAt(secs, base, addrs) && TargetsOk(secs)
    requires base + |bytes| <= |mem.ram| && base + |bytes| < 0x1_0000_0000 && CalcSize(secs) == |bytes|
    requires i < |secs| && secs[i].kind == SHT_REL && secs[i].info < |secs|
    requires FixupsOk(Fixups(secs, |values|, |secs|), |bytes|, |values|)
    requires FixupsOk(Fixups(secs, |values|, i), |bytes|, |values|)
    requires mem.ram[base..base + |bytes|] == ApplyAll(bytes, base, values, Fixups(secs, |values|, i))
    modifies mem
    ensures |mem.ram| == old(|mem.ram|)
    ensures FixupsOk(Fixups(secs, |values|, i + 1), |bytes|, |values|)
    ensures mem.ram[base..base + |bytes|] == ApplyAll(bytes, base, values, Fixups(secs, |values|, i + 1))
    ensures SameBytes(old(mem.ram), mem.ram, 0, base) && SameBytes(old(mem.ram), mem.ram, base + |bytes|, |mem.ram|)
  {
    hide FixupsOk, Fixups, ApplyAll, Apply, RelFixups;
    ghost var all, n := Fixups(secs, |values|, |secs|), |values|;
    var rels, target := secs[i].rels, secs[i].info;
    var r := 0;
    DoneStart(secs, n, i);
    DoneIsPrefix(secs, n, i, 0);
    PrefixOk(Done(secs, n, i, 0), all, |bytes|, n);
    while r < |rels|
      invariant 0 <= r <= |rels| && |mem.ram| == old(|mem.ram|)
      invariant FixupsOk(Done(secs, n, i, r), |bytes|, n)
      invariant mem.ram[base..base + |bytes|] == ApplyAll(bytes, base, values, Done(secs, n, i, r))
      invariant SameBytes(old(mem.ram), mem.ram, 0, base) && SameBytes(old(mem.ram), mem.ram, base + |bytes|, |mem.ram|)
    {
      DoneIsPrefix(secs, n, i, r + 1);
      PrefixOk(Done(secs, n, i, r + 1), all, |bytes|, n);
      DoneStep(secs, n, i, r);
      if rels[r].sym < |values| {
        ghost var f := Fixup(rels[r].kind, Offset(secs, target) + rels[r].offset, rels[r].sym);
        ApplyAppend(bytes, base, values, Done(secs, n, i, r), f);
        TargetAddr(secs, base, addrs, i);
        RelocateField(mem, addrs[target] + rels[r].offset, rels[r].kind, values[rels[r].sym], base, |bytes|, values, f);
      }
      r := r + 1;
    }
    DoneEnd(secs, n, i);
  }

  lemma DoneStart(secs: Image, n: nat, i: nat)
    requires i < |secs| && secs[i].kind == SHT_REL && secs[i].info < |secs|
    ensures Done(secs, n, i, 0) == Fixups(secs, n, i)
  {
  }

  lemma DoneEnd(secs: Image, n: nat, i: nat)
    requires i < |secs| && secs[i].kind == SHT_REL && secs[i].info < |secs|
    ensures Done(secs, n, i, |secs[i].rels|) == Fixups(secs, n, i + 1)
  {
  }

  lemma DoneStep(secs: Image, n: nat, i: nat, r: nat)
    requires i < |secs| && secs[i].kind == SHT_REL && secs[i].info < |secs| && r < |secs[i].rels|
    ensures var rel := secs[i].rels[r];
            && (rel.sym >= n ==> Done(secs, n, i, r + 1) == Done(secs, n, i, r))
            && (rel.sym < n ==>
                  Done(secs, n, i, r + 1)
                  == Done(secs, n, i, r) + [Fixup(rel.kind, Offset(secs, secs[i].info) + rel.offset, rel.sym)])
  {
  }

  /** A relocated section lies inside the block, so its address does not wrap. */
  lemma TargetAddr(secs: Image, base: Word, addrs: seq<Word>, i: nat)
    requires AddrsAt(secs, base, addrs) && TargetsOk(secs) && base + CalcSize(secs) < 0x1_0000_0000
    requires i < |secs| && secs[i].kind == SHT_REL && secs[i].info < |secs|
    ensures addrs[secs[i].info] == base + Offset(secs, secs[i].info)
  {
    OffsetMonotone(secs, secs[i].info, |secs|);
  }

  // Copying the sections

  ghost predicate AllZero(m: seq<Byte>, from: nat, to: nat) {
    to <= |m| && forall k :: from <= k < to ==> m[k] == 0
  }

  /** A section copied over zeros fills its aligned place. */
  lemma SectionLanded(m: seq<Byte>, sec: Section, at: nat)
    requires sec.Alloc() && sec.size <= 0xFFFF_FFFC && (sec.kind != SHT_NOBITS ==> |sec.body| == sec.size)
    requires sec.size <= AlignUp4(sec.size) && at + AlignUp4(sec.size) <= |m|
    requires if sec.kind == SHT_NOBITS then AllZero(m, at, at + AlignUp4(sec.size))
             else m[at..at + sec.size] == sec.body && AllZero(m, at + sec.size, at + AlignUp4(sec.size))
    ensures m[at..at + AlignUp4(sec.size)] == SectionBytes(sec)
  {
    var end := at + AlignUp4(sec.size);
    if sec.kind != SHT_NOBITS {
      assert m[at..end] == m[at..at + sec.size] + m[at + sec.size..end];
    }
  }

  /** The block after one more section was copied behind the first `n`. */
  lemma OneMoreSection(m: seq<Byte>, m': seq<Byte>, secs: Image, base: nat, total: nat, n: nat)
    requires ContentsOk(secs) && n < |secs| && secs[n].Alloc()
    requires Offset(secs, n + 1) <= total && base + total <= |m| == |m'|
    requires m[base..base + Offset(secs, n)] == BlockBytes(secs, n)
    requires AllZero(m, base + Offset(secs, n), base + total)
    requires var at := base + Offset(secs, n);
             && SameBytes(m, m', 0, at) && SameBytes(m, m', at + secs[n].size, |m|)
             && (secs[n].kind == SHT_NOBITS ==> AllZero(m', at, at + secs[n].size))
             && (secs[n].kind != SHT_NOBITS ==> at + secs[n].size <= |m| && m'[at..at + secs[n].size] == secs[n].body)
    ensures m'[base..base + Offset(secs, n + 1)] == BlockBytes(secs, n + 1)
    ensures AllZero(m', base + Offset(secs, n + 1), base + total)
  {
    hide SectionBytes, Offset, BlockBytes, AlignUp4, ContentsOk;
    NextSection(secs, n);
    var at := base + Offset(secs, n);
    var end := at + AlignUp4(secs[n].size);
    SliceKept(m, m', base, at);
    SectionLanded(m', secs[n], at);
    SlicesJoin(m', base, at, end);
  }

  lemma SliceKept(m: seq<Byte>, m': seq<Byte>, from: nat, to: nat)
    requires from <= to <= |m| == |m'| && SameBytes(m, m', 0, to)
    ensures m'[from..to] == m[from..to]
  {
  }

  lemma SlicesJoin(m: seq<Byte>, from: nat, at: nat, to: nat)
    requires from <= at <= to <= |m|
    ensures m[from..to] == m[from..at] + m[at..to]
  {
  }

  lemma NextSection(secs: Image, n: nat)
    requires ContentsOk(secs) && n < |secs| && secs[n].Alloc()
    ensures Offset(secs, n + 1) == Offset(secs, n) + AlignUp4(secs[n].size)
    ensures BlockBytes(secs, n + 1) == BlockBytes(secs, n) + SectionBytes(secs[n])
    ensures secs[n].size <= 0xFFFF_FFFC && secs[n].size <= AlignUp4(secs[n].size)
    ensures secs[n].kind != SHT_NOBITS ==> |secs[n].body| == secs[n].size
  {
  }

  /** Clears the block and copies the allocated sections into it; `addrs` records where
      each section went. */
  method CopySections(mem: PhysMem, secs: Image, base: Word, total: nat) returns (addrs: seq<Word>)
    requires ContentsOk(secs) && CalcSize(secs) <= total
    requires base + total <= |mem.ram| && base + total < 0x1_0000_0000
    modifies mem
    ensures |mem.ram| == old(|mem.ram|) && AddrsAt(secs, base, addrs)
    ensures mem.ram[base..base + CalcSize(secs)] == BlockBytes(secs, |secs|)
    ensures SameBytes(old(mem.ram), mem.ram, 0, base) && SameBytes(old(mem.ram), mem.ram, base + total, |mem.ram|)
  {
    hide BlockBytes, SectionBytes, AllZero, ContentsOk, Offset;
    Memset(mem, base, 0, total);
    addrs := seq(|secs|, i requires 0 <= i < |secs| => secs[i].addr);
    var offset := 0;
    var i := 0;
    NoSections(secs, mem.ram, base, total);
    while i < |secs|
      invariant 0 <= i <= |secs| && offset == Offset(secs, i) && |addrs| == |secs|
      invariant |mem.ram| == old(|mem.ram|)
      invariant forall j :: 0 <= j < |secs| ==> addrs[j] == if j < i then SectionAddr(secs, base, j) else secs[j].addr
      invariant offset <= total && mem.ram[base..base + offset] == BlockBytes(secs, i)
      invariant AllZero(mem.ram, base + offset, base + total)
      invariant SameBytes(old(mem.ram), mem.ram, 0, base) && SameBytes(old(mem.ram), mem.ram, base + total, |mem.ram|)
    {
      OffsetMonotone(secs, i + 1, |secs|);
      if secs[i].Alloc() {
        addrs := addrs[i := base + offset];
        offset := CopyNext(mem, secs, base, total, i, offset);
      } else {
        SkipSection(secs, i);
      }
      i := i + 1;
    }
  }

  method CopyNext(mem: PhysMem, secs: Image, base: Word, ghost total: nat, i: nat, offset: nat) returns (next: nat)
    requires ContentsOk(secs) && i < |secs| && secs[i].Alloc()
    requires offset == Offset(secs, i) && Offset(secs, i + 1) <= total
    requires base + total <= |mem.ram| && base + total < 0x1_0000_0000
    requires mem.ram[base..base + offset] == BlockBytes(secs, i) && AllZero(mem.ram, base + offset, base + total)
    modifies mem
    ensures |mem.ram| == old(|mem.ram|) && next == Offset(secs, i + 1)
    ensures mem.ram[base..base + next] == BlockBytes(secs, i + 1) && AllZero(mem.ram, base + next, base + total)
    ensures SameBytes(old(mem.ram), mem.ram, 0, base) && SameBytes(old(mem.ram), mem.ram, base + total, |mem.ram|)
  {
    hide BlockBytes, SectionBytes;
    ghost var m := mem.ram;
    CopySection(mem, secs[i], base + offset);
    OneMoreSection(m, mem.ram, secs, base, total, i);
    next := offset + AlignUp4(secs[i].size);
  }

  lemma NoSections(secs: Image, m: seq<Byte>, base: nat, total: nat)
    requires ContentsOk(secs) && base + total <= |m|
    requires forall k :: base <= k < base + total ==> m[k] == 0
    ensures BlockBytes(secs, 0) == [] == m[base..base] && Offset(secs, 0) == 0
    ensures AllZero(m, base, base + total)
  {
  }

  lemma SkipSection(secs: Image, i: nat)
    requires ContentsOk(secs) && i < |secs| && !secs[i].Alloc()
    ensures Offset(secs, i + 1) == Offset(secs, i) && BlockBytes(secs, i + 1) == BlockBytes(secs, i)
  {
  }

  method CopySection(mem: PhysMem, s: Section, at: nat)
    requires at + s.size <= |mem.ram| && (s.kind != SHT_NOBITS ==> |s.body| == s.size)
    modifies mem
    ensures |mem.ram| == old(|mem.ram|)
    ensures s.kind == SHT_NOBITS ==> AllZero(mem.ram, at, at + s.size)
    ensures s.kind != SHT_NOBITS ==> mem.ram[at..at + s.size] == s.body
    ensures SameBytes(old(mem.ram), mem.ram, 0, at) && SameBytes(old(mem.ram), mem.ram, at + s.size, |mem.ram|)
  {
    if s.kind == SHT_NOBITS {
      Memset(mem, at, 0, s.size);
    } else if s.size > 0 {
      CopyIn(mem, at, s.body);
    } else {
      assert mem.ram[at..at] == s.body;
    }
  }

  // Symbols

  /** The index of the first symbol table, or `|secs|`. */
  function SymtabIndex(secs: Image): (i: nat)
    ensures i <= |secs| && (i < |secs| ==> secs[i].kind == SHT_SYMTAB)
    ensures forall j :: 0 <= j < i ==> secs[j].kind != SHT_SYMTAB
  {
    if secs == [] then 0 else if secs[0].kind == SHT_SYMTAB then 0 else 1 + SymtabIndex(secs[1..])
  }

  /** The two symbol passes: section addresses are added to internal symbols, then the
      undefined ones are looked up. `ok` says that every one was found. */
  method ResolveSymbols(secs: Image, base: Word, addrs: seq<Word>, kernel: map<string, Word>, syms: seq<Symbol>)
    returns (ok: bool, values: seq<Word>)
    requires AddrsAt(secs, base, addrs)
    ensures ok <==> Resolvable(secs, kernel, syms)
    ensures ok ==> values == Values(secs, base, kernel, syms)
  {
    values := seq(|syms|, i requires 0 <= i < |syms| => syms[i].value);
    var i := 0;
    while i < |syms|
      invariant 0 <= i <= |syms| && |values| == |syms|
      invariant forall j :: 0 <= j < |syms| ==>
                  values[j] == if j < i then FirstPass(secs, base, syms[j]) else syms[j].value
    {
      if syms[i].shndx != 0 && syms[i].shndx < |secs| {
        values := values[i := (addrs[syms[i].shndx] as int + values[i] as int) % 0x1_0000_0000];
      }
      i := i + 1;
    }
    i := 0;
    while i < |syms|
      invariant 0 <= i <= |syms| && |values| == |syms|
      invariant forall j :: 0 <= j < i ==> SymbolValue(secs, base, kernel, syms[j]) == Some(values[j])
      invariant forall j :: i <= j < |syms| ==> values[j] == FirstPass(secs, base, syms[j])
    {
      if syms[i].shndx == 0 && syms[i].nameOff != 0 {
        if syms[i].name !in kernel {
          assert SymbolValue(secs, 0, kernel, syms[i]).None?;
          return false, values;
        }
        values := values[i := kernel[syms[i].name]];
      }
      i := i + 1;
    }
    forall j | 0 <= j < |syms| ensures SymbolValue(secs, 0, kernel, syms[j]).Some? {
      assert SymbolValue(secs, base, kernel, syms[j]) == Some(values[j]);
    }
    ok := true;
  }

  function FirstPass(secs: Image, base: Word, s: Symbol): Word {
    if s.shndx != 0 && s.shndx < |secs| then (SectionAddr(secs, base, s.shndx) as int + s.value as int) % 0x1_0000_0000
    else s.value
  }

  /** The value of the last of the first `n` symbols with this name, 0 without one. */
  function LastNamed(syms: seq<Symbol>, values: seq<Word>, name: string, n: nat): Word
    requires n <= |syms| == |values|
  {
    if n == 0 then 0
    else if syms[n - 1].nameOff != 0 && syms[n - 1].name == name then values[n - 1]
    else LastNamed(syms, values, name, n - 1)
  }

  /** That is the value of the symbol of that name behind which there is no other. */
  lemma {:induction false} LastNamedIs(syms: seq<Symbol>, values: seq<Word>, name: string, n: nat, i: nat)
    requires i < n <= |syms| == |values| && syms[i].nameOff != 0 && syms[i].name == name
    requires forall j :: i < j < n ==> syms[j].nameOff == 0 || syms[j].name != name
    ensures LastNamed(syms, values, name, n) == values[i]
    decreases n
  {
    if i < n - 1 {
      LastNamedIs(syms, values, name, n - 1, i);
    }
  }

  lemma {:induction false} NoneNamed(syms: seq<Symbol>, values: seq<Word>, name: string, n: nat)
    requires n <= |syms| == |values| && forall j :: 0 <= j < n ==> syms[j].nameOff == 0 || syms[j].name != name
    ensures LastNamed(syms, values, name, n) == 0
  {
    if n > 0 {
      NoneNamed(syms, values, name, n - 1);
    }
  }

  /** Looks for the entry points. */
  method FindHooks(syms: seq<Symbol>, values: seq<Word>) returns (init: Word, cleanup: Word)
    requires |values| == |syms|
    ensures init == LastNamed(syms, values, "module_init", |syms|)
    ensures cleanup == LastNamed(syms, values, "module_cleanup", |syms|)
  {
    init, cleanup := 0, 0;
    var i := 0;
    while i < |syms|
      invariant 0 <= i <= |syms|
      invariant init == LastNamed(syms, values, "module_init", i)
      invariant cleanup == LastNamed(syms, values, "module_cleanup", i)
    {
      if syms[i].nameOff != 0 {
        if syms[i].name == "module_init" {
          assert "module_init"[7] != "module_cleanup"[7];
          init := values[i];
        } else if syms[i].name == "module_cleanup" {
          cleanup := values[i];
        }
      }
      i := i + 1;
    }
  }

  /** `module_calc_size` */
  method ModuleCalcSize(secs: Image) returns (size: nat)
    ensures size == CalcSize(secs)
  {
    hide AlignUp4;
    size := 0;
    var i := 0;
    while i < |secs|
      invariant 0 <= i <= |secs| && size == Offset(secs, i)
    {
      if secs[i].Alloc() {
        size := size + AlignUp4(secs[i].size);
      }
      i := i + 1;
    }
  }

  /** The search for the symbol table. */
  method FindSymtab(secs: Image) returns (i: nat)
    ensures i == SymtabIndex(secs)
  {
    i := 0;
    while i < |secs| && secs[i].kind != SHT_SYMTAB
      invariant i <= |secs| && forall j :: 0 <= j < i ==> secs[j].kind != SHT_SYMTAB
    {
      i := i + 1;
    }
  }

  // The loader

  /** `sizeof(kernel_module_t)` */
  const RECORD_SIZE: nat := 92
  const NAME_MAX: nat := 63

  /** A registered module: `base` is its block, `record` the block of its list entry. */
  datatype Module = Module(name: string, base: nat, size: nat, init: Word, cleanup: Word, record: nat)

  /** A file that fails, or passes, the ELF header check. */
  datatype ModuleFile = BadElf | GoodElf(secs: Image)

  datatype Outcome = Loaded | AlreadyLoaded | InvalidElf | NoMemory | NoSymtab | UndefinedSymbol | NoInit

  /** What `strncpy(…, 63)` keeps of a name. */
  function Truncate(name: string): (r: string)
    ensures r <= name && |r| == if |name| <= 63 then |name| else 63
  {
    if |name| <= NAME_MAX then name else name[..NAME_MAX]
  }

  function TotalSize(secs: Image): nat {
    if CalcSize(secs) == 0 then 1024 else CalcSize(secs)
  }

  function SymbolsOf(secs: Image): seq<Symbol> {
    if SymtabIndex(secs) < |secs| then secs[SymtabIndex(secs)].syms else []
  }

  predicate HasSymbols(secs: Image) {
    SymtabIndex(secs) < |secs| && secs[SymtabIndex(secs)].link < |secs|
  }

  /** The symbols are those of the first section of type 2, and there are none without one or
      when its string table is no section. */
  lemma SymtabIs(secs: Image, i: nat)
    requires i <= |secs| && (i < |secs| ==> secs[i].kind == 2) && forall j :: 0 <= j < i ==> secs[j].kind != 2
    ensures HasSymbols(secs) <==> i < |secs| && secs[i].link < |secs|
    ensures i < |secs| ==> SymbolsOf(secs) == secs[i].syms
  {
    assert SymtabIndex(secs) == i;
  }

  /** What the loader takes for granted of a module image. */
  predicate ImageOk(secs: Image) {
    && ContentsOk(secs) && TargetsOk(secs) && TotalSize(secs) <= MAX_REQUEST
    && FixupsOk(Fixups(secs, |SymbolsOf(secs)|, |secs|), CalcSize(secs), |SymbolsOf(secs)|)
  }

  ghost predicate Owned(live: set<Block>, ptr: nat) {
    exists b :: b in live && b.Payload() == ptr
  }

  ghost predicate RecordOk(live: set<Block>, m: Module) {
    Owned(live, m.base) && Owned(live, m.record) && m.base != m.record && |m.name| <= NAME_MAX
  }

  ghost predicate RecordsApart(m: Module, n: Module) {
    {m.base, m.record} !! {n.base, n.record}
  }

  /** Every registered module owns two live blocks of its own. */
  ghost predicate Registered(live: set<Block>, modules: seq<Module>) {
    && (forall i :: 0 <= i < |modules| ==> RecordOk(live, modules[i]))
    && (forall i, j :: 0 <= i < j < |modules| ==> RecordsApart(modules[i], modules[j]))
  }

  class Loader {
    const heap: Heap
    const kernel: map<string, Word>
    var modules: seq<Module>

    constructor (heap: Heap, kernel: map<string, Word>)
      requires heap.Valid()
      ensures this.heap == heap && this.kernel == kernel && modules == [] && Valid()
    {
      this.heap := heap;
      this.kernel := kernel;
      modules := [];
    }

    ghost predicate Valid()
      reads this, heap, heap.mem, heap.pmm, heap.pmm.bitmap
    {
      heap.Valid() && Registered(Live(heap.blocks), modules)
    }

    /** The first module with this name, or the number of modules. */
    method Find(name: string) returns (i: nat)
      ensures i <= |modules|
      ensures i < |modules| ==> modules[i].name == name
      ensures forall j :: 0 <= j < i ==> modules[j].name != name
    {
      i := 0;
      while i < |modules|
        invariant i <= |modules|
        invariant forall j :: 0 <= j < i ==> modules[j].name != name
      {
        if modules[i].name == name {
          return;
        }
        i := i + 1;
      }
    }

    /** Copies and links the image in the block `b`, and finds its entry points. */
    method LinkInto(secs: Image, base: nat, ghost b: Block) returns (r: Outcome, init: Word, cleanup: Word)
      requires heap.Valid() && heap.LiveAt(base, b) && ImageOk(secs) && TotalSize(secs) <= b.size
      modifies heap.mem
      ensures heap.Valid()
      ensures Kept(old(heap.mem.ram), heap.mem.ram, Live(heap.blocks) - {b}, heap.heapStart, heap.heapEnd)
      ensures LinkOutcome(heap.mem.ram, secs, base, kernel, r, init, cleanup)
      ensures r in {Loaded, NoSymtab, UndefinedSymbol, NoInit}
    {
      hide ImageOk, LinkOutcome;
      ghost var n := heap.IndexOfLive(b);
      BlockFacts(heap.mem.ram, heap.blocks, heap.heapStart, heap.heapEnd, n);
      ghost var m := heap.mem.ram;
      r, init, cleanup := LinkBytes(heap.mem, secs, base, kernel);
      PayloadWrite(m, heap.mem.ram, heap.blocks, heap.heapStart, heap.heapEnd, n);
    }

    /** `module_load_binary`. A failed load leaves the list and the live blocks as they
        were; a successful one adds one module, linked at its base. */
    method Load(name: string, file: ModuleFile) returns (r: Outcome, ghost b: Block, ghost c: Block)
      requires Valid()
      requires file.GoodElf? && !Registers(modules, name) ==>
                 ImageOk(file.secs) && CanLoad(heap.Supply(), file.secs, kernel)
      modifies this, heap, heap.mem, heap.pmm`freePages, heap.pmm.bitmap
      ensures Valid() && heap.heapStart == old(heap.heapStart)
      ensures Kept(old(heap.mem.ram), heap.mem.ram, old(Live(heap.blocks)), heap.heapStart, heap.heapEnd)
      ensures r == Expected(old(modules), name, file, old(heap.Supply()), kernel)
      ensures r == AlreadyLoaded <==> exists i :: 0 <= i < |old(modules)| && old(modules)[i].name == name
      ensures r == InvalidElf <==> file.BadElf? && forall i :: 0 <= i < |old(modules)| ==> old(modules)[i].name != name
      ensures r != Loaded ==> modules == old(modules) && Live(heap.blocks) == old(Live(heap.blocks))
      ensures r == Loaded ==> file.GoodElf? && |modules| == |old(modules)| + 1 && modules[1..] == old(modules)
      ensures r == Loaded ==>
                var m := modules[0];
                && m.name == Truncate(name)
                && m.size == (if CalcSize(file.secs) == 0 then 1024 else CalcSize(file.secs))
                && Live(heap.blocks) == old(Live(heap.blocks)) + {b, c}
                && b !in old(Live(heap.blocks)) && c !in old(Live(heap.blocks))
                && b.Payload() == m.base && c.Payload() == m.record
                && LinkOutcome(heap.mem.ram, file.secs, m.base, kernel, Loaded, m.init, m.cleanup)
                && m.base < 0x1_0000_0000 && Hooks(file.secs, m.base, kernel, m.init, m.cleanup)
                && (Disjoint(Fixups(file.secs, |SymbolsOf(file.secs)|, |file.secs|)) ==>
                      AllAdjusted(heap.mem.ram, file.secs, m.base, kernel))
    {
      hide ImageOk, LinkOutcome, Registered, FreshResult, CanLoad, Hooks;
      b, c := Block(0, 0, false), Block(0, 0, false);
      var found := Find(name);
      if found < |modules| {
        return AlreadyLoaded, b, c;
      }
      if file.BadElf? {
        return InvalidElf, b, c;
      }
      r, b, c := LoadFresh(name, file.secs);
      if r == Loaded {
        var m := modules[0];
        OutcomeHooks(heap.mem.ram, file.secs, m.base, kernel, m.init, m.cleanup);
        if Disjoint(Fixups(file.secs, |SymbolsOf(file.secs)|, |file.secs|)) {
          OutcomeAdjusts(heap.mem.ram, file.secs, m.base, kernel, Loaded, m.init, m.cleanup);
        }
      }
    }

    /** The load proper, for a new name and a valid file. */
    method LoadFresh(name: string, secs: Image) returns (r: Outcome, ghost b: Block, ghost c: Block)
      requires Valid() && ImageOk(secs) && CanLoad(heap.Supply(), secs, kernel)
      modifies this, heap, heap.mem, heap.pmm`freePages, heap.pmm.bitmap
      ensures Valid() && heap.heapStart == old(heap.heapStart)
      ensures r == FreshResult(old(heap.Supply()), secs, kernel) && r != AlreadyLoaded && r != InvalidElf
      ensures Kept(old(heap.mem.ram), heap.mem.ram, old(Live(heap.blocks)), heap.heapStart, heap.heapEnd)
      ensures r != Loaded ==> modules == old(modules) && Live(heap.blocks) == old(Live(heap.blocks))
      ensures r == Loaded ==>
                && exists init, cleanup ::
                     && modules
                        == [Module(Truncate(name), b.Payload(), TotalSize(secs), init, cleanup, c.Payload())]
                           + old(modules)
                     && LinkOutcome(heap.mem.ram, secs, b.Payload(), kernel, Loaded, init, cleanup)
      ensures r == Loaded ==>
                && Live(heap.blocks) == old(Live(heap.blocks)) + {b, c}
                && b !in old(Live(heap.blocks)) && c !in old(Live(heap.blocks))
    {
      hide LinkOutcome, Registered, ImageOk, LinkResult, Short, Serves, Served, ServedAt;
      c := Block(0, 0, false);
      ghost var m, live, bs := heap.mem.ram, Live(heap.blocks), heap.blocks;
      SizeFits(secs);
      var total := ModuleCalcSize(secs);
      if total == 0 {
        total := 1024;
      }
      var base;
      base, b := Allocate(heap, total);
      if base == 0 {
        return NoMemory, b, c;
      }
      ghost var m1 := heap.mem.ram;
      var init, cleanup;
      r, init, cleanup := LinkInto(secs, base, b);
      OutcomeIsResult(heap.mem.ram, secs, base, kernel, r, init, cleanup);
      JoinedPayload(bs, heap.blocks, b);
      assert live + {b} - {b} == live;
      KeptTransitive(m, m1, heap.mem.ram, live, heap.heapStart, heap.heapEnd);
      if r != Loaded {
        Discard(base, b, m, live);
        return;
      }
      r, c := Register(name, secs, base, b, init, cleanup, m, live);
    }

    /** Frees the block of a failed load. */
    method Discard(base: nat, ghost b: Block, ghost m: seq<Byte>, ghost live: set<Block>)
      requires heap.Valid() && heap.LiveAt(base, b) && Live(heap.blocks) == live + {b} && b !in live
      requires Registered(live, modules) && Kept(m, heap.mem.ram, live, heap.heapStart, heap.heapEnd)
      modifies heap`blocks, heap.mem
      ensures Valid() && Live(heap.blocks) == live
      ensures Kept(m, heap.mem.ram, live, heap.heapStart, heap.heapEnd)
    {
      hide Registered;
      ghost var m1 := heap.mem.ram;
      heap.FreeLive(base, b);
      assert Live(heap.blocks) == live;
      KeptTransitive(m, m1, heap.mem.ram, live, heap.heapStart, heap.heapEnd);
    }

    /** Allocates the list entry and links the module in front. */
    method Register(name: string, secs: Image, base: nat, ghost b: Block, init: Word, cleanup: Word,
                    ghost m: seq<Byte>, ghost live: set<Block>)
      returns (r: Outcome, ghost c: Block)
      requires heap.Valid() && heap.LiveAt(base, b) && Live(heap.blocks) == live + {b} && b !in live
      requires Registered(live, modules) && Kept(m, heap.mem.ram, live, heap.heapStart, heap.heapEnd)
      requires ImageOk(secs) && TotalSize(secs) <= b.size && Serves(heap.Supply(), AlignUp4(RECORD_SIZE))
      requires forall x :: x in live ==> x.Payload() != b.Payload()
      requires LinkOutcome(heap.mem.ram, secs, base, kernel, Loaded, init, cleanup)
      modifies this, heap, heap.mem, heap.pmm`freePages, heap.pmm.bitmap
      ensures Valid() && Kept(m, heap.mem.ram, live, heap.heapStart, heap.heapEnd)
      ensures heap.heapStart == old(heap.heapStart)
      ensures r == if Short(old(heap.Supply()), AlignUp4(RECORD_SIZE)) then NoMemory else Loaded
      ensures r == NoMemory ==> modules == old(modules) && Live(heap.blocks) == live
      ensures r == Loaded ==>
                && modules == [Module(Truncate(name), base, TotalSize(secs), init, cleanup, c.Payload())] + old(modules)
                && Live(heap.blocks) == live + {b, c} && c !in live
                && LinkOutcome(heap.mem.ram, secs, base, kernel, Loaded, init, cleanup)
    {
      hide ImageOk, LinkOutcome, Registered, Short, Serves, Served, ServedAt;
      ghost var m1, end, bs := heap.mem.ram, heap.heapEnd, heap.blocks;
      var record;
      record, c := Allocate(heap, RECORD_SIZE);
      ghost var m2 := heap.mem.ram;
      KeptChain(m, m1, m2, live, live + {b}, heap.heapStart, end, heap.heapEnd);
      if record == 0 {
        Discard(base, b, m, live);
        return NoMemory, c;
      }
      JoinedPayload(bs, heap.blocks, c);
      ClearRecord(record, c);
      assert Live(heap.blocks) - {c} == live + {b};
      KeptTransitive(m1, m2, heap.mem.ram, live + {b}, heap.heapStart, heap.heapEnd);
      KeptChain(m, m2, heap.mem.ram, live, live + {b}, heap.heapStart, heap.heapEnd, heap.heapEnd);
      LinkOutcomeKept(m1, heap.mem.ram, secs, base, kernel, init, cleanup, b, live + {b}, heap.heapStart, heap.heapEnd);
      NewRecord(live, b, c, modules, Truncate(name), TotalSize(secs), init, cleanup);
      assert Live(heap.blocks) == live + {b, c};
      modules := [Module(Truncate(name), base, TotalSize(secs), init, cleanup, record)] + modules;
      r := Loaded;
    }

    method ClearRecord(record: nat, ghost c: Block)
      requires heap.Valid() && heap.LiveAt(record, c) && c.size >= 92
      modifies heap.mem
      ensures heap.Valid()
      ensures Kept(old(heap.mem.ram), heap.mem.ram, Live(heap.blocks) - {c}, heap.heapStart, heap.heapEnd)
    {
      ghost var n := heap.IndexOfLive(c);
      BlockFacts(heap.mem.ram, heap.blocks, heap.heapStart, heap.heapEnd, n);
      ghost var m := heap.mem.ram;
      Memset(heap.mem, record, 0, RECORD_SIZE);
      PayloadWrite(m, heap.mem.ram, heap.blocks, heap.heapStart, heap.heapEnd, n);
    }

    /** `module_unload_binary`: removes the first module of that name and frees its two
        blocks. The cleanup hook is taken to leave heap and list alone. */
    method Unload(name: string) returns (found: bool)
      requires Valid()
      modifies this, heap`blocks, heap.mem
      ensures Valid()
      ensures found <==> exists i :: 0 <= i < |old(modules)| && old(modules)[i].name == name
      ensures !found ==> modules == old(modules) && heap.blocks == old(heap.blocks) && heap.mem.ram == old(heap.mem.ram)
      ensures found ==> exists i: nat :: IsFirst(old(modules), name, i)
                                    && modules == Without(old(modules), i)
                                    && Live(heap.blocks) == LiveWithout(old(Live(heap.blocks)), old(modules)[i])
      ensures Kept(old(heap.mem.ram), heap.mem.ram, Live(heap.blocks), heap.heapStart, heap.heapEnd)
    {
      hide Registered;
      var i := Find(name);
      if i == |modules| {
        return false;
      }
      var m := modules[i];
      ghost var live := Live(heap.blocks);
      Unregistered(live, modules, i);
      RecordAt(live, modules, i);
      modules := modules[..i] + modules[i + 1..];
      FreeModule(m);
      assert IsFirst(old(modules), name, i);
      found := true;
    }

    /** Frees the block and the list entry of a module. */
    method FreeModule(m: Module)
      requires heap.Valid() && RecordOk(Live(heap.blocks), m)
      modifies heap`blocks, heap.mem
      ensures heap.Valid() && Live(heap.blocks) == LiveWithout(old(Live(heap.blocks)), m)
      ensures Kept(old(heap.mem.ram), heap.mem.ram, Live(heap.blocks), heap.heapStart, heap.heapEnd)
    {
      ghost var live, ram := Live(heap.blocks), heap.mem.ram;
      ghost var b :| b in live && b.Payload() == m.base;
      ghost var c :| c in live && c.Payload() == m.record;
      OnlyBlock(live, heap.blocks, b, heap.heapStart, heap.heapEnd);
      OnlyBlock(live, heap.blocks, c, heap.heapStart, heap.heapEnd);
      heap.FreeLive(m.base, b);
      ghost var ram1, live1 := heap.mem.ram, Live(heap.blocks);
      heap.FreeLive(m.record, c);
      KeptSub(ram, ram1, live1, Live(heap.blocks), heap.heapStart, heap.heapEnd);
      KeptTransitive(ram, ram1, heap.mem.ram, Live(heap.blocks), heap.heapStart, heap.heapEnd);
    }

    /** Loading a module and unloading it by the same name restores the list and the
        live blocks, and the exact block list when the arena did not grow, if and only
        if the name fits its field: a longer name is stored cut and not found again. */
    method LoadThenUnload(name: string, file: ModuleFile) returns (r: Outcome, found: bool)
      requires Valid()
      requires file.GoodElf? && !Registers(modules, name) ==>
                 ImageOk(file.secs) && CanLoad(heap.Supply(), file.secs, kernel)
      modifies this, heap, heap.mem, heap.pmm`freePages, heap.pmm.bitmap
      ensures Valid() && r == Expected(old(modules), name, file, old(heap.Supply()), kernel)
      ensures r == Loaded ==> (found <==> |name| <= NAME_MAX)
      ensures r == Loaded ==> (modules == old(modules) <==> |name| <= NAME_MAX)
      ensures r == Loaded ==> (Live(heap.blocks) == old(Live(heap.blocks)) <==> |name| <= NAME_MAX)
      ensures r == Loaded && |name| <= NAME_MAX && heap.heapEnd == old(heap.heapEnd) ==> heap.blocks == old(heap.blocks)
    {
      hide ImageOk, LinkOutcome, Registered, Kept, FreshResult, CanLoad;
      ghost var b, c;
      found := false;
      r, b, c := Load(name, file);
      if r == Loaded {
        found := UnloadLatest(name, old(modules), old(Live(heap.blocks)), b, c);
        if found && heap.heapEnd == old(heap.heapEnd) {
          CanonicalUnique(heap.blocks, old(heap.blocks), heap.heapStart, heap.heapEnd);
        }
      }
    }

    /** Unloading right after a load, by the name that was given to the load. */
    method UnloadLatest(name: string, ghost before: seq<Module>, ghost live: set<Block>, ghost b: Block, ghost c: Block)
      returns (found: bool)
      requires Valid() && |modules| == |before| + 1 && modules[1..] == before && !Registers(before, name)
      requires modules[0].name == Truncate(name)
      requires b.Payload() == modules[0].base && c.Payload() == modules[0].record
      requires Live(heap.blocks) == live + {b, c} && b !in live && c !in live
      modifies this, heap`blocks, heap.mem
      ensures Valid()
      ensures found <==> |name| <= NAME_MAX
      ensures found ==> modules == before && Live(heap.blocks) == live
      ensures !found ==> modules == old(modules) && Live(heap.blocks) == live + {b, c}
    {
      hide Registered, Kept, Truncate;
      ghost var loaded, now, bs := modules, Live(heap.blocks), heap.blocks;
      TruncateKeeps(name);
      OnlyFirst(before, loaded, name);
      found := Unload(name);
      if found {
        ghost var i: nat :| IsFirst(loaded, name, i) && modules == Without(loaded, i)
                            && Live(heap.blocks) == LiveWithout(now, loaded[i]);
        OnlyBlock(now, bs, b, heap.heapStart, heap.heapEnd);
        OnlyBlock(now, bs, c, heap.heapStart, heap.heapEnd);
      }
    }
  }

  lemma TruncateKeeps(name: string)
    ensures Truncate(name) == name <==> |name| <= NAME_MAX
  {
  }

  lemma OnlyFirst(old': seq<Module>, modules: seq<Module>, name: string)
    requires |modules| == |old'| + 1 && modules[1..] == old'
    requires forall i :: 0 <= i < |old'| ==> old'[i].name != name
    ensures forall i :: IsFirst(modules, name, i) ==> i == 0
    ensures Without(modules, 0) == old'
    ensures (exists i :: 0 <= i < |modules| && modules[i].name == name) <==> modules[0].name == name
  {
    forall i | 0 < i < |modules| ensures modules[i].name != name {
      assert modules[i] == old'[i - 1];
    }
  }

  /** `i` is the first index with this name. */
  ghost predicate IsFirst(modules: seq<Module>, name: string, i: nat) {
    i < |modules| && modules[i].name == name && forall j :: 0 <= j < i ==> modules[j].name != name
  }

  function Without(modules: seq<Module>, i: nat): seq<Module>
    requires i < |modules|
  {
    modules[..i] + modules[i + 1..]
  }

  /** The live blocks without the two of module `m`. */
  ghost function LiveWithout(live: set<Block>, m: Module): set<Block> {
    set b | b in live && b.Payload() != m.base && b.Payload() != m.record
  }

  lemma RecordAt(live: set<Block>, modules: seq<Module>, i: nat)
    requires Registered(live, modules) && i < |modules|
    ensures RecordOk(live, modules[i])
  {
  }

  /** Two live blocks of a tiling never share a payload address. */
  lemma OnlyBlock(live: set<Block>, bs: seq<Block>, b: Block, start: nat, end: nat)
    requires Tiles(bs, start, end) && live == Live(bs) && b in live
    ensures forall c :: c in live && c.Payload() == b.Payload() ==> c == b
  {
    forall c | c in live && c.Payload() == b.Payload() ensures c == b {
      var i :| 0 <= i < |bs| && bs[i] == b;
      var j :| 0 <= j < |bs| && bs[j] == c;
      SameAddr(bs, i, j, start, end);
    }
  }

  lemma Unregistered(live: set<Block>, modules: seq<Module>, i: nat)
    requires Registered(live, modules) && i < |modules|
    ensures Registered(LiveWithout(live, modules[i]), Without(modules, i))
  {
    var rest, less := Without(modules, i), LiveWithout(live, modules[i]);
    forall k | 0 <= k < |rest| ensures RecordOk(less, rest[k]) {
      var j := if k < i then k else k + 1;
      assert rest[k] == modules[j] && RecordOk(live, modules[j]);
      assert RecordsApart(modules[if i < j then i else j], modules[if i < j then j else i]);
      OwnedLess(live, modules[i], modules[j].base);
      OwnedLess(live, modules[i], modules[j].record);
    }
    forall k, l | 0 <= k < l < |rest| ensures RecordsApart(rest[k], rest[l]) {
      assert RecordsApart(modules[if k < i then k else k + 1], modules[if l < i then l else l + 1]);
    }
  }

  lemma OwnedLess(live: set<Block>, m: Module, ptr: nat)
    requires Owned(live, ptr) && ptr != m.base && ptr != m.record
    ensures Owned(LiveWithout(live, m), ptr)
  {
    var b :| b in live && b.Payload() == ptr;
    assert b in LiveWithout(live, m);
  }

  /** `kmalloc` as it moves the stock on. */
  method Allocate(heap: Heap, size: Word) returns (ptr: nat, ghost b: Block)
    requires heap.Valid() && 0 < size <= MAX_REQUEST && Serves(heap.Supply(), AlignUp4(size))
    modifies heap, heap.mem, heap.pmm`freePages, heap.pmm.bitmap
    ensures heap.Valid() && heap.heapStart == old(heap.heapStart) && heap.heapEnd >= old(heap.heapEnd)
    ensures ptr == 0 <==> Short(old(heap.Supply()), AlignUp4(size))
    ensures ptr != 0 ==>
              && ptr == ServedAt(old(heap.Supply()), AlignUp4(size))
              && heap.Supply() == Served(old(heap.Supply()), AlignUp4(size))
    ensures Kept(old(heap.mem.ram), heap.mem.ram, old(Live(heap.blocks)), heap.heapStart, heap.heapEnd)
    ensures ptr == 0 ==> heap.blocks == old(heap.blocks)
    ensures ptr != 0 ==> Joined(old(heap.blocks), heap.blocks, b) && b.Payload() == ptr && b.size >= size
  {
    hide AlignUp4, PagesFor, Take, Extend, Joined, Kept, LowestAre, Serves;
    ghost var fit;
    ptr, fit, b := heap.Kmalloc(size);
  }

  lemma SizeFits(secs: Image)
    requires ImageOk(secs)
    ensures 0 < TotalSize(secs) <= MAX_REQUEST
  {
  }

  // What decides a load

  predicate Registers(modules: seq<Module>, name: string) {
    exists i :: 0 <= i < |modules| && modules[i].name == name
  }

  /** How linking ends for a block at `base`. */
  function LinkResult(secs: Image, base: nat, kernel: map<string, Word>): Outcome
    requires ImageOk(secs)
  {
    if !HasSymbols(secs) then NoSymtab
    else if !Resolvable(secs, kernel, SymbolsOf(secs)) then UndefinedSymbol
    else
      var values := Values(secs, base % 0x1_0000_0000, kernel, SymbolsOf(secs));
      if LastNamed(SymbolsOf(secs), values, "module_init", |values|) == 0 then NoInit else Loaded
  }

  /** How loading a new, valid image ends: memory for the image, then linking, then memory
      for the list entry. */
  ghost function FreshResult(s: Stock, secs: Image, kernel: map<string, Word>): Outcome
    requires ImageOk(secs)
  {
    var req := AlignUp4(TotalSize(secs));
    if Short(s, req) then NoMemory
    else
      var r := LinkResult(secs, ServedAt(s, req), kernel);
      if r == Loaded && Short(Served(s, req), AlignUp4(RECORD_SIZE)) then NoMemory else r
  }

  ghost function Expected(modules: seq<Module>, name: string, file: ModuleFile, s: Stock,
                          kernel: map<string, Word>): Outcome
    requires file.GoodElf? && !Registers(modules, name) ==> ImageOk(file.secs)
  {
    if Registers(modules, name) then AlreadyLoaded
    else if file.BadElf? then InvalidElf
    else FreshResult(s, file.secs, kernel)
  }

  /** The allocations the load will make are served, in the sense of the heap. */
  ghost predicate CanLoad(s: Stock, secs: Image, kernel: map<string, Word>)
    requires ImageOk(secs)
  {
    var req := AlignUp4(TotalSize(secs));
    && Serves(s, req)
    && (!Short(s, req) && LinkResult(secs, ServedAt(s, req), kernel) == Loaded ==>
        Serves(Served(s, req), AlignUp4(RECORD_SIZE)))
  }

  /** A load is served whenever both blocks fit in the arena as it is, and whenever enough
      free pages follow the arena for both. */
  lemma LoadIsServed(s: Stock, secs: Image, kernel: map<string, Word>)
    requires ImageOk(secs)
    requires var req, rec := AlignUp4(TotalSize(secs)), AlignUp4(RECORD_SIZE);
             || (var i := FirstFit(s.blocks, req);
                 i < |s.blocks| && FirstFit(Take(s.blocks, i, req), rec) < |Take(s.blocks, i, req)|)
             || s.free == {}
             || LowestAre(s.free, s.end / PAGE_SIZE, PagesFor(req) + PagesFor(rec))
    ensures CanLoad(s, secs, kernel)
  {
    hide FirstFit, AlignUp4, PagesFor, Take, Extend, LinkResult;
    SizeFits(secs);
    var req, rec := AlignUp4(TotalSize(secs)), AlignUp4(RECORD_SIZE);
    var first, k := s.end / PAGE_SIZE, PagesFor(req);
    assert (s.end + k * PAGE_SIZE) / PAGE_SIZE == first + k;
    if s.free != {} && LowestAre(s.free, first, k + PagesFor(rec)) {
      var rest := set p | p in s.free && !InRun(p, first, k);
      RoomAfterRun(s.free, rest, first, k, PagesFor(rec));
    }
  }

  lemma RoomAfterRun(free: set<nat>, rest: set<nat>, first: nat, k: nat, extra: nat)
    requires LowestAre(free, first, k + extra) && GaveRun(free, rest, first, k)
    ensures LowestAre(free, first, k) && LowestAre(free, first, extra) && LowestAre(rest, first + k, extra)
  {
    forall p | first + k <= p < first + k + extra ensures p in rest {
      assert p in free && !InRun(p, first, k);
    }
    forall p | p in rest ensures first + k <= p {
      assert p in free && !InRun(p, first, k);
    }
  }

  lemma OutcomeIsResult(m: seq<Byte>, secs: Image, base: nat, kernel: map<string, Word>, r: Outcome, init: Word,
                        cleanup: Word)
    requires ImageOk(secs) && LinkOutcome(m, secs, base, kernel, r, init, cleanup)
    ensures r == LinkResult(secs, base, kernel)
    ensures r == UndefinedSymbol <==> HasSymbols(secs) && !Resolvable(secs, kernel, SymbolsOf(secs))
  {
    hide LinkedBlock, LastNamed, Resolvable, ImageOk;
  }

  lemma LinkOutcomeKept(m: seq<Byte>, m': seq<Byte>, secs: Image, base: nat, kernel: map<string, Word>, init: Word,
                        cleanup: Word, b: Block, live: set<Block>, start: nat, end: nat)
    requires ImageOk(secs) && LinkOutcome(m, secs, base, kernel, Loaded, init, cleanup)
    requires b in live && b.Payload() == base && TotalSize(secs) <= b.size && Kept(m, m', live, start, end)
    ensures LinkOutcome(m', secs, base, kernel, Loaded, init, cleanup)
  {
    hide LinkedBlock, LastNamed, Resolvable, Values, HasSymbols, SymbolsOf, ImageOk;
    assert SameBytes(m, m', b.Payload(), b.End());
    assert m'[base..base + CalcSize(secs)] == m[base..base + CalcSize(secs)];
  }

  /** A module with two fresh blocks extends the list. */
  lemma NewRecord(live: set<Block>, b: Block, c: Block, modules: seq<Module>, name: string, size: nat, init: Word,
                  cleanup: Word)
    requires Registered(live, modules) && |name| <= NAME_MAX && b != c
    requires forall x :: x in live ==> x.Payload() != b.Payload() && x.Payload() != c.Payload()
    requires b.Payload() != c.Payload()
    ensures Registered(live + {b, c}, [Module(name, b.Payload(), size, init, cleanup, c.Payload())] + modules)
  {
    var more := [Module(name, b.Payload(), size, init, cleanup, c.Payload())] + modules;
    forall i | 0 <= i < |more| ensures RecordOk(live + {b, c}, more[i]) {
      if i > 0 {
        assert RecordOk(live, modules[i - 1]);
        OwnedMore(live, live + {b, c}, more[i].base);
        OwnedMore(live, live + {b, c}, more[i].record);
      } else {
        assert b in live + {b, c} && c in live + {b, c};
      }
    }
    forall i, j | 0 <= i < j < |more| ensures RecordsApart(more[i], more[j]) {
      if i > 0 {
        assert RecordsApart(modules[i - 1], modules[j - 1]);
      } else {
        assert RecordOk(live, modules[j - 1]);
      }
    }
  }

  lemma OwnedMore(live: set<Block>, live': set<Block>, ptr: nat)
    requires Owned(live, ptr) && live <= live'
    ensures Owned(live', ptr)
  {
    var b :| b in live && b.Payload() == ptr;
    assert b in live';
  }

  /** When linking fails and how, and what the block holds when it does not. */
  ghost predicate LinkOutcome(m: seq<Byte>, secs: Image, base: nat, kernel: map<string, Word>, r: Outcome, init: Word,
                              cleanup: Word)
    requires ImageOk(secs)
  {
    var syms := SymbolsOf(secs);
    && (r == NoSymtab <==> !HasSymbols(secs))
    && (r == UndefinedSymbol <==> HasSymbols(secs) && !Resolvable(secs, kernel, syms))
    && r in {Loaded, NoSymtab, UndefinedSymbol, NoInit}
    && (r == Loaded || r == NoInit ==>
          base < 0x1_0000_0000 && base + CalcSize(secs) <= |m|
          && m[base..base + CalcSize(secs)] == LinkedBlock(secs, base, kernel, syms)
          && init == LastNamed(syms, Values(secs, base, kernel, syms), "module_init", |syms|)
          && cleanup == LastNamed(syms, Values(secs, base, kernel, syms), "module_cleanup", |syms|)
          && (r == NoInit <==> init == 0))
  }

  /** Every relocation in force is done in memory, as `Adjusted` says. */
  ghost predicate AllAdjusted(m: seq<Byte>, secs: Image, base: Word, kernel: map<string, Word>) {
    var syms := SymbolsOf(secs);
    forall i: nat, j: nat :: Acts(secs, |syms|, i, j) ==> AdjustedAt(m, secs, base, kernel, syms, i, j)
  }

  /** What is linked is adjusted, when no two relocations overlap. */
  lemma OutcomeAdjusts(m: seq<Byte>, secs: Image, base: Word, kernel: map<string, Word>, r: Outcome, init: Word,
                       cleanup: Word)
    requires ImageOk(secs) && LinkOutcome(m, secs, base, kernel, r, init, cleanup) && (r == Loaded || r == NoInit)
    requires Disjoint(Fixups(secs, |SymbolsOf(secs)|, |secs|))
    ensures AllAdjusted(m, secs, base, kernel)
  {
    hide LinkedBlock, AdjustedAt, Fixups, ContentsOk, FixupsOk, Disjoint, Offset, LastNamed, SymbolValue, Acts;
    var syms := SymbolsOf(secs);
    forall i: nat, j: nat | Acts(secs, |syms|, i, j)
      ensures AdjustedAt(m, secs, base, kernel, syms, i, j)
    {
      LinkedAdjusted(m, secs, base, kernel, syms, i, j);
    }
  }

  /** The entry points are the values of the last symbols named so, and there is a first one. */
  ghost predicate Hooks(secs: Image, base: Word, kernel: map<string, Word>, init: Word, cleanup: Word) {
    var syms := SymbolsOf(secs);
    && Resolvable(secs, kernel, syms) && init != 0
    && init == LastNamed(syms, Values(secs, base, kernel, syms), "module_init", |syms|)
    && cleanup == LastNamed(syms, Values(secs, base, kernel, syms), "module_cleanup", |syms|)
  }

  lemma OutcomeHooks(m: seq<Byte>, secs: Image, base: nat, kernel: map<string, Word>, init: Word, cleanup: Word)
    requires ImageOk(secs) && LinkOutcome(m, secs, base, kernel, Loaded, init, cleanup)
    ensures base < 0x1_0000_0000 && Hooks(secs, base, kernel, init, cleanup)
  {
    hide LinkedBlock, LastNamed;
  }

  method LinkBytes(mem: PhysMem, secs: Image, base: nat, kernel: map<string, Word>)
    returns (r: Outcome, init: Word, cleanup: Word)
    requires ImageOk(secs) && base + TotalSize(secs) <= |mem.ram| && base + TotalSize(secs) < 0x1_0000_0000
    modifies mem
    ensures |mem.ram| == old(|mem.ram|)
    ensures SameBytes(old(mem.ram), mem.ram, 0, base)
    ensures SameBytes(old(mem.ram), mem.ram, base + TotalSize(secs), |mem.ram|)
    ensures LinkOutcome(mem.ram, secs, base, kernel, r, init, cleanup)
    ensures r in {Loaded, NoSymtab, UndefinedSymbol, NoInit}
    ensures (r == Loaded || r == NoInit) && Disjoint(Fixups(secs, |SymbolsOf(secs)|, |secs|)) ==>
              AllAdjusted(mem.ram, secs, base, kernel)
  {
    hide Fixups, FixupsOk, BlockBytes, Offset, ContentsOk, TargetsOk, AddrsAt, LastNamed, Values, Resolvable;
    init, cleanup := 0, 0;
    var addrs := CopySections(mem, secs, base, TotalSize(secs));
    var symtab := FindSymtab(secs);
    if symtab == |secs| || secs[symtab].link >= |secs| {
      return NoSymtab, 0, 0;
    }
    var syms := secs[symtab].syms;
    var ok, values := ResolveSymbols(secs, base, addrs, kernel, syms);
    if !ok {
      return UndefinedSymbol, 0, 0;
    }
    Relocate(mem, secs, base, addrs, values, BlockBytes(secs, |secs|));
    init, cleanup := FindHooks(syms, values);
    r := if init == 0 then NoInit else Loaded;
    if Disjoint(Fixups(secs, |syms|, |secs|)) {
      OutcomeAdjusts(mem.ram, secs, base, kernel, r, init, cleanup);
    }
  }
}
