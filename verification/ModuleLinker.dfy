/** The linking part of the module loader as a function of image and load address:
    section layout, symbol values and i386 relocation. */
module ModuleLinker {
  import opened Bits
  import opened Memory
  import opened Options

  const SHT_SYMTAB: Word := 2
  const SHT_NOBITS: Word := 8
  const SHT_REL: Word := 9
  const R_386_32: Word := 1
  const R_386_PC32: Word := 2
  const R_386_16: Word := 4
  const R_386_8: Word := 5

  datatype Rel = Rel(offset: Word, sym: nat, kind: Word)

  /** `nameOff` is 0 for a symbol without a name. */
  datatype Symbol = Symbol(nameOff: Word, name: string, value: Word, shndx: nat)

  /** A section header with what it points to: file bytes, relocations or symbols. */
  datatype Section = Section(kind: Word, flags: Word, addr: Word, size: Word, link: nat, info: nat,
                             body: seq<Byte>, rels: seq<Rel>, syms: seq<Symbol>)
  {
    predicate Alloc() { Bit(flags, 1) }
  }

  type Image = seq<Section>

  // Layout

  /** Where section `i` starts in the module's block: the aligned sizes of the
      allocated sections before it. */
  function Offset(secs: Image, i: nat): nat
    requires i <= |secs|
  {
    if i == 0 then 0
    else Offset(secs, i - 1) + if secs[i - 1].Alloc() then AlignUp4(secs[i - 1].size) else 0
  }

  /** `module_calc_size` */
  function CalcSize(secs: Image): nat {
    Offset(secs, |secs|)
  }

  lemma {:induction false} OffsetMonotone(secs: Image, i: nat, j: nat)
    requires i <= j <= |secs|
    ensures Offset(secs, i) <= Offset(secs, j)
    decreases j
  {
    if i < j {
      OffsetMonotone(secs, i, j - 1);
    }
  }

  /** Allocated sections get disjoint ranges inside the block. */
  lemma LayoutDisjoint(secs: Image, i: nat, j: nat)
    requires i < |secs| && secs[i].Alloc() && secs[i].size <= 0xFFFF_FFFC
    ensures Offset(secs, i) + secs[i].size <= CalcSize(secs)
    ensures i < j < |secs| ==> Offset(secs, i) + secs[i].size <= Offset(secs, j)
  {
    OffsetMonotone(secs, i + 1, |secs|);
    if i < j < |secs| {
      OffsetMonotone(secs, i + 1, j);
    }
  }

  /** The layout is tight: flag 1 of the flags word decides whether a section gets a place, of
      its size rounded up to a multiple of four. */
  lemma LayoutTight(secs: Image, i: nat)
    requires i < |secs| && secs[i].size <= 0xFFFF_FFFC
    ensures Offset(secs, 0) == 0 && CalcSize(secs) == Offset(secs, |secs|)
    ensures var room := Offset(secs, i + 1) - Offset(secs, i);
            if secs[i].flags / 2 % 2 == 1 then room % 4 == 0 && secs[i].size <= room < secs[i].size + 4 else room == 0
  {
    hide AlignUp4;
    RoundedUp(secs[i].size);
    assert Bit(secs[i].flags, 1) == Bit(secs[i].flags / 2, 0);
  }

  lemma RoundedUp(size: Word)
    requires size <= 0xFFFF_FFFC
    ensures AlignUp4(size) % 4 == 0 && size <= AlignUp4(size) < size + 4
  {
  }

  function Zeros(n: nat): (z: seq<Byte>)
    ensures |z| == n
  {
    seq(n, _ => 0)
  }

  /** The bytes one allocated section contributes, padded to a multiple of four. */
  function SectionBytes(s: Section): (b: seq<Byte>)
    requires s.Alloc() ==> s.size <= 0xFFFF_FFFC && (s.kind != SHT_NOBITS ==> |s.body| == s.size)
    ensures |b| == if s.Alloc() then AlignUp4(s.size) else 0
  {
    if !s.Alloc() then []
    else if s.kind == SHT_NOBITS then Zeros(AlignUp4(s.size))
    else s.body + Zeros(AlignUp4(s.size) - s.size)
  }

  /** What the loader takes for granted of the section contents. */
  predicate ContentsOk(secs: Image) {
    && CalcSize(secs) < 0x1_0000_0000
    && forall i :: 0 <= i < |secs| && secs[i].Alloc() ==>
                     secs[i].size <= 0xFFFF_FFFC && (secs[i].kind != SHT_NOBITS ==> |secs[i].body| == secs[i].size)
  }

  /** The module's block before relocation, for the first `n` sections. */
  function BlockBytes(secs: Image, n: nat): (b: seq<Byte>)
    requires ContentsOk(secs) && n <= |secs|
    ensures |b| == Offset(secs, n)
  {
    if n == 0 then [] else BlockBytes(secs, n - 1) + SectionBytes(secs[n - 1])
  }

  lemma {:induction false} BlockPrefix(secs: Image, i: nat, n: nat)
    requires ContentsOk(secs) && i <= n <= |secs|
    ensures BlockBytes(secs, i) <= BlockBytes(secs, n)
    decreases n
  {
    hide SectionBytes;
    if i < n {
      BlockPrefix(secs, i, n - 1);
    }
  }

  /** Before relocation the block holds each allocated section's bytes at its offset, zeros
      for one without bits in the file. */
  lemma SectionInBlock(secs: Image, i: nat, x: nat)
    requires ContentsOk(secs) && i < |secs| && secs[i].flags / 2 % 2 == 1 && x < secs[i].size
    ensures Offset(secs, i) + x < CalcSize(secs)
    ensures secs[i].kind == 8 ==> BlockBytes(secs, |secs|)[Offset(secs, i) + x] == 0
    ensures secs[i].kind != 8 ==>
              x < |secs[i].body| && BlockBytes(secs, |secs|)[Offset(secs, i) + x] == secs[i].body[x]
  {
    assert secs[i].Alloc();
    LayoutDisjoint(secs, i, i);
    BlockPrefix(secs, i + 1, |secs|);
    assert BlockBytes(secs, i + 1)[Offset(secs, i) + x] == SectionBytes(secs[i])[x];
  }

  // Symbols

  /** The address given to section `i` of a module loaded at `base`. */
  function SectionAddr(secs: Image, base: Word, i: nat): Word
    requires i < |secs|
  {
    if secs[i].Alloc() then (base as int + Offset(secs, i)) % 0x1_0000_0000 else secs[i].addr
  }

  /** The final value of a symbol: section address plus offset for one defined in the
      image, the kernel's address for an undefined one. */
  function SymbolValue(secs: Image, base: Word, kernel: map<string, Word>, s: Symbol): Option<Word> {
    if s.shndx != 0 && s.shndx < |secs| then
      Some((SectionAddr(secs, base, s.shndx) as int + s.value as int) % 0x1_0000_0000)
    else if s.shndx == 0 && s.nameOff != 0 then
      if s.name in kernel then Some(kernel[s.name]) else None
    else Some(s.value)
  }

  /** A symbol of a loaded section points at the byte of that section at its offset. */
  lemma SymbolPoints(secs: Image, base: Word, kernel: map<string, Word>, s: Symbol)
    requires ContentsOk(secs) && base + CalcSize(secs) < 0x1_0000_0000
    requires 0 < s.shndx < |secs| && secs[s.shndx].flags / 2 % 2 == 1 && s.value < secs[s.shndx].size
    ensures SymbolValue(secs, base, kernel, s).Some?
    ensures var a := SymbolValue(secs, base, kernel, s).value;
            && base <= a < base + CalcSize(secs)
            && (secs[s.shndx].kind == 8 ==> BlockBytes(secs, |secs|)[a - base] == 0)
            && (secs[s.shndx].kind != 8 ==>
                  s.value < |secs[s.shndx].body| && BlockBytes(secs, |secs|)[a - base] == secs[s.shndx].body[s.value])
  {
    hide BlockBytes, ContentsOk;
    SectionInBlock(secs, s.shndx, s.value);
  }

  /** A named symbol of no section is the kernel's, any other one keeps its own value; one of a
      section that is not loaded counts from the address in that section's header. */
  lemma SymbolElsewhere(secs: Image, base: Word, kernel: map<string, Word>, s: Symbol)
    requires 0 < s.shndx < |secs| ==> secs[s.shndx].flags / 2 % 2 == 0
    ensures SymbolValue(secs, base, kernel, s)
            == if 0 < s.shndx < |secs| then Some((secs[s.shndx].addr + s.value) % 0x1_0000_0000)
               else if s.shndx != 0 || s.nameOff == 0 then Some(s.value)
               else if s.name in kernel then Some(kernel[s.name]) else None
  {
  }

  /** Whether a symbol moves with the module. */
  predicate Internal(secs: Image, s: Symbol) {
    s.shndx != 0 && s.shndx < |secs| && secs[s.shndx].Alloc()
  }

  predicate Resolvable(secs: Image, kernel: map<string, Word>, syms: seq<Symbol>) {
    forall i :: 0 <= i < |syms| ==> SymbolValue(secs, 0, kernel, syms[i]).Some?
  }

  /** All symbols get a value if and only if the kernel knows every named one that no section
      defines. */
  lemma ResolvableIs(secs: Image, kernel: map<string, Word>, syms: seq<Symbol>)
    ensures Resolvable(secs, kernel, syms) <==>
            forall i :: 0 <= i < |syms| && syms[i].shndx == 0 && syms[i].nameOff != 0 ==> syms[i].name in kernel
  {
    forall i | 0 <= i < |syms|
      ensures SymbolValue(secs, 0, kernel, syms[i]).Some?
              <==> (syms[i].shndx == 0 && syms[i].nameOff != 0 ==> syms[i].name in kernel)
    {
    }
  }

  // Relocation

  /** `256^w` */
  function Radix(w: nat): (r: nat)
    ensures r > 0
  {
    if w == 0 then 1 else 0x100 * Radix(w - 1)
  }

  function ToBytes(v: nat, w: nat): (b: seq<Byte>)
    ensures |b| == w
    decreases w
  {
    if w == 0 then [] else [v % 0x100] + ToBytes(v / 0x100, w - 1)
  }

  lemma {:induction false} BytesRoundTrip(v: nat, w: nat)
    requires v < Radix(w)
    ensures FromBytes(ToBytes(v, w)) == v
    decreases w
  {
    if w > 0 {
      BytesRoundTrip(v / 0x100, w - 1);
      assert ToBytes(v, w)[1..] == ToBytes(v / 0x100, w - 1);
    }
  }

  lemma {:induction false} BytesBound(s: seq<Byte>)
    ensures FromBytes(s) < Radix(|s|)
  {
    if s != [] {
      BytesBound(s[1..]);
    }
  }

  /** Equally many bytes with the same value are the same bytes. */
  lemma {:induction false} BytesInjective(a: seq<Byte>, b: seq<Byte>)
    requires |a| == |b| && FromBytes(a) == FromBytes(b)
    ensures a == b
    decreases |a|
  {
    if a != [] {
      BytesInjective(a[1..], b[1..]);
      assert a == [a[0]] + a[1..] && b == [b[0]] + b[1..];
    }
  }

  /** The number in the `w` bytes at `site`. */
  function Field(bytes: seq<Byte>, site: nat, w: nat): nat
    requires site + w <= |bytes|
  {
    FromBytes(bytes[site..site + w])
  }

  function Patch(bytes: seq<Byte>, site: nat, w: nat, v: nat): (r: seq<Byte>)
    requires site + w <= |bytes|
    ensures |r| == |bytes|
  {
    bytes[..site] + ToBytes(v, w) + bytes[site + w..]
  }

  /** Bytes the relocation types change; other types change none. */
  function Width(kind: Word): nat {
    if kind == R_386_32 || kind == R_386_PC32 then 4
    else if kind == R_386_16 then 2
    else if kind == R_386_8 then 1
    else 0
  }

  /** What is added at address `p` for a symbol of value `s`. */
  function Addend(kind: Word, s: Word, p: nat): int {
    if kind == R_386_PC32 then s as int - p as int else s
  }

  /** A relocation of the image: the place in the block and the symbol it names. */
  datatype Fixup = Fixup(kind: Word, site: nat, sym: nat)

  /** The value a field gets: its own plus S or S - P, on its width. */
  function Relocated(bytes: seq<Byte>, base: Word, values: seq<Word>, f: Fixup): (v: nat)
    requires f.sym < |values| && f.site + Width(f.kind) <= |bytes|
  {
    var w := Width(f.kind);
    (Field(bytes, f.site, w) + Addend(f.kind, values[f.sym], base + f.site)) % Radix(w)
  }

  function Apply(bytes: seq<Byte>, base: Word, values: seq<Word>, f: Fixup): (r: seq<Byte>)
    requires f.sym < |values| && f.site + Width(f.kind) <= |bytes|
    ensures |r| == |bytes|
  {
    Patch(bytes, f.site, Width(f.kind), Relocated(bytes, base, values, f))
  }

  predicate FixupOk(f: Fixup, len: nat, nsyms: nat) {
    f.sym < nsyms && f.site + Width(f.kind) <= len
  }

  predicate FixupsOk(fs: seq<Fixup>, len: nat, nsyms: nat) {
    forall k :: 0 <= k < |fs| ==> FixupOk(fs[k], len, nsyms)
  }

  /** Applies the first `n` relocations in order. */
  function ApplyFirst(bytes: seq<Byte>, base: Word, values: seq<Word>, fs: seq<Fixup>, n: nat): (r: seq<Byte>)
    requires n <= |fs| && FixupsOk(fs, |bytes|, |values|)
    ensures |r| == |bytes|
    decreases n
  {
    if n == 0 then bytes
    else
      assert FixupOk(fs[n - 1], |bytes|, |values|);
      Apply(ApplyFirst(bytes, base, values, fs, n - 1), base, values, fs[n - 1])
  }

  predicate SitesApart(f: Fixup, g: Fixup) {
    f.site + Width(f.kind) <= g.site || g.site + Width(g.kind) <= f.site
  }

  predicate Disjoint(fs: seq<Fixup>) {
    forall i, j :: 0 <= i < j < |fs| ==> SitesApart(fs[i], fs[j])
  }

  predicate Touches(f: Fixup, i: nat) {
    f.site <= i < f.site + Width(f.kind)
  }

  /** Applying one relocation changes only its own bytes and makes its field the sum. */
  lemma ApplyOne(bytes: seq<Byte>, base: Word, values: seq<Word>, f: Fixup)
    requires FixupOk(f, |bytes|, |values|)
    ensures forall i :: 0 <= i < |bytes| && !Touches(f, i) ==> Apply(bytes, base, values, f)[i] == bytes[i]
    ensures Field(Apply(bytes, base, values, f), f.site, Width(f.kind)) == Relocated(bytes, base, values, f)
  {
    var w, v := Width(f.kind), Relocated(bytes, base, values, f);
    BytesRoundTrip(v, w);
    assert Apply(bytes, base, values, f)[f.site..f.site + w] == ToBytes(v, w);
  }

  lemma {:induction false} Untouched(bytes: seq<Byte>, base: Word, values: seq<Word>, fs: seq<Fixup>, n: nat, i: nat)
    requires n <= |fs| && FixupsOk(fs, |bytes|, |values|) && i < |bytes|
    requires forall k :: 0 <= k < n ==> !Touches(fs[k], i)
    ensures ApplyFirst(bytes, base, values, fs, n)[i] == bytes[i]
    decreases n
  {
    if n > 0 {
      assert FixupOk(fs[n - 1], |bytes|, |values|);
      Untouched(bytes, base, values, fs, n - 1, i);
      ApplyOne(ApplyFirst(bytes, base, values, fs, n - 1), base, values, fs[n - 1]);
    }
  }

  lemma SameField(a: seq<Byte>, b: seq<Byte>, f: Fixup)
    requires |a| == |b| && f.site + Width(f.kind) <= |a|
    requires forall i :: 0 <= i < |a| && Touches(f, i) ==> a[i] == b[i]
    ensures Field(a, f.site, Width(f.kind)) == Field(b, f.site, Width(f.kind))
  {
    var from, to := f.site, f.site + Width(f.kind);
    forall i | from <= i < to ensures a[i] == b[i] {
      assert Touches(f, i);
    }
    assert a[from..to] == b[from..to];
  }

  /** The relocations before number `k` leave its field as the file has it. */
  lemma FieldUntouched(bytes: seq<Byte>, base: Word, values: seq<Word>, fs: seq<Fixup>, k: nat)
    requires k < |fs| && FixupsOk(fs, |bytes|, |values|) && FixupOk(fs[k], |bytes|, |values|) && Disjoint(fs)
    ensures Relocated(ApplyFirst(bytes, base, values, fs, k), base, values, fs[k])
            == Relocated(bytes, base, values, fs[k])
  {
    hide Field, Apply, Addend, Radix, Width;
    var f, before := fs[k], ApplyFirst(bytes, base, values, fs, k);
    forall i | 0 <= i < |bytes| && Touches(f, i) ensures before[i] == bytes[i] {
      forall j | 0 <= j < k ensures !Touches(fs[j], i) {
        assert SitesApart(fs[j], f);
      }
      Untouched(bytes, base, values, fs, k, i);
    }
    SameField(before, bytes, f);
  }

  /** What relocation means: with disjoint sites, each field ends as its value in the
      file plus S, or plus S - P for a PC-relative one, on its own width. */
  lemma {:induction false} RelocationMeaning(bytes: seq<Byte>, base: Word, values: seq<Word>, fs: seq<Fixup>, n: nat,
                                             k: nat)
    requires k < n <= |fs| && FixupsOk(fs, |bytes|, |values|) && Disjoint(fs)
    ensures FixupOk(fs[k], |bytes|, |values|)
    ensures Field(ApplyFirst(bytes, base, values, fs, n), fs[k].site, Width(fs[k].kind))
            == Relocated(bytes, base, values, fs[k])
    decreases n
  {
    hide Field, Apply, Relocated, Width, ApplyFirst;
    assert FixupOk(fs[k], |bytes|, |values|);
    if k == n - 1 {
      LastApplied(bytes, base, values, fs, k);
    } else {
      RelocationMeaning(bytes, base, values, fs, n - 1, k);
      LaterKept(bytes, base, values, fs, n - 1, k);
    }
  }

  lemma LastApplied(bytes: seq<Byte>, base: Word, values: seq<Word>, fs: seq<Fixup>, k: nat)
    requires k < |fs| && FixupsOk(fs, |bytes|, |values|) && FixupOk(fs[k], |bytes|, |values|) && Disjoint(fs)
    ensures Field(ApplyFirst(bytes, base, values, fs, k + 1), fs[k].site, Width(fs[k].kind))
            == Relocated(bytes, base, values, fs[k])
  {
    hide Field, Apply, Relocated, Width;
    ApplyOne(ApplyFirst(bytes, base, values, fs, k), base, values, fs[k]);
    FieldUntouched(bytes, base, values, fs, k);
  }

  lemma LaterKept(bytes: seq<Byte>, base: Word, values: seq<Word>, fs: seq<Fixup>, n: nat, k: nat)
    requires k < n < |fs| && FixupsOk(fs, |bytes|, |values|) && FixupOk(fs[k], |bytes|, |values|) && Disjoint(fs)
    ensures Field(ApplyFirst(bytes, base, values, fs, n + 1), fs[k].site, Width(fs[k].kind))
            == Field(ApplyFirst(bytes, base, values, fs, n), fs[k].site, Width(fs[k].kind))
  {
    hide Field, Apply, Width;
    assert FixupOk(fs[n], |bytes|, |values|) && SitesApart(fs[k], fs[n]);
    OtherFieldKept(ApplyFirst(bytes, base, values, fs, n), base, values, fs[k], fs[n]);
  }

  lemma OtherFieldKept(bytes: seq<Byte>, base: Word, values: seq<Word>, f: Fixup, g: Fixup)
    requires FixupOk(f, |bytes|, |values|) && FixupOk(g, |bytes|, |values|) && SitesApart(f, g)
    ensures Field(Apply(bytes, base, values, g), f.site, Width(f.kind)) == Field(bytes, f.site, Width(f.kind))
  {
    ApplyOne(bytes, base, values, g);
    hide Field, Apply, Width;
    SameField(Apply(bytes, base, values, g), bytes, f);
  }

  /** The bytes a relocation of each type changes: four for types 1 and 2, two for 4, one
      for 5. */
  predicate Changes(f: Fixup, i: nat) {
    || ((f.kind == 1 || f.kind == 2) && f.site <= i < f.site + 4)
    || (f.kind == 4 && f.site <= i < f.site + 2)
    || (f.kind == 5 && i == f.site)
  }

  /** What becomes of the place of one relocation for a symbol of value `s`: on 32 bits the
      word plus S, or plus S - P, on 16 bits the half word plus S, on 8 bits the byte plus S. */
  ghost predicate FieldAdjusted(before: seq<Byte>, after: seq<Byte>, base: Word, f: Fixup, s: Word)
    requires |after| == |before|
  {
    && (f.kind == 1 || f.kind == 2 ==> f.site + 4 <= |before|)
    && (f.kind == 1 ==> Load32(after, f.site) == (Load32(before, f.site) + s) % 0x1_0000_0000)
    && (f.kind == 2 ==>
          Load32(after, f.site) == (Load32(before, f.site) + s - (base + f.site)) % 0x1_0000_0000)
    && (f.kind == 4 ==>
          f.site + 2 <= |before| && Load16(after, f.site) == (Load16(before, f.site) + s) % 0x1_0000)
    && (f.kind == 5 ==> f.site + 1 <= |before| && after[f.site] == (before[f.site] + s) % 0x100)
  }

  /** With disjoint sites every relocation adjusts its place from what the file has there, and
      every other byte stays. */
  lemma FieldsAdjusted(bytes: seq<Byte>, base: Word, values: seq<Word>, fs: seq<Fixup>, k: nat)
    requires FixupsOk(fs, |bytes|, |values|) && Disjoint(fs) && k < |fs|
    ensures fs[k].sym < |values|
    ensures FieldAdjusted(bytes, ApplyFirst(bytes, base, values, fs, |fs|), base, fs[k], values[fs[k].sym])
  {
    RelocationMeaning(bytes, base, values, fs, |fs|, k);
    hide ApplyFirst, Field, Relocated, FieldAdjusted, Disjoint;
    AdjustedBy(bytes, ApplyFirst(bytes, base, values, fs, |fs|), base, values, fs[k]);
  }

  lemma AdjustedBy(before: seq<Byte>, after: seq<Byte>, base: Word, values: seq<Word>, f: Fixup)
    requires |after| == |before| && FixupOk(f, |before|, |values|)
    requires Field(after, f.site, Width(f.kind)) == Relocated(before, base, values, f)
    ensures FieldAdjusted(before, after, base, f, values[f.sym])
  {
    hide Field, Radix;
    Radices();
    if Width(f.kind) == 4 {
      LongField(before, f.site);
      LongField(after, f.site);
    } else if Width(f.kind) == 2 {
      ShortField(before, f.site);
      ShortField(after, f.site);
    } else if Width(f.kind) == 1 {
      OneByteField(before, f.site);
      OneByteField(after, f.site);
    }
  }

  lemma LongField(bytes: seq<Byte>, site: nat)
    requires site + 4 <= |bytes|
    ensures Field(bytes, site, 4) == Load32(bytes, site)
  {
  }

  lemma ShortField(bytes: seq<Byte>, site: nat)
    requires site + 2 <= |bytes|
    ensures Field(bytes, site, 2) == Load16(bytes, site)
  {
  }

  lemma Radices()
    ensures Radix(1) == 0x100 && Radix(2) == 0x1_0000 && Radix(4) == 0x1_0000_0000
  {
  }

  lemma OneByteField(bytes: seq<Byte>, site: nat)
    requires site < |bytes|
    ensures Field(bytes, site, 1) == bytes[site]
  {
    assert bytes[site..site + 1] == [bytes[site]];
    assert FromBytes([bytes[site]]) == bytes[site];
  }

  lemma OthersUnchanged(bytes: seq<Byte>, base: Word, values: seq<Word>, fs: seq<Fixup>, i: nat)
    requires FixupsOk(fs, |bytes|, |values|) && i < |bytes|
    requires forall k :: 0 <= k < |fs| ==> !Changes(fs[k], i)
    ensures ApplyFirst(bytes, base, values, fs, |fs|)[i] == bytes[i]
  {
    forall k | 0 <= k < |fs|
      ensures !Touches(fs[k], i)
    {
      assert !Changes(fs[k], i);
    }
    Untouched(bytes, base, values, fs, |fs|, i);
  }

  // Relocations of an image

  /** The relocations among the first `n` of `rels` against section `target`; entries
      that name no symbol are skipped. */
  function RelFixups(secs: Image, target: nat, rels: seq<Rel>, nsyms: nat, n: nat): seq<Fixup>
    requires target < |secs| && n <= |rels|
  {
    if n == 0 then []
    else
      var r := rels[n - 1];
      RelFixups(secs, target, rels, nsyms, n - 1)
      + if r.sym < nsyms then [Fixup(r.kind, Offset(secs, target) + r.offset, r.sym)] else []
  }

  function SectionFixups(secs: Image, i: nat, nsyms: nat): seq<Fixup>
    requires i < |secs|
  {
    if secs[i].kind == SHT_REL && secs[i].info < |secs| then
      RelFixups(secs, secs[i].info, secs[i].rels, nsyms, |secs[i].rels|)
    else []
  }

  /** The relocations of the first `n` sections, in the order they are applied. */
  function Fixups(secs: Image, nsyms: nat, n: nat): seq<Fixup>
    requires n <= |secs|
  {
    if n == 0 then [] else Fixups(secs, nsyms, n - 1) + SectionFixups(secs, n - 1, nsyms)
  }

  lemma {:induction false} FixupsPrefix(secs: Image, nsyms: nat, i: nat, n: nat)
    requires i <= n <= |secs|
    ensures Fixups(secs, nsyms, i) <= Fixups(secs, nsyms, n)
    decreases n
  {
    hide SectionFixups;
    if i < n {
      FixupsPrefix(secs, nsyms, i, n - 1);
    }
  }

  lemma {:induction false} RelFixupsPrefix(secs: Image, target: nat, rels: seq<Rel>, nsyms: nat, r: nat, n: nat)
    requires target < |secs| && r <= n <= |rels|
    ensures RelFixups(secs, target, rels, nsyms, r) <= RelFixups(secs, target, rels, nsyms, n)
    decreases n
  {
    if r < n {
      RelFixupsPrefix(secs, target, rels, nsyms, r, n - 1);
    }
  }

  /** Every entry of a relocation section that names a symbol is among the relocations. */
  lemma RelocationListed(secs: Image, nsyms: nat, i: nat, j: nat) returns (k: nat)
    requires i < |secs| && secs[i].kind == 9 && secs[i].info < |secs|
    requires j < |secs[i].rels| && secs[i].rels[j].sym < nsyms
    ensures var r := secs[i].rels[j];
            && k < |Fixups(secs, nsyms, |secs|)|
            && Fixups(secs, nsyms, |secs|)[k] == Fixup(r.kind, Offset(secs, secs[i].info) + r.offset, r.sym)
  {
    var rels, t := secs[i].rels, secs[i].info;
    FixupsPrefix(secs, nsyms, i + 1, |secs|);
    RelFixupsPrefix(secs, t, rels, nsyms, j + 1, |rels|);
    k := |Fixups(secs, nsyms, i)| + |RelFixups(secs, t, rels, nsyms, j)|;
    assert RelFixups(secs, t, rels, nsyms, j + 1)[|RelFixups(secs, t, rels, nsyms, j)|]
        == Fixup(rels[j].kind, Offset(secs, t) + rels[j].offset, rels[j].sym);
    assert Fixups(secs, nsyms, i + 1) == Fixups(secs, nsyms, i) + RelFixups(secs, t, rels, nsyms, |rels|);
  }

  function Values(secs: Image, base: Word, kernel: map<string, Word>, syms: seq<Symbol>): (v: seq<Word>)
    requires Resolvable(secs, kernel, syms)
    ensures |v| == |syms|
  {
    seq(|syms|, i requires 0 <= i < |syms| =>
      assert SymbolValue(secs, 0, kernel, syms[i]).Some?;
      SymbolValue(secs, base, kernel, syms[i]).value)
  }

  /** The block of the module loaded and linked at `base`. */
  function LinkedBlock(secs: Image, base: Word, kernel: map<string, Word>, syms: seq<Symbol>): (b: seq<Byte>)
    requires ContentsOk(secs) && Resolvable(secs, kernel, syms)
    requires FixupsOk(Fixups(secs, |syms|, |secs|), CalcSize(secs), |syms|)
    ensures |b| == CalcSize(secs)
  {
    var fs := Fixups(secs, |syms|, |secs|);
    ApplyFirst(BlockBytes(secs, |secs|), base, Values(secs, base, kernel, syms), fs, |fs|)
  }

  /** Entry `j` of relocation section `i` names a symbol and acts on a loaded section with
      bytes in the file. */
  predicate Acts(secs: Image, nsyms: nat, i: nat, j: nat) {
    && i < |secs| && secs[i].kind == 9 && secs[i].info < |secs|
    && j < |secs[i].rels| && secs[i].rels[j].sym < nsyms
    && secs[secs[i].info].flags / 2 % 2 == 1 && secs[secs[i].info].kind != 8
  }

  /** At `at` in memory stands what the relocation makes of offset `o` of the section `body`
      for a symbol of value `s`. */
  ghost predicate Adjusted(m: seq<Byte>, at: nat, body: seq<Byte>, o: nat, kind: Word, s: Word) {
    && (kind == 1 && o + 4 <= |body| ==>
          at + 4 <= |m| && Load32(m, at) == (Load32(body, o) + s) % 0x1_0000_0000)
    && (kind == 2 && o + 4 <= |body| ==>
          at + 4 <= |m| && Load32(m, at) == (Load32(body, o) + s - at) % 0x1_0000_0000)
    && (kind == 4 && o + 2 <= |body| ==>
          at + 2 <= |m| && Load16(m, at) == (Load16(body, o) + s) % 0x1_0000)
    && (kind == 5 && o < |body| ==> at < |m| && m[at] == (body[o] + s) % 0x100)
  }

  ghost predicate AdjustedAt(m: seq<Byte>, secs: Image, base: Word, kernel: map<string, Word>, syms: seq<Symbol>,
                             i: nat, j: nat)
    requires Acts(secs, |syms|, i, j)
  {
    var r, t := secs[i].rels[j], secs[i].info;
    && SymbolValue(secs, base, kernel, syms[r.sym]).Some?
    && Adjusted(m, base + Offset(secs, t) + r.offset, secs[t].body, r.offset, r.kind,
                SymbolValue(secs, base, kernel, syms[r.sym]).value)
  }

  /** Every relocation of a linked image that lies wholly in `memory` from `base` on. */
  lemma LinkedAdjusted(memory: seq<Byte>, secs: Image, base: Word, kernel: map<string, Word>, syms: seq<Symbol>,
                       i: nat, j: nat)
    requires ContentsOk(secs) && Resolvable(secs, kernel, syms)
    requires FixupsOk(Fixups(secs, |syms|, |secs|), CalcSize(secs), |syms|) && Disjoint(Fixups(secs, |syms|, |secs|))
    requires base + CalcSize(secs) <= |memory|
    requires memory[base..base + CalcSize(secs)] == LinkedBlock(secs, base, kernel, syms)
    requires Acts(secs, |syms|, i, j)
    ensures AdjustedAt(memory, secs, base, kernel, syms, i, j)
  {
    hide BlockBytes, ContentsOk, Fixups, FixupsOk, Disjoint, ApplyFirst, Offset, FieldAdjusted, Adjusted, SymbolValue;
    var r, t := secs[i].rels[j], secs[i].info;
    var fs, values := Fixups(secs, |syms|, |secs|), Values(secs, base, kernel, syms);
    var k := RelocationListed(secs, |syms|, i, j);
    FieldsAdjusted(BlockBytes(secs, |secs|), base, values, fs, k);
    ValueOf(secs, base, kernel, syms, r.sym);
    PlacedField(memory, secs, base, LinkedBlock(secs, base, kernel, syms), t, r.offset, fs[k], values[r.sym]);
  }

  lemma ValueOf(secs: Image, base: Word, kernel: map<string, Word>, syms: seq<Symbol>, n: nat)
    requires Resolvable(secs, kernel, syms) && n < |syms|
    ensures SymbolValue(secs, base, kernel, syms[n]) == Some(Values(secs, base, kernel, syms)[n])
  {
    assert SymbolValue(secs, 0, kernel, syms[n]).Some?;
  }

  /** A field adjusted in the block, seen in memory and against the section it came from. */
  lemma PlacedField(m: seq<Byte>, secs: Image, base: Word, block: seq<Byte>, t: nat, o: nat, f: Fixup, s: Word)
    requires ContentsOk(secs) && t < |secs| && secs[t].flags / 2 % 2 == 1 && secs[t].kind != 8
    requires |block| == CalcSize(secs) && base + |block| <= |m| && m[base..base + |block|] == block
    requires f.site == Offset(secs, t) + o && FieldAdjusted(BlockBytes(secs, |secs|), block, base, f, s)
    ensures Adjusted(m, base + f.site, secs[t].body, o, f.kind, s)
  {
    hide BlockBytes, Offset, FromBytes;
    var before, body := BlockBytes(secs, |secs|), secs[t].body;
    assert |body| == secs[t].size by {
      assert secs[t].Alloc();
    }
    forall x | 0 <= x < |body|
      ensures Offset(secs, t) + x < |before| && before[Offset(secs, t) + x] == body[x]
    {
      SectionInBlock(secs, t, x);
    }
    if (f.kind == 1 || f.kind == 2) && o + 4 <= |body| {
      assert before[f.site..f.site + 4] == body[o..o + 4];
      SliceOfSlice(m, base, block, f.site, f.site + 4);
    } else if f.kind == 4 && o + 2 <= |body| {
      assert before[f.site..f.site + 2] == body[o..o + 2];
      SliceOfSlice(m, base, block, f.site, f.site + 2);
    }
  }

  lemma SliceOfSlice(m: seq<Byte>, base: nat, block: seq<Byte>, x: nat, y: nat)
    requires base + |block| <= |m| && m[base..base + |block|] == block && x <= y <= |block|
    ensures block[x..y] == m[base + x..base + y]
  {
    var a, b := block[x..y], m[base + x..base + y];
    forall i | 0 <= i < y - x
      ensures a[i] == b[i]
    {
      assert m[base..base + |block|][x + i] == m[base + x + i];
    }
    assert a == b;
  }

  // Moving the base

  /** By how many times the distance a field moves with the module: once for a symbol
      of the module, once less for a PC-relative field. */
  function Moves(secs: Image, syms: seq<Symbol>, f: Fixup): int
    requires f.sym < |syms|
  {
    (if Internal(secs, syms[f.sym]) then 1 else 0) - (if f.kind == R_386_PC32 then 1 else 0)
  }

  /** A symbol's value moves by the distance, modulo 2^32, or not at all. */
  lemma ValueShift(secs: Image, b1: Word, b2: Word, kernel: map<string, Word>, s: Symbol) returns (q: int)
    requires SymbolValue(secs, b1, kernel, s).Some?
    ensures SymbolValue(secs, b2, kernel, s).Some?
    ensures SymbolValue(secs, b2, kernel, s).value as int
            == SymbolValue(secs, b1, kernel, s).value as int
               + (if Internal(secs, s) then b2 as int - b1 as int else 0) + q * 0x1_0000_0000
  {
    if Internal(secs, s) {
      var x1 := b1 as int + Offset(secs, s.shndx);
      var x2 := b2 as int + Offset(secs, s.shndx);
      var y1 := x1 % 0x1_0000_0000 + s.value as int;
      var y2 := x2 % 0x1_0000_0000 + s.value as int;
      q := x1 / 0x1_0000_0000 + y1 / 0x1_0000_0000 - x2 / 0x1_0000_0000 - y2 / 0x1_0000_0000;
    } else {
      q := 0;
    }
  }

  lemma ModShift(y: int, n: int, r: nat)
    requires r > 0
    ensures (y + n * r) % r == y % r
  {
    var q := y / r;
    assert (q + n) * r == q * r + n * r;
    SameQuotient(r, (y + n * r) / r, (y + n * r) % r, q + n, y % r);
  }

  /** Every radix in use divides 2^32. */
  lemma RadixDivides(kind: Word) returns (c: nat)
    ensures c * Radix(Width(kind)) == 0x1_0000_0000
  {
    var w := Width(kind);
    assert Radix(0) == 1 && Radix(1) == 0x100 && Radix(2) == 0x1_0000;
    assert Radix(4) == 0x1_0000_0000;
    c := if w == 4 then 1 else if w == 2 then 0x1_0000 else if w == 1 then 0x100_0000 else 0x1_0000_0000;
  }

  lemma SumShift(kind: Word, x: int, d: int, q: int)
    ensures (x % Radix(Width(kind)) + d) % Radix(Width(kind)) == (x + d + q * 0x1_0000_0000) % Radix(Width(kind))
  {
    var r := Radix(Width(kind));
    var c := RadixDivides(kind);
    ModShift(x % r + d, x / r, r);
    ModShift(x + d, q * c, r);
    assert q * c * r == q * (c * r);
  }

  lemma AddendShift(kind: Word, v1: Word, v2: Word, b1: Word, b2: Word, site: nat, inside: bool, q: int)
    requires v2 as int == v1 as int + (if inside then b2 as int - b1 as int else 0) + q * 0x1_0000_0000
    ensures Addend(kind, v2, b2 + site)
            == Addend(kind, v1, b1 + site)
               + ((if inside then 1 else 0) - (if kind == R_386_PC32 then 1 else 0)) * (b2 as int - b1 as int)
               + q * 0x1_0000_0000
  {
  }

  lemma FieldShift(secs: Image, b1: Word, b2: Word, kernel: map<string, Word>, syms: seq<Symbol>, bytes: seq<Byte>,
                   f: Fixup)
    requires Resolvable(secs, kernel, syms) && FixupOk(f, |bytes|, |syms|)
    ensures Relocated(bytes, b2, Values(secs, b2, kernel, syms), f)
            == (Relocated(bytes, b1, Values(secs, b1, kernel, syms), f)
                + Moves(secs, syms, f) * (b2 as int - b1 as int))
               % Radix(Width(f.kind))
  {
    hide Field, Offset, ContentsOk, Addend, Radix, Width, Internal;
    var s := syms[f.sym];
    assert SymbolValue(secs, 0, kernel, s).Some?;
    var q := ValueShift(secs, b1, b2, kernel, s);
    var v1, v2 := SymbolValue(secs, b1, kernel, s).value, SymbolValue(secs, b2, kernel, s).value;
    assert Values(secs, b1, kernel, syms)[f.sym] == v1 && Values(secs, b2, kernel, syms)[f.sym] == v2;
    AddendShift(f.kind, v1, v2, b1, b2, f.site, Internal(secs, s), q);
    SumShift(f.kind, Field(bytes, f.site, Width(f.kind)) + Addend(f.kind, v1, b1 + f.site),
             Moves(secs, syms, f) * (b2 as int - b1 as int), q);
  }

  ghost predicate Shifted(a: seq<Byte>, b: seq<Byte>, f: Fixup, d: int)
    requires f.site + Width(f.kind) <= |a| && f.site + Width(f.kind) <= |b|
  {
    Field(b, f.site, Width(f.kind)) == (Field(a, f.site, Width(f.kind)) + d) % Radix(Width(f.kind))
  }

  /** Loading the same image at two bases: each relocated field differs by the distance
      times `Moves`, on its width; a byte in no moving field is the same. */
  lemma BaseShift(secs: Image, b1: Word, b2: Word, kernel: map<string, Word>, syms: seq<Symbol>)
    requires ContentsOk(secs) && Resolvable(secs, kernel, syms)
    requires FixupsOk(Fixups(secs, |syms|, |secs|), CalcSize(secs), |syms|) && Disjoint(Fixups(secs, |syms|, |secs|))
    ensures var fs := Fixups(secs, |syms|, |secs|);
            && (forall k :: 0 <= k < |fs| ==>
                  FixupOk(fs[k], CalcSize(secs), |syms|)
                  && Shifted(LinkedBlock(secs, b1, kernel, syms), LinkedBlock(secs, b2, kernel, syms), fs[k],
                             Moves(secs, syms, fs[k]) * (b2 as int - b1 as int)))
            && (forall i :: 0 <= i < CalcSize(secs) && Steady(secs, syms, fs, i) ==>
                              LinkedBlock(secs, b2, kernel, syms)[i] == LinkedBlock(secs, b1, kernel, syms)[i])
  {
    hide Relocated, Fixups, BlockBytes, ApplyFirst, Values, Disjoint, ContentsOk, Moves, Field, Resolvable, Offset,
         Radix, Shifted, LinkedBlock, Steady;
    var fs := Fixups(secs, |syms|, |secs|);
    forall k | 0 <= k < |fs|
      ensures FixupOk(fs[k], CalcSize(secs), |syms|)
      ensures Shifted(LinkedBlock(secs, b1, kernel, syms), LinkedBlock(secs, b2, kernel, syms), fs[k],
                      Moves(secs, syms, fs[k]) * (b2 as int - b1 as int))
    {
      ShiftAt(secs, b1, b2, kernel, syms, k);
    }
    forall i | 0 <= i < CalcSize(secs) && Steady(secs, syms, fs, i)
      ensures LinkedBlock(secs, b2, kernel, syms)[i] == LinkedBlock(secs, b1, kernel, syms)[i]
    {
      SteadyByte(secs, b1, b2, kernel, syms, i);
    }
  }

  /** No relocation that moves with the module touches byte `i`. */
  ghost predicate Steady(secs: Image, syms: seq<Symbol>, fs: seq<Fixup>, i: nat)
    requires FixupsOk(fs, CalcSize(secs), |syms|)
  {
    forall k :: 0 <= k < |fs| ==> StillFor(secs, syms, fs[k], i)
  }

  ghost predicate StillFor(secs: Image, syms: seq<Symbol>, f: Fixup, i: nat) {
    f.sym < |syms| && (Touches(f, i) ==> Moves(secs, syms, f) == 0)
  }

  lemma ShiftAt(secs: Image, b1: Word, b2: Word, kernel: map<string, Word>, syms: seq<Symbol>, k: nat)
    requires ContentsOk(secs) && Resolvable(secs, kernel, syms)
    requires FixupsOk(Fixups(secs, |syms|, |secs|), CalcSize(secs), |syms|) && Disjoint(Fixups(secs, |syms|, |secs|))
    requires k < |Fixups(secs, |syms|, |secs|)|
    ensures var f := Fixups(secs, |syms|, |secs|)[k];
            FixupOk(f, CalcSize(secs), |syms|)
            && Shifted(LinkedBlock(secs, b1, kernel, syms), LinkedBlock(secs, b2, kernel, syms), f,
                       Moves(secs, syms, f) * (b2 as int - b1 as int))
  {
    hide Relocated, Fixups, BlockBytes, ApplyFirst, Values, Disjoint, ContentsOk, FixupsOk, Moves, Field, Resolvable,
         Offset, Radix;
    var fs := Fixups(secs, |syms|, |secs|);
    var bytes := BlockBytes(secs, |secs|);
    RelocationMeaning(bytes, b1, Values(secs, b1, kernel, syms), fs, |fs|, k);
    RelocationMeaning(bytes, b2, Values(secs, b2, kernel, syms), fs, |fs|, k);
    FieldShift(secs, b1, b2, kernel, syms, bytes, fs[k]);
  }

  lemma SteadyByte(secs: Image, b1: Word, b2: Word, kernel: map<string, Word>, syms: seq<Symbol>, i: nat)
    requires ContentsOk(secs) && Resolvable(secs, kernel, syms)
    requires FixupsOk(Fixups(secs, |syms|, |secs|), CalcSize(secs), |syms|) && Disjoint(Fixups(secs, |syms|, |secs|))
    requires i < CalcSize(secs) && Steady(secs, syms, Fixups(secs, |syms|, |secs|), i)
    ensures LinkedBlock(secs, b2, kernel, syms)[i] == LinkedBlock(secs, b1, kernel, syms)[i]
  {
    hide Relocated, Fixups, BlockBytes, ApplyFirst, Values, Disjoint, ContentsOk, FixupsOk, Moves, Field, Resolvable,
         Offset, Radix, Shifted;
    var fs := Fixups(secs, |syms|, |secs|);
    var bytes := BlockBytes(secs, |secs|);
    if k :| 0 <= k < |fs| && Touches(fs[k], i) {
      assert StillFor(secs, syms, fs[k], i);
      ShiftAt(secs, b1, b2, kernel, syms, k);
      SameFieldSameByte(LinkedBlock(secs, b1, kernel, syms), LinkedBlock(secs, b2, kernel, syms), fs[k], i);
    } else {
      Untouched(bytes, b1, Values(secs, b1, kernel, syms), fs, |fs|, i);
      Untouched(bytes, b2, Values(secs, b2, kernel, syms), fs, |fs|, i);
    }
  }

  lemma OwnResidue(d: nat, x: nat)
    requires x < d
    ensures x % d == x
  {
    SameQuotient(d, 0, x, x / d, x % d);
  }

  lemma SameFieldSameByte(a: seq<Byte>, b: seq<Byte>, f: Fixup, i: nat)
    requires |a| == |b| && f.site + Width(f.kind) <= |a| && Touches(f, i)
    requires Shifted(a, b, f, 0)
    ensures a[i] == b[i]
  {
    hide FromBytes, Radix, Width;
    var from, to := f.site, f.site + Width(f.kind);
    BytesBound(a[from..to]);
    OwnResidue(Radix(Width(f.kind)), Field(a, f.site, Width(f.kind)));
    BytesInjective(a[from..to], b[from..to]);
    assert a[i] == a[from..to][i - from] && b[i] == b[from..to][i - from];
  }
}
