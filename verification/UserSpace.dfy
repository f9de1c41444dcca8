/** Bytes seen through the page tables: virtual reads, writes through mapped
    private frames, and what they leave alone. */
module UserSpace {
  import opened Memory
  import opened PageTables

  /** The physical address a mapped virtual address stands for. */
  function PhysOf(tables: map<nat, Word>, v: nat): nat
    requires v / 4096 in tables
  {
    4096 * PageNo(tables[v / 4096]) + v % 4096
  }

  /** Frame `f` is inside memory and holds neither the directory nor a table. */
  ghost predicate Private(m: seq<Byte>, dir: nat, f: nat)
    requires PageInside(m, dir)
  {
    PageInside(m, f) && !TablePage(m, dir, f)
  }

  /** The virtual pages from `p` up to `q` are mapped to private frames, no two of
      them to the same one. */
  ghost predicate Backed(m: seq<Byte>, dir: nat, tables: map<nat, Word>, p: nat, q: nat)
    requires PageInside(m, dir)
  {
    && (forall v :: p <= v < q ==> v in tables && Private(m, dir, PageNo(tables[v])))
    && (forall v, w :: p <= v < q && p <= w < q && v != w && v in tables && w in tables ==>
                         PageNo(tables[v]) != PageNo(tables[w]))
  }

  ghost predicate BackedBytes(m: seq<Byte>, dir: nat, tables: map<nat, Word>, vaddr: nat, n: nat)
    requires PageInside(m, dir)
  {
    Backed(m, dir, tables, vaddr / 4096, (vaddr + n + 4095) / 4096)
  }

  /** The byte a program reads at virtual address `v`. */
  function ReadVirtual(m: seq<Byte>, tables: map<nat, Word>, v: nat): Byte
    requires v / 4096 in tables && PhysOf(tables, v) < |m|
  {
    m[PhysOf(tables, v)]
  }

  /** Only table pages and pages of `free` changed; tables were added from `free`. */
  ghost predicate Evolved(m: seq<Byte>, m': seq<Byte>, dir: nat, free: set<nat>)
    requires PageInside(m, dir)
  {
    && |m| == |m'|
    && (forall a :: 0 <= a < |m| && a / 4096 !in free && !TablePage(m, dir, a / 4096) ==> m'[a] == m[a])
    && (forall f :: TablePage(m, dir, f) ==> TablePage(m', dir, f))
    && (forall f :: TablePage(m', dir, f) ==> TablePage(m, dir, f) || f in free)
  }

  lemma EvolvedByTables(m: seq<Byte>, m': seq<Byte>, dir: nat, free: set<nat>)
    requires PageInside(m, dir) && TablesOnly(m, m', dir, free)
    ensures Evolved(m, m', dir, free)
  {
  }

  lemma EvolvedTransitive(m: seq<Byte>, m': seq<Byte>, m'': seq<Byte>, dir: nat, free: set<nat>, free': set<nat>)
    requires PageInside(m, dir) && |m| == |m'| && free' <= free
    requires Evolved(m, m', dir, free) && Evolved(m', m'', dir, free')
    ensures Evolved(m, m'', dir, free)
  {
  }

  /** A write into a private frame leaves tables and mappings alone. */
  lemma PrivateWrite(m: seq<Byte>, m': seq<Byte>, dir: nat, a: nat, b: Byte)
    requires Separate(m, dir) && a < |m| && !TablePage(m, dir, a / 4096)
    requires m' == m[a := b]
    ensures Separate(m', dir) && Mappings(m', dir) == Mappings(m, dir)
    ensures forall f :: TablePage(m', dir, f) == TablePage(m, dir, f)
  {
    PageFrame(m, m', dir);
    SameDirectory(m, m', dir);
    forall i, k | 0 <= i < ENTRIES && 0 <= k < ENTRIES ensures Slot(m', dir, i, k) == Slot(m, dir, i, k) {
      var e := WordAt(m, dir, i);
      if Present(e) {
        assert TableOk(m, dir, i) && IsTable(m, dir, i, PageNo(e));
        PageFrame(m, m', PageNo(e));
      }
    }
    SameSlots(m, m', dir);
  }

  /** Distinct virtual bytes of a backed range are distinct physical bytes. */
  lemma BackedInjective(m: seq<Byte>, dir: nat, tables: map<nat, Word>, vaddr: nat, n: nat, i: nat, j: nat)
    requires PageInside(m, dir) && BackedBytes(m, dir, tables, vaddr, n)
    requires i < n && j < n
    ensures (vaddr + i) / 4096 in tables && Private(m, dir, PageNo(tables[(vaddr + i) / 4096]))
    ensures (vaddr + j) / 4096 in tables
    ensures i != j ==> PhysOf(tables, vaddr + i) != PhysOf(tables, vaddr + j)
  {
    InRange(vaddr, n, i);
    InRange(vaddr, n, j);
  }

  lemma InRange(vaddr: nat, n: nat, i: nat)
    requires i < n
    ensures vaddr / 4096 <= (vaddr + i) / 4096 < (vaddr + n + 4095) / 4096
  {
  }
}
