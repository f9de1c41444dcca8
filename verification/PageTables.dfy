/** Two-level page tables as they lie in physical memory: a directory page of 1024
    words, each leading to a table page of 1024 words. Pages are named by number. */
module PageTables {
  import opened Bits
  import opened Memory

  const ENTRIES: nat := 1024
  const VPAGES: nat := 0x10_0000

  /** The present bit of an entry, and the page it names. */
  predicate Present(e: Word) { e % 2 == 1 }
  function PageNo(e: Word): nat { e / 4096 }

  /** The U/S flag; the processor lets user code through only if directory and table agree. */
  predicate UserBit(e: Word) { Bit(e, 2) }

  predicate PageInside(m: seq<Byte>, f: nat) {
    4096 * f + 4096 <= |m|
  }

  /** Word `k` of page `f`. */
  function WordAt(m: seq<Byte>, f: nat, k: nat): Word
    requires PageInside(m, f) && k < ENTRIES
  {
    Load32(m, 4096 * f + 4 * k)
  }

  /** Directory and tables are distinct pages inside memory. */
  ghost predicate Separate(m: seq<Byte>, dir: nat) {
    && PageInside(m, dir)
    && (forall i :: 0 <= i < ENTRIES ==> TableOk(m, dir, i))
    && (forall i, j :: 0 <= i < ENTRIES && 0 <= j < ENTRIES && i != j ==> TablesApart(m, dir, i, j))
  }

  ghost predicate TableOk(m: seq<Byte>, dir: nat, i: nat)
    requires PageInside(m, dir) && i < ENTRIES
  {
    var e := WordAt(m, dir, i);
    Present(e) ==> PageInside(m, PageNo(e)) && PageNo(e) != dir
  }

  ghost predicate TablesApart(m: seq<Byte>, dir: nat, i: nat, j: nat)
    requires PageInside(m, dir) && i < ENTRIES && j < ENTRIES
  {
    var e, d := WordAt(m, dir, i), WordAt(m, dir, j);
    Present(e) && Present(d) ==> PageNo(e) != PageNo(d)
  }

  /** Whether page `f` is the directory or one of its tables. */
  ghost predicate TablePage(m: seq<Byte>, dir: nat, f: nat)
    requires PageInside(m, dir)
  {
    f == dir || exists i :: 0 <= i < ENTRIES && IsTable(m, dir, i, f)
  }

  ghost predicate IsTable(m: seq<Byte>, dir: nat, i: nat, f: nat)
    requires PageInside(m, dir) && i < ENTRIES
  {
    Present(WordAt(m, dir, i)) && PageNo(WordAt(m, dir, i)) == f
  }

  /** Entry `k` of table `i`, 0 when the table is missing. */
  ghost function Slot(m: seq<Byte>, dir: nat, i: nat, k: nat): Word
    requires Separate(m, dir) && i < ENTRIES && k < ENTRIES
  {
    var e := WordAt(m, dir, i);
    assert TableOk(m, dir, i);
    if Present(e) then WordAt(m, PageNo(e), k) else 0
  }

  /** The entry for virtual page `v`. */
  ghost function Pte(m: seq<Byte>, dir: nat, v: nat): Word
    requires Separate(m, dir) && v < VPAGES
  {
    Slot(m, dir, v / ENTRIES, v % ENTRIES)
  }

  /** The finite map the tables stand for: virtual page to entry. */
  ghost function Mappings(m: seq<Byte>, dir: nat): map<nat, Word>
    requires Separate(m, dir)
  {
    map v: nat | 0 <= v < VPAGES && Present(Pte(m, dir, v)) :: Pte(m, dir, v)
  }

  /** Equal bytes in a page give equal words there. */
  lemma PageFrame(m: seq<Byte>, m': seq<Byte>, f: nat)
    requires PageInside(m, f) && |m| == |m'|
    requires SameBytes(m, m', 4096 * f, 4096 * f + 4096)
    ensures forall k :: 0 <= k < ENTRIES ==> WordAt(m', f, k) == WordAt(m, f, k)
  {
    forall k | 0 <= k < ENTRIES ensures WordAt(m', f, k) == WordAt(m, f, k) {
      LoadFrame(m, m', 4096 * f + 4 * k);
    }
  }

  /** Storing a word into a page changes that word alone. */
  lemma WordStored(m: seq<Byte>, m': seq<Byte>, f: nat, k: nat, e: Word)
    requires PageInside(m, f) && k < ENTRIES
    requires Stored(m, m', 4096 * f + 4 * k, e)
    ensures forall j :: 0 <= j < ENTRIES ==> WordAt(m', f, j) == if j == k then e else WordAt(m, f, j)
    ensures forall g: nat :: g != f && PageInside(m, g) ==> SameBytes(m, m', 4096 * g, 4096 * g + 4096)
  {
    forall j | 0 <= j < ENTRIES && j != k ensures WordAt(m', f, j) == WordAt(m, f, j) {
      LoadFrame(m, m', 4096 * f + 4 * j);
    }
  }

  /** The same directory words keep the tables separate. */
  lemma SameDirectory(m: seq<Byte>, m': seq<Byte>, dir: nat)
    requires Separate(m, dir) && |m| == |m'|
    requires forall i :: 0 <= i < ENTRIES ==> WordAt(m', dir, i) == WordAt(m, dir, i)
    ensures Separate(m', dir)
    ensures forall f :: TablePage(m', dir, f) == TablePage(m, dir, f)
  {
    forall i | 0 <= i < ENTRIES ensures TableOk(m', dir, i) {
      assert TableOk(m, dir, i);
    }
    forall i, j | 0 <= i < ENTRIES && 0 <= j < ENTRIES && i != j ensures TablesApart(m', dir, i, j) {
      assert TablesApart(m, dir, i, j);
    }
    forall f ensures TablePage(m', dir, f) == TablePage(m, dir, f) {
      assert forall i :: 0 <= i < ENTRIES ==> IsTable(m', dir, i, f) == IsTable(m, dir, i, f);
    }
  }

  /** Storing entry `k` of table `i` changes one slot. */
  lemma StoreSlot(m: seq<Byte>, m': seq<Byte>, dir: nat, i: nat, k: nat, e: Word)
    requires Separate(m, dir) && i < ENTRIES && k < ENTRIES && Present(WordAt(m, dir, i))
    requires Stored(m, m', 4096 * PageNo(WordAt(m, dir, i)) + 4 * k, e)
    ensures Separate(m', dir)
    ensures forall f :: TablePage(m', dir, f) == TablePage(m, dir, f)
    ensures SameWords(m, m', dir, -1)
    ensures forall j, l :: 0 <= j < ENTRIES && 0 <= l < ENTRIES ==>
              Slot(m', dir, j, l) == if j == i && l == k then e else Slot(m, dir, j, l)
  {
    var t := PageNo(WordAt(m, dir, i));
    assert TableOk(m, dir, i);
    WordStored(m, m', t, k, e);
    PageFrame(m, m', dir);
    SameDirectory(m, m', dir);
    forall j, l | 0 <= j < ENTRIES && 0 <= l < ENTRIES
      ensures Slot(m', dir, j, l) == if j == i && l == k then e else Slot(m, dir, j, l)
    {
      var d := WordAt(m, dir, j);
      assert TableOk(m, dir, j);
      if Present(d) && j != i {
        assert TablesApart(m, dir, i, j);
        PageFrame(m, m', PageNo(d));
      }
    }
  }

  /** A zeroed fresh page hung into the directory adds a table and no mapping. */
  lemma AddTable(m: seq<Byte>, m': seq<Byte>, dir: nat, i: nat, e: Word)
    requires Separate(m, dir) && i < ENTRIES && !Present(WordAt(m, dir, i)) && |m| == |m'|
    requires Present(e) && PageInside(m, PageNo(e)) && !TablePage(m, dir, PageNo(e))
    requires forall j :: 0 <= j < ENTRIES ==> WordAt(m', dir, j) == if j == i then e else WordAt(m, dir, j)
    requires forall k :: 0 <= k < ENTRIES ==> WordAt(m', PageNo(e), k) == 0
    requires forall g: nat :: g != dir && g != PageNo(e) && PageInside(m, g) ==>
               SameBytes(m, m', 4096 * g, 4096 * g + 4096)
    ensures Separate(m', dir)
    ensures forall f :: TablePage(m', dir, f) == (f == PageNo(e) || TablePage(m, dir, f))
    ensures forall j, l :: 0 <= j < ENTRIES && 0 <= l < ENTRIES ==> Slot(m', dir, j, l) == Slot(m, dir, j, l)
  {
    var t := PageNo(e);
    NotATable(m, dir, t);
    forall j | 0 <= j < ENTRIES ensures TableOk(m', dir, j) {
      assert TableOk(m, dir, j);
    }
    forall j, l | 0 <= j < ENTRIES && 0 <= l < ENTRIES && j != l ensures TablesApart(m', dir, j, l) {
      assert TablesApart(m, dir, j, l);
    }
    forall f ensures TablePage(m', dir, f) == (f == t || TablePage(m, dir, f)) {
      assert forall j :: 0 <= j < ENTRIES ==> IsTable(m', dir, j, f) == ((j == i && f == t) || IsTable(m, dir, j, f));
      assert IsTable(m', dir, i, t);
    }
    forall j, l | 0 <= j < ENTRIES && 0 <= l < ENTRIES ensures Slot(m', dir, j, l) == Slot(m, dir, j, l) {
      var d := WordAt(m, dir, j);
      assert TableOk(m, dir, j);
      if Present(d) && j != i {
        PageFrame(m, m', PageNo(d));
      }
    }
  }

  lemma NotATable(m: seq<Byte>, dir: nat, f: nat)
    requires PageInside(m, dir) && !TablePage(m, dir, f)
    ensures f != dir
    ensures forall i :: 0 <= i < ENTRIES && Present(WordAt(m, dir, i)) ==> PageNo(WordAt(m, dir, i)) != f
  {
    forall i | 0 <= i < ENTRIES && Present(WordAt(m, dir, i)) ensures PageNo(WordAt(m, dir, i)) != f {
      assert !IsTable(m, dir, i, f);
    }
  }

  /** One changed slot is one changed key of the map. */
  lemma SlotIsKey(m: seq<Byte>, m': seq<Byte>, dir: nat, v: nat, e: Word)
    requires Separate(m, dir) && Separate(m', dir) && v < VPAGES
    requires forall j, l :: 0 <= j < ENTRIES && 0 <= l < ENTRIES ==>
               Slot(m', dir, j, l) == if j == v / ENTRIES && l == v % ENTRIES then e else Slot(m, dir, j, l)
    ensures Present(e) ==> Mappings(m', dir) == Mappings(m, dir)[v := e]
    ensures !Present(e) ==> Mappings(m', dir) == Mappings(m, dir) - {v}
  {
    hide Slot;
    forall w | 0 <= w < VPAGES ensures Pte(m', dir, w) == if w == v then e else Pte(m, dir, w) {
      PageOfSlot(v, w);
    }
  }

  lemma PageOfSlot(v: nat, w: nat)
    ensures w / ENTRIES == v / ENTRIES && w % ENTRIES == v % ENTRIES <==> w == v
  {
    assert w == ENTRIES * (w / ENTRIES) + w % ENTRIES;
  }

  lemma SameSlots(m: seq<Byte>, m': seq<Byte>, dir: nat)
    requires Separate(m, dir) && Separate(m', dir)
    requires forall j, l :: 0 <= j < ENTRIES && 0 <= l < ENTRIES ==> Slot(m', dir, j, l) == Slot(m, dir, j, l)
    ensures Mappings(m', dir) == Mappings(m, dir)
  {
    forall w | 0 <= w < VPAGES ensures Pte(m', dir, w) == Pte(m, dir, w) {
    }
  }

  /** Only table pages changed; tables were added from the pages in `free` only. */
  ghost predicate TablesOnly(m: seq<Byte>, m': seq<Byte>, dir: nat, free: set<nat>)
    requires PageInside(m, dir)
  {
    && |m| == |m'|
    && (forall a :: 0 <= a < |m| && !TablePage(m', dir, a / 4096) ==> m'[a] == m[a])
    && (forall f :: TablePage(m, dir, f) ==> TablePage(m', dir, f))
    && (forall f :: TablePage(m', dir, f) ==> TablePage(m, dir, f) || f in free)
  }

  lemma TablesOnlyTransitive(m: seq<Byte>, m': seq<Byte>, m'': seq<Byte>, dir: nat, free: set<nat>, free': set<nat>)
    requires PageInside(m, dir) && |m| == |m'| && free' <= free
    requires TablesOnly(m, m', dir, free) && TablesOnly(m', m'', dir, free')
    ensures TablesOnly(m, m'', dir, free)
  {
  }

  /** A table taken from the free pages leaves none of the remaining ones a table. */
  lemma TableFromFree(m: seq<Byte>, m': seq<Byte>, dir: nat, p: nat, free: set<nat>)
    requires PageInside(m, dir) && TablesOnly(m, m', dir, {p}) && p in free
    requires forall f :: TablePage(m, dir, f) ==> f !in free
    ensures TablesOnly(m, m', dir, free)
    ensures forall f :: TablePage(m', dir, f) ==> f !in free - {p}
  {
    hide TablePage;
  }

  /** The directory words, except number `but`, are the same. */
  ghost predicate SameWords(m: seq<Byte>, m': seq<Byte>, dir: nat, but: int)
    requires PageInside(m, dir) && |m| == |m'|
  {
    forall i :: 0 <= i < ENTRIES && i != but ==> WordAt(m', dir, i) == WordAt(m, dir, i)
  }

  /** Page `v` is mapped and open to user code. */
  ghost predicate UserPage(m: seq<Byte>, dir: nat, v: nat)
    requires Separate(m, dir)
  {
    v in Mappings(m, dir) && UserBit(Mappings(m, dir)[v]) && UserBit(WordAt(m, dir, v / ENTRIES))
  }

  lemma MappedBelow(m: seq<Byte>, dir: nat, v: nat)
    requires Separate(m, dir) && v in Mappings(m, dir)
    ensures v < VPAGES && Present(WordAt(m, dir, v / ENTRIES))
  {
  }

  /** Mapping page `v` under a directory word that was there opens it to user code exactly
      when that word and the flags do; under a new one, exactly when the flags do. No other
      page is opened or closed. */
  lemma UserPages(m: seq<Byte>, m': seq<Byte>, dir: nat, v: nat, e: Word)
    requires Separate(m, dir) && Separate(m', dir) && |m| == |m'| && v < VPAGES
    requires Mappings(m', dir) == Mappings(m, dir)[v := e]
    requires SameWords(m, m', dir, if Present(WordAt(m, dir, v / ENTRIES)) then -1 else v / ENTRIES)
    ensures UserPage(m', dir, v) <==> UserBit(e) && UserBit(WordAt(m', dir, v / ENTRIES))
    ensures forall w :: w in Mappings(m, dir) && w != v ==> (UserPage(m', dir, w) <==> UserPage(m, dir, w))
  {
    hide WordAt, Mappings;
    forall w | w in Mappings(m, dir) && w != v
      ensures UserPage(m', dir, w) <==> UserPage(m, dir, w)
    {
      MappedBelow(m, dir, w);
    }
  }

  /** Storing the entry of virtual page `v` in its table updates that key alone. */
  lemma SetEntry(m: seq<Byte>, m': seq<Byte>, dir: nat, v: nat, e: Word)
    requires Separate(m, dir) && v < VPAGES && Present(WordAt(m, dir, v / ENTRIES))
    requires Stored(m, m', 4096 * PageNo(WordAt(m, dir, v / ENTRIES)) + 4 * (v % ENTRIES), e)
    ensures Separate(m', dir)
    ensures Present(e) ==> Mappings(m', dir) == Mappings(m, dir)[v := e]
    ensures !Present(e) ==> Mappings(m', dir) == Mappings(m, dir) - {v}
    ensures TablesOnly(m, m', dir, {}) && SameWords(m, m', dir, -1)
  {
    StoreSlot(m, m', dir, v / ENTRIES, v % ENTRIES, e);
    SlotIsKey(m, m', dir, v, e);
    var t := PageNo(WordAt(m, dir, v / ENTRIES));
    assert IsTable(m, dir, v / ENTRIES, t);
    assert TablePage(m', dir, t);
  }
}
