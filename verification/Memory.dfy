/** Bytes, 32-bit words, little-endian loads and stores, and the page and
    alignment masks of the kernel's headers. */
module Memory {
  import opened Bits

  type Byte = x: int | 0 <= x < 0x100
  type Word = x: int | 0 <= x < 0x1_0000_0000

  const PAGE_SIZE: nat := 4096

  /** The number written by bytes in little-endian order. */
  function FromBytes(s: seq<Byte>): nat {
    if s == [] then 0 else s[0] + 0x100 * FromBytes(s[1..])
  }

  /** Two and four bytes make a half word and a word. */
  lemma ShortBytes(s: seq<Byte>)
    ensures |s| == 2 ==> FromBytes(s) == s[0] as int + 0x100 * s[1] as int
    ensures |s| == 4 ==>
              FromBytes(s) == s[0] as int + 0x100 * s[1] as int + 0x1_0000 * s[2] as int + 0x100_0000 * s[3] as int
  {
    if |s| == 4 {
      assert FromBytes(s[1..][1..]) == s[2] as int + 0x100 * s[3] as int by {
        assert s[1..][1..] == s[2..];
        ShortBytes(s[2..]);
      }
    } else if |s| == 2 {
      assert s[1..] == [s[1]];
      assert FromBytes([s[1]]) == s[1];
    }
  }

  function Load16(m: seq<Byte>, a: nat): (w: Word)
    requires a + 2 <= |m|
    ensures w < 0x1_0000
  {
    ShortBytes(m[a..a + 2]);
    FromBytes(m[a..a + 2])
  }

  function Load32(m: seq<Byte>, a: nat): Word
    requires a + 4 <= |m|
  {
    ShortBytes(m[a..a + 4]);
    FromBytes(m[a..a + 4])
  }

  /** Bytes `from` up to `to` are the same in both memories. */
  ghost predicate SameBytes(m: seq<Byte>, m': seq<Byte>, from: nat, to: nat)
    requires |m| == |m'|
  {
    forall k :: from <= k < to && k < |m| ==> m'[k] == m[k]
  }

  /** `m'` is `m` with the word `v` stored at `a`. */
  ghost predicate Stored(m: seq<Byte>, m': seq<Byte>, a: nat, v: Word)
  {
    && a + 4 <= |m| == |m'|
    && Load32(m', a) == v
    && SameBytes(m, m', 0, a) && SameBytes(m, m', a + 4, |m|)
  }

  /** The four bytes of a word, low byte first. */
  lemma WordBytes(v: Word)
    ensures v / 0x100_0000 < 0x100
    ensures v == v % 0x100 + 0x100 * (v / 0x100 % 0x100) + 0x1_0000 * (v / 0x1_0000 % 0x100)
                 + 0x100_0000 * (v / 0x100_0000)
  {
    var q := v / 0x100;
    assert v / 0x1_0000 == q / 0x100 && v / 0x100_0000 == q / 0x100 / 0x100;
  }

  /** Physical memory. */
  class PhysMem {
    var ram: seq<Byte>

    constructor (ram: seq<Byte>)
      ensures this.ram == ram
    {
      this.ram := ram;
    }

    method Write8(a: nat, v: Byte)
      requires a < |ram|
      modifies this
      ensures ram == old(ram)[a := v]
    {
      ram := ram[a := v];
    }

    method Write32(a: nat, v: Word)
      requires a + 4 <= |ram|
      modifies this
      ensures Stored(old(ram), ram, a, v)
    {
      hide FromBytes;
      WordBytes(v);
      var b0, b1, b2, b3 := v % 0x100, v / 0x100 % 0x100, v / 0x1_0000 % 0x100, v / 0x100_0000;
      ram := ram[a := b0][a + 1 := b1][a + 2 := b2][a + 3 := b3];
      assert ram[a..a + 4] == [b0, b1, b2, b3];
      ShortBytes(ram[a..a + 4]);
    }
  }

  /** `memset`, a byte at a time. */
  method Memset(mem: PhysMem, dest: nat, c: Byte, n: nat)
    requires dest + n <= |mem.ram|
    modifies mem
    ensures |mem.ram| == old(|mem.ram|)
    ensures forall k :: dest <= k < dest + n ==> mem.ram[k] == c
    ensures SameBytes(old(mem.ram), mem.ram, 0, dest) && SameBytes(old(mem.ram), mem.ram, dest + n, |mem.ram|)
  {
    var i := 0;
    while i < n
      invariant 0 <= i <= n && |mem.ram| == old(|mem.ram|)
      invariant forall k :: dest <= k < dest + i ==> mem.ram[k] == c
      invariant SameBytes(old(mem.ram), mem.ram, 0, dest) && SameBytes(old(mem.ram), mem.ram, dest + i, |mem.ram|)
    {
      mem.Write8(dest + i, c);
      i := i + 1;
    }
  }

  /** `memcpy` inside memory, for ranges that do not overlap. */
  method Memcpy(mem: PhysMem, dest: nat, src: nat, n: nat)
    requires dest + n <= |mem.ram| && src + n <= |mem.ram|
    requires dest + n <= src || src + n <= dest
    modifies mem
    ensures |mem.ram| == old(|mem.ram|)
    ensures mem.ram[dest..dest + n] == old(mem.ram)[src..src + n]
    ensures SameBytes(old(mem.ram), mem.ram, 0, dest) && SameBytes(old(mem.ram), mem.ram, dest + n, |mem.ram|)
  {
    var i := 0;
    while i < n
      invariant 0 <= i <= n && |mem.ram| == old(|mem.ram|)
      invariant forall k :: 0 <= k < |mem.ram| ==>
                  mem.ram[k] == old(mem.ram)[if dest <= k < dest + i then src + k - dest else k]
    {
      mem.Write8(dest + i, mem.ram[src + i]);
      i := i + 1;
    }
  }

  /** `memmove`: the ranges may overlap either way, and the copy is still of the old bytes. */
  method Memmove(mem: PhysMem, dest: nat, src: nat, n: nat)
    requires dest + n <= |mem.ram| && src + n <= |mem.ram|
    modifies mem
    ensures |mem.ram| == old(|mem.ram|)
    ensures forall k :: 0 <= k < |mem.ram| ==>
              mem.ram[k] == old(mem.ram)[if dest <= k < dest + n then src + k - dest else k]
  {
    if dest < src {
      CopyUp(mem, dest, src, n);
    } else if dest > src {
      CopyDown(mem, dest, src, n);
    }
  }

  /** Its loop from the front. */
  method CopyUp(mem: PhysMem, dest: nat, src: nat, n: nat)
    requires dest < src && src + n <= |mem.ram|
    modifies mem
    ensures |mem.ram| == old(|mem.ram|)
    ensures forall k :: 0 <= k < |mem.ram| ==>
              mem.ram[k] == old(mem.ram)[if dest <= k < dest + n then src + k - dest else k]
  {
    var i := 0;
    while i < n
      invariant 0 <= i <= n && |mem.ram| == old(|mem.ram|)
      invariant forall k :: 0 <= k < |mem.ram| ==>
                  mem.ram[k] == old(mem.ram)[if dest <= k < dest + i then src + k - dest else k]
    {
      mem.Write8(dest + i, mem.ram[src + i]);
      i := i + 1;
    }
  }

  /** Its loop from the back. */
  method CopyDown(mem: PhysMem, dest: nat, src: nat, n: nat)
    requires src < dest && dest + n <= |mem.ram|
    modifies mem
    ensures |mem.ram| == old(|mem.ram|)
    ensures forall k :: 0 <= k < |mem.ram| ==>
              mem.ram[k] == old(mem.ram)[if dest <= k < dest + n then src + k - dest else k]
  {
    var i := n;
    while i > 0
      invariant 0 <= i <= n && |mem.ram| == old(|mem.ram|)
      invariant forall k :: 0 <= k < |mem.ram| ==>
                  mem.ram[k] == old(mem.ram)[if dest + i <= k < dest + n then src + k - dest else k]
    {
      i := i - 1;
      mem.Write8(dest + i, mem.ram[src + i]);
    }
  }

  /** `memcpy` from a file image. */
  method CopyIn(mem: PhysMem, dest: nat, data: seq<Byte>)
    requires dest + |data| <= |mem.ram|
    modifies mem
    ensures |mem.ram| == old(|mem.ram|)
    ensures mem.ram[dest..dest + |data|] == data
    ensures SameBytes(old(mem.ram), mem.ram, 0, dest) && SameBytes(old(mem.ram), mem.ram, dest + |data|, |mem.ram|)
  {
    var i := 0;
    while i < |data|
      invariant 0 <= i <= |data| && |mem.ram| == old(|mem.ram|)
      invariant forall k :: 0 <= k < |mem.ram| ==>
                  mem.ram[k] == if dest <= k < dest + i then data[k - dest] else old(mem.ram)[k]
    {
      mem.Write8(dest + i, data[i]);
      i := i + 1;
    }
  }

  /** Loads see only the four bytes at their address. */
  lemma LoadFrame(m: seq<Byte>, m': seq<Byte>, a: nat)
    requires a + 4 <= |m| && a + 4 <= |m'|
    requires forall i :: a <= i < a + 4 ==> m[i] == m'[i]
    ensures Load32(m, a) == Load32(m', a)
  {
    assert m[a..a + 4] == m'[a..a + 4];
  }

  /** What the page masks and shifts compute. */
  lemma PageMasks(x: Word)
    ensures And(x, 0xFFF) == x % 4096
    ensures And(x, 0xFFFF_F000) == x - x % 4096
  {
    Powers();
    LowMask(x, 12, 4096);
    HighMask(x, 32, 12, 0x1_0000_0000, 4096);
  }

  lemma DirectoryIndex(x: Word)
    ensures And(Shr(x, 22), 0x3FF) == x / 4194304
  {
    Powers();
    ShiftMask(x, 22, 4194304, 10, 1024);
  }

  lemma TableIndex(x: Word)
    ensures And(Shr(x, 12), 0x3FF) == x / 4096 % 1024
  {
    Powers();
    ShiftMask(x, 12, 4096, 10, 1024);
  }

  /** A page address joined with flag bits is their sum. */
  lemma JoinFlags(x: Word, f: nat)
    requires x % 4096 == 0 && f < 4096
    ensures Or(x, f) == x + f
  {
    Powers();
    SplitDiv(x, 12, 4096);
    OrDisjoint(x, f, 12);
  }

  /** Joining flag bits to a page entry keeps its page. */
  lemma JoinEntry(x: Word, f: nat)
    requires f < 4096
    ensures Or(x, f) == x - x % 4096 + Or(x % 4096, f)
    ensures Or(x % 4096, f) < 4096
  {
    Powers();
    SplitDiv(x, 12, 4096);
    OrLow(x, f, 12);
    OrBound(x % 4096, f, 12);
  }

  lemma JoinParity(x: nat, y: nat)
    ensures Or(x, y) % 2 == 1 <==> x % 2 == 1 || y % 2 == 1
  {
    BitOr(x, y, 0);
  }

  lemma JoinPage(x: Word, f: nat)
    requires f < 4096
    ensures Or(x, f) / 4096 == x / 4096
    ensures Or(x, f) % 2 == 1 <==> x % 2 == 1 || f % 2 == 1
  {
    JoinEntry(x, f);
    JoinParity(x, f);
  }

  lemma OrOne(x: nat)
    ensures Or(x, 1) == x + 1 - x % 2
  {
  }

  lemma LowBit(x: nat)
    ensures And(x, 1) == x % 2
  {
    assert Pow2(1) == 2;
    LowMask(x, 1, 2);
  }

  /** `ALIGN_UP(x, 4)` with its 32-bit wrap-around. */
  function AlignUp4(x: Word): Word {
    var y := (x + 3) % 0x1_0000_0000;
    y - y % 4
  }
}
