/** What the kernel heap is for, stated on block lists: an arena cut into blocks
    that follow one another without gaps, no two free ones adjacent. */
module HeapSpec {
  import opened Memory

  /** A block header sits at `addr`; its payload are the `size` bytes after it. */
  datatype Block = Block(addr: nat, size: nat, free: bool) {
    function Payload(): nat { addr + HEADER }
    function End(): nat { addr + HEADER + size }
    predicate Holds(x: nat) { addr <= x < End() }
  }

  /** `sizeof(heap_block_t)`: magic, size, one flag byte and the link, packed. */
  const HEADER: nat := 13

  /** The blocks cover `[start, end)` exactly, one after the other. */
  ghost predicate Tiles(bs: seq<Block>, start: nat, end: nat)
    decreases |bs|
  {
    if bs == [] then start == end
    else bs[0].addr == start && Tiles(bs[1..], bs[0].End(), end)
  }

  /** No two neighbours are both free. */
  ghost predicate Canonical(bs: seq<Block>) {
    forall i :: 0 <= i < |bs| - 1 ==> Separated(bs, i)
  }

  ghost predicate Separated(bs: seq<Block>, i: nat)
    requires i + 1 < |bs|
  {
    !(bs[i].free && bs[i + 1].free)
  }

  lemma CanonicalTail(bs: seq<Block>)
    requires Canonical(bs) && bs != []
    ensures Canonical(bs[1..])
    ensures |bs| > 1 && bs[0].free ==> !bs[1].free
  {
    forall i | 0 <= i < |bs[1..]| - 1 ensures Separated(bs[1..], i) {
      assert Separated(bs, i + 1);
    }
    if |bs| > 1 {
      assert Separated(bs, 0);
    }
  }

  lemma CanonicalCons(b: Block, bs: seq<Block>)
    requires Canonical(bs) && (bs == [] || !b.free || !bs[0].free)
    ensures Canonical([b] + bs)
  {
    var c := [b] + bs;
    forall i | 0 <= i < |c| - 1 ensures Separated(c, i) {
      if i > 0 {
        assert Separated(bs, i - 1);
      }
    }
  }

  ghost function Live(bs: seq<Block>): set<Block> {
    set b | b in bs && !b.free
  }

  /** Merges every run of free neighbours. */
  function Coalesce(bs: seq<Block>): seq<Block>
    decreases |bs|
  {
    if |bs| < 2 then bs
    else if bs[0].free && bs[1].free then
      Coalesce([Merge(bs[0], bs[1])] + bs[2..])
    else [bs[0]] + Coalesce(bs[1..])
  }

  function Merge(a: Block, b: Block): Block {
    a.(size := a.size + HEADER + b.size)
  }

  /** The first free block with room for `req` bytes, or `|bs|`. */
  function FirstFit(bs: seq<Block>, req: nat): (i: nat)
    ensures i <= |bs|
    ensures i < |bs| ==> bs[i].free && bs[i].size >= req
    ensures forall k :: 0 <= k < i ==> !(bs[k].free && bs[k].size >= req)
  {
    if bs == [] then 0
    else if bs[0].free && bs[0].size >= req then 0
    else 1 + FirstFit(bs[1..], req)
  }

  lemma FirstFitIs(bs: seq<Block>, n: nat, req: nat)
    requires n <= |bs|
    requires forall k :: 0 <= k < n ==> !(bs[k].free && bs[k].size >= req)
    requires n < |bs| ==> bs[n].free && bs[n].size >= req
    ensures FirstFit(bs, req) == n
  {
  }

  /** A free block after it is taken for `req` bytes: cut in two when the rest
      has room for a header and 16 bytes. */
  function Carve(b: Block, req: nat): seq<Block>
    requires b.size >= req
  {
    if b.size >= req + HEADER + 16 then
      [Block(b.addr, req, false), Block(b.addr + HEADER + req, b.size - req - HEADER, true)]
    else [b.(free := false)]
  }

  /** A block for `req` bytes wastes less than a header and 16 bytes. */
  ghost predicate Snug(b: Block, req: nat) {
    req <= b.size < req + 29
  }

  function Take(bs: seq<Block>, i: nat, req: nat): seq<Block>
    requires i < |bs| && bs[i].size >= req
  {
    bs[..i] + Carve(bs[i], req) + bs[i + 1..]
  }

  function Release(bs: seq<Block>, i: nat): seq<Block>
    requires i < |bs|
  {
    Coalesce(bs[i := bs[i].(free := true)])
  }

  // Tilings

  lemma {:induction false} TilesConcat(a: seq<Block>, b: seq<Block>, start: nat, mid: nat, end: nat)
    requires Tiles(a, start, mid) && Tiles(b, mid, end)
    ensures Tiles(a + b, start, end)
    decreases |a|
  {
    if a == [] {
      assert a + b == b;
    } else {
      assert (a + b)[1..] == a[1..] + b;
      TilesConcat(a[1..], b, a[0].End(), mid, end);
    }
  }

  lemma {:induction false} TilesSplit(bs: seq<Block>, k: nat, start: nat, end: nat)
    requires Tiles(bs, start, end) && k <= |bs|
    ensures var mid := if k < |bs| then bs[k].addr else end;
            Tiles(bs[..k], start, mid) && Tiles(bs[k..], mid, end)
    decreases |bs|
  {
    if k == 0 {
      assert bs[0..] == bs;
    } else {
      TilesSplit(bs[1..], k - 1, bs[0].End(), end);
      assert bs[1..][..k - 1] == bs[..k][1..] && bs[1..][k - 1..] == bs[k..];
    }
  }

  /** In a tiling a later block lies wholly behind an earlier one. */
  lemma {:induction false} TilesOrdered(bs: seq<Block>, i: nat, start: nat, end: nat)
    requires Tiles(bs, start, end) && i < |bs|
    ensures start <= bs[i].addr && bs[i].End() <= end
    ensures i == 0 ==> bs[i].addr == start
    ensures bs[i].End() == if i + 1 < |bs| then bs[i + 1].addr else end
    decreases |bs|
  {
    TilesSplit(bs, i, start, end);
    TilesBounds(bs[..i], start, bs[i].addr);
    TilesBounds(bs[i..][1..], bs[i].End(), end);
    if i + 1 < |bs| {
      assert bs[i..][1..][0] == bs[i + 1];
    }
  }

  lemma {:induction false} TilesBounds(bs: seq<Block>, start: nat, end: nat)
    requires Tiles(bs, start, end)
    ensures start <= end
    ensures bs != [] ==> start < end
    decreases |bs|
  {
    if bs != [] {
      TilesBounds(bs[1..], bs[0].End(), end);
    }
  }

  lemma TilesDisjoint(bs: seq<Block>, i: nat, j: nat, start: nat, end: nat)
    requires Tiles(bs, start, end) && i < j < |bs|
    ensures bs[i].End() <= bs[j].addr
  {
    TilesSplit(bs, j, start, end);
    TilesOrdered(bs[..j], i, start, bs[j].addr);
  }

  // Coalescing

  lemma {:induction false} CoalesceTiles(bs: seq<Block>, start: nat, end: nat)
    requires Tiles(bs, start, end)
    ensures Tiles(Coalesce(bs), start, end)
    ensures bs != [] ==> Coalesce(bs) != [] && Coalesce(bs)[0].addr == bs[0].addr && Coalesce(bs)[0].free == bs[0].free
    decreases |bs|
  {
    if |bs| >= 2 {
      if bs[0].free && bs[1].free {
        var m := [Merge(bs[0], bs[1])] + bs[2..];
        assert m[1..] == bs[2..] == bs[1..][1..];
        CoalesceTiles(m, start, end);
      } else {
        CoalesceTiles(bs[1..], bs[0].End(), end);
      }
    }
  }

  lemma {:induction false} CoalesceHead(bs: seq<Block>)
    requires bs != []
    ensures Coalesce(bs) != [] && Coalesce(bs)[0].free == bs[0].free
    decreases |bs|
  {
    if |bs| >= 2 && bs[0].free && bs[1].free {
      CoalesceHead([Merge(bs[0], bs[1])] + bs[2..]);
    }
  }

  lemma {:induction false} CoalesceCanonical(bs: seq<Block>)
    ensures Canonical(Coalesce(bs))
    decreases |bs|
  {
    if |bs| >= 2 {
      if bs[0].free && bs[1].free {
        CoalesceCanonical([Merge(bs[0], bs[1])] + bs[2..]);
      } else {
        CoalesceCanonical(bs[1..]);
        CoalesceHead(bs[1..]);
        CanonicalCons(bs[0], Coalesce(bs[1..]));
      }
    }
  }

  lemma LiveCons(b: Block, bs: seq<Block>)
    ensures Live([b] + bs) == (if b.free then {} else {b}) + Live(bs)
  {
    assert forall x :: x in [b] + bs <==> x == b || x in bs;
  }

  lemma {:induction false} CoalesceLive(bs: seq<Block>)
    ensures Live(Coalesce(bs)) == Live(bs)
    decreases |bs|
  {
    if |bs| >= 2 {
      assert bs == [bs[0]] + bs[1..] && bs[1..] == [bs[1]] + bs[2..];
      LiveCons(bs[0], bs[1..]);
      if bs[0].free && bs[1].free {
        LiveCons(bs[1], bs[2..]);
        LiveCons(Merge(bs[0], bs[1]), bs[2..]);
        CoalesceLive([Merge(bs[0], bs[1])] + bs[2..]);
      } else {
        CoalesceLive(bs[1..]);
        LiveCons(bs[0], Coalesce(bs[1..]));
      }
    }
  }

  /** One step of coalescing, as the list walk does it at position `n`. */
  function MergeAt(bs: seq<Block>, n: nat): seq<Block>
    requires n + 1 < |bs|
  {
    bs[..n] + [Merge(bs[n], bs[n + 1])] + bs[n + 2..]
  }

  lemma CoalesceTwo(bs: seq<Block>)
    requires |bs| >= 2
    ensures Coalesce(bs) == if bs[0].free && bs[1].free then Coalesce([Merge(bs[0], bs[1])] + bs[2..])
                            else [bs[0]] + Coalesce(bs[1..])
  {
  }

  lemma CoalesceStep(bs: seq<Block>, n: nat)
    requires n + 1 < |bs|
    ensures bs[n].free && bs[n + 1].free ==>
              MergeAt(bs, n)[..n] + Coalesce(MergeAt(bs, n)[n..]) == bs[..n] + Coalesce(bs[n..])
    ensures !(bs[n].free && bs[n + 1].free) ==>
              bs[..n + 1] + Coalesce(bs[n + 1..]) == bs[..n] + Coalesce(bs[n..])
  {
    var m, tail := MergeAt(bs, n), bs[n..];
    assert tail[2..] == bs[n + 2..] && tail[1..] == bs[n + 1..];
    CoalesceTwo(tail);
    if bs[n].free && bs[n + 1].free {
      assert m[..n] == bs[..n] && m[n..] == [Merge(bs[n], bs[n + 1])] + bs[n + 2..];
    } else {
      assert bs[..n + 1] == bs[..n] + [bs[n]];
    }
  }

  lemma MergeAtTiles(bs: seq<Block>, n: nat, start: nat, end: nat)
    requires Tiles(bs, start, end) && n + 1 < |bs|
    ensures bs[n + 1].addr == bs[n].End()
    ensures Tiles(MergeAt(bs, n), start, end)
  {
    var a, b := bs[n], bs[n + 1];
    var after := if n + 2 < |bs| then bs[n + 2].addr else end;
    TilesOrdered(bs, n, start, end);
    TilesOrdered(bs, n + 1, start, end);
    TilesSplit(bs, n, start, end);
    TilesSplit(bs, n + 2, start, end);
    assert Tiles([Merge(a, b)], a.addr, after) by {
      assert Tiles([Merge(a, b)][1..], after, after);
    }
    TilesConcat(bs[..n], [Merge(a, b)], start, a.addr, after);
    TilesConcat(bs[..n] + [Merge(a, b)], bs[n + 2..], start, after, end);
  }

  lemma LiveConcat(a: seq<Block>, b: seq<Block>)
    ensures Live(a + b) == Live(a) + Live(b)
  {
    assert forall x :: x in a + b <==> x in a || x in b;
  }

  lemma MergeAtLive(bs: seq<Block>, n: nat)
    requires n + 1 < |bs| && bs[n].free && bs[n + 1].free
    ensures Live(MergeAt(bs, n)) == Live(bs)
  {
    var a, b := bs[n], bs[n + 1];
    assert bs == bs[..n] + [a, b] + bs[n + 2..];
    LiveConcat(bs[..n] + [a, b], bs[n + 2..]);
    LiveConcat(bs[..n], [a, b]);
    LiveConcat(bs[..n] + [Merge(a, b)], bs[n + 2..]);
    LiveConcat(bs[..n], [Merge(a, b)]);
    assert Live([a, b]) == {} == Live([Merge(a, b)]);
  }

  // The main fact

  /** A canonical tiling is determined by its arena and its live blocks. */
  lemma {:induction false} CanonicalUnique(a: seq<Block>, b: seq<Block>, start: nat, end: nat)
    requires Tiles(a, start, end) && Tiles(b, start, end)
    requires Canonical(a) && Canonical(b)
    requires Live(a) == Live(b)
    ensures a == b
    decreases |a|
  {
    if a == [] || b == [] {
      TilesBounds(a, start, end);
      TilesBounds(b, start, end);
    } else {
      SameFirst(a, b, start, end);
      TailLive(a, start, end);
      TailLive(b, start, end);
      CanonicalTail(a);
      CanonicalTail(b);
      CanonicalUnique(a[1..], b[1..], a[0].End(), end);
      assert a == [a[0]] + a[1..] && b == [b[0]] + b[1..];
    }
  }

  lemma TailLive(bs: seq<Block>, start: nat, end: nat)
    requires Tiles(bs, start, end) && bs != []
    ensures Live(bs[1..]) == if bs[0].free then Live(bs) else Live(bs) - {bs[0]}
  {
    assert forall x :: x in bs <==> x == bs[0] || x in bs[1..];
    if bs[0] in bs[1..] {
      var k :| 0 <= k < |bs[1..]| && bs[1..][k] == bs[0];
      TilesDisjoint(bs, 0, k + 1, start, end);
    }
  }

  lemma SameFirst(a: seq<Block>, b: seq<Block>, start: nat, end: nat)
    requires Tiles(a, start, end) && Tiles(b, start, end)
    requires Canonical(a) && Canonical(b)
    requires Live(a) == Live(b)
    requires a != [] && b != []
    ensures a[0] == b[0]
  {
    if !a[0].free {
      LiveFirst(a, b, start, end);
    } else if !b[0].free {
      LiveFirst(b, a, start, end);
    } else {
      GapBound(a, b, start, end);
      GapBound(b, a, start, end);
    }
  }

  /** A live block at the start of one list starts the other one too. */
  lemma LiveFirst(a: seq<Block>, b: seq<Block>, start: nat, end: nat)
    requires Tiles(a, start, end) && Tiles(b, start, end)
    requires Live(a) == Live(b) && a != [] && b != [] && !a[0].free
    ensures a[0] == b[0]
  {
    assert a[0] in Live(b);
    var k :| 0 <= k < |b| && b[k] == a[0];
    if k > 0 {
      TilesDisjoint(b, 0, k, start, end);
    }
  }

  /** The free block at the start of one list ends no later than the other's. */
  lemma GapBound(a: seq<Block>, b: seq<Block>, start: nat, end: nat)
    requires Tiles(a, start, end) && Tiles(b, start, end)
    requires Canonical(b) && Live(a) == Live(b)
    requires a != [] && b != [] && a[0].free && b[0].free
    ensures a[0].size <= b[0].size
  {
    TilesOrdered(a, 0, start, end);
    TilesOrdered(b, 0, start, end);
    if |b| > 1 {
      CanonicalTail(b);
      assert b[1] in Live(b);
      var k :| 0 <= k < |a| && a[k] == b[1];
      TilesDisjoint(a, 0, k, start, end);
    }
  }

  // Taking and releasing

  lemma TakeTiles(bs: seq<Block>, i: nat, req: nat, start: nat, end: nat)
    requires Tiles(bs, start, end) && i < |bs| && bs[i].size >= req
    ensures Tiles(Take(bs, i, req), start, end)
  {
    TilesSplit(bs, i, start, end);
    var rest := if i + 1 < |bs| then bs[i + 1].addr else end;
    TilesOrdered(bs, i, start, end);
    TilesSplit(bs, i + 1, start, end);
    var c := Carve(bs[i], req);
    assert Tiles(c, bs[i].addr, rest) by {
      assert Tiles(c[1..], c[0].End(), rest);
    }
    TilesConcat(c, bs[i + 1..], bs[i].addr, rest, end);
    TilesConcat(bs[..i], c + bs[i + 1..], start, bs[i].addr, end);
    assert Take(bs, i, req) == bs[..i] + (c + bs[i + 1..]);
  }

  lemma TakeCanonical(bs: seq<Block>, i: nat, req: nat)
    requires Canonical(bs) && i < |bs| && bs[i].size >= req && bs[i].free
    ensures Canonical(Take(bs, i, req))
  {
    var t, c := Take(bs, i, req), Carve(bs[i], req);
    forall k | 0 <= k < |t| - 1 ensures Separated(t, k) {
      if k + 1 < i {
        assert Separated(bs, k);
      } else if k >= i + |c| - 1 {
        var j := k - |c| + 1;
        assert Separated(bs, j);
        assert t[k + 1] == bs[j + 1] && bs[j + 1] == bs[i + 1..][j - i];
        if j > i {
          assert t[k] == bs[j];
        }
      }
    }
  }

  /** Taking a block adds exactly one live block, of the requested room at least,
      inside the extent of the free block that was found. */
  lemma TakeLive(bs: seq<Block>, i: nat, req: nat)
    requires i < |bs| && bs[i].size >= req && bs[i].free
    ensures Live(Take(bs, i, req)) == Live(bs) + {Carve(bs[i], req)[0]}
    ensures var b := Carve(bs[i], req)[0];
            !b.free && b.addr == bs[i].addr && Snug(b, req) && b.size <= bs[i].size
  {
    var c := Carve(bs[i], req);
    LiveConcat(bs[..i] + c, bs[i + 1..]);
    LiveConcat(bs[..i], c);
    assert bs == bs[..i] + [bs[i]] + bs[i + 1..];
    LiveConcat(bs[..i] + [bs[i]], bs[i + 1..]);
    LiveConcat(bs[..i], [bs[i]]);
    assert Live(c) == {c[0]};
    assert Live([bs[i]]) == {};
  }

  lemma {:induction false} MarkTiles(bs: seq<Block>, i: nat, start: nat, end: nat)
    requires Tiles(bs, start, end) && i < |bs|
    ensures Tiles(bs[i := bs[i].(free := true)], start, end)
    decreases |bs|
  {
    var m := bs[i := bs[i].(free := true)];
    if i > 0 {
      MarkTiles(bs[1..], i - 1, bs[0].End(), end);
      assert m[1..] == bs[1..][i - 1 := bs[i].(free := true)];
    } else {
      assert m[1..] == bs[1..];
    }
  }

  /** The live block `b` joined the others and lies apart from them. */
  ghost predicate Joined(bs: seq<Block>, bs': seq<Block>, b: Block) {
    && Live(bs') == Live(bs) + {b} && b !in Live(bs)
    && forall c :: c in Live(bs) ==> c.End() <= b.addr || b.End() <= c.addr
  }

  /** The live block `b` was replaced by `b'`, apart from every live block. */
  ghost predicate Moved(bs: seq<Block>, bs': seq<Block>, b: Block, b': Block) {
    && Live(bs') == Live(bs) - {b} + {b'} && b' !in Live(bs)
    && forall c :: c in Live(bs) ==> c.End() <= b'.addr || b'.End() <= c.addr
  }

  lemma JoinedPayload(bs: seq<Block>, bs': seq<Block>, b: Block)
    requires Joined(bs, bs', b)
    ensures forall c :: c in Live(bs) ==> c.Payload() != b.Payload()
  {
  }

  lemma TakeNew(bs: seq<Block>, i: nat, req: nat, start: nat, end: nat)
    requires Tiles(bs, start, end) && i < |bs| && bs[i].size >= req && bs[i].free
    ensures var b := Carve(bs[i], req)[0];
            Joined(bs, Take(bs, i, req), b) && b.addr == bs[i].addr && Snug(b, req)
  {
    TakeLive(bs, i, req);
    var b := Carve(bs[i], req)[0];
    forall c | c in Live(bs) ensures c.End() <= b.addr || b.End() <= c.addr {
      var k :| 0 <= k < |bs| && bs[k] == c;
      TilesDisjoint(bs, if i < k then i else k, if i < k then k else i, start, end);
    }
  }

  lemma MarkLive(bs: seq<Block>, i: nat, start: nat, end: nat)
    requires Tiles(bs, start, end) && i < |bs|
    ensures Live(bs[i := bs[i].(free := true)]) == Live(bs) - {bs[i]}
  {
    var m := bs[i := bs[i].(free := true)];
    forall b | b in Live(bs) && b != bs[i] ensures b in Live(m) {
      var k :| 0 <= k < |bs| && bs[k] == b;
      assert m[k] == b;
    }
    forall b | b in Live(m) ensures b in Live(bs) && b != bs[i] {
      var k :| 0 <= k < |m| && m[k] == b;
      assert bs[k] == b;
      if b == bs[i] {
        TilesDisjoint(bs, if i < k then i else k, if i < k then k else i, start, end);
      }
    }
  }

  /** Releasing a block keeps a canonical tiling and removes just that live block. */
  lemma ReleaseKeeps(bs: seq<Block>, i: nat, start: nat, end: nat)
    requires Tiles(bs, start, end) && i < |bs|
    ensures Tiles(Release(bs, i), start, end)
    ensures Canonical(Release(bs, i))
    ensures Live(Release(bs, i)) == Live(bs) - {bs[i]}
  {
    var m := bs[i := bs[i].(free := true)];
    MarkTiles(bs, i, start, end);
    CoalesceTiles(m, start, end);
    CoalesceCanonical(m);
    CoalesceLive(m);
    MarkLive(bs, i, start, end);
  }

  /** Taking a block and releasing it again restores the exact block list. */
  lemma TakeRelease(bs: seq<Block>, i: nat, req: nat, start: nat, end: nat)
    requires Tiles(bs, start, end) && Canonical(bs)
    requires i < |bs| && bs[i].free && bs[i].size >= req
    ensures Release(Take(bs, i, req), i) == bs
  {
    var t := Take(bs, i, req);
    TakeTiles(bs, i, req, start, end);
    TakeLive(bs, i, req);
    ReleaseKeeps(t, i, start, end);
    assert t[i] == Carve(bs[i], req)[0];
    if t[i] in Live(bs) {
      var k :| 0 <= k < |bs| && bs[k] == t[i];
      TilesDisjoint(bs, if i < k then i else k, if i < k then k else i, start, end);
    }
    CanonicalUnique(Release(t, i), bs, start, end);
  }

  ghost predicate OneFree(bs: seq<Block>, start: nat, end: nat) {
    |bs| == 1 && bs[0].free && bs[0].addr == start && bs[0].size + 13 == end - start
  }

  /** An arena without live blocks is one free block. */
  lemma EmptyArena(bs: seq<Block>, start: nat, end: nat)
    requires Tiles(bs, start, end) && Canonical(bs) && Live(bs) == {} && bs != []
    ensures OneFree(bs, start, end)
  {
    TilesOrdered(bs, 0, start, end);
    var one := [Block(start, end - start - HEADER, true)];
    assert Tiles(one, start, end) by {
      assert Tiles(one[1..], end, end);
    }
    CanonicalUnique(bs, one, start, end);
  }

  /** The index of the block at an address, or `|bs|`. */
  function IndexOf(bs: seq<Block>, addr: nat): (i: nat)
    ensures i <= |bs|
    ensures i < |bs| ==> bs[i].addr == addr
    ensures (exists k :: 0 <= k < |bs| && bs[k].addr == addr) ==> i < |bs|
  {
    if bs == [] then 0 else if bs[0].addr == addr then 0 else 1 + IndexOf(bs[1..], addr)
  }

  /** Releases the blocks at the listed addresses, in that order. */
  function ReleaseAll(bs: seq<Block>, order: seq<nat>): seq<Block>
    decreases |order|
  {
    if order == [] then bs
    else
      var i := IndexOf(bs, order[0]);
      ReleaseAll(if i < |bs| then Release(bs, i) else bs, order[1..])
  }

  /** Whether a live block starts at `addr`. */
  ghost predicate IsLive(bs: seq<Block>, addr: nat) {
    exists b :: b in Live(bs) && b.addr == addr
  }

  /** Freeing every live block of an arena, in any order, leaves one free block of
      the arena's length less a header. */
  lemma {:induction false} ReleaseAllLeavesOne(bs: seq<Block>, order: seq<nat>, start: nat, end: nat)
    requires Tiles(bs, start, end) && Canonical(bs) && bs != []
    requires forall b :: b in Live(bs) ==> b.addr in order
    requires forall i :: 0 <= i < |order| ==> IsLive(bs, order[i])
    requires forall i, j :: 0 <= i < j < |order| ==> order[i] != order[j]
    ensures OneFree(ReleaseAll(bs, order), start, end)
    decreases |order|
  {
    hide Tiles, Canonical, OneFree, Release, Live;
    if order == [] {
      NothingLive(bs);
      EmptyArena(bs, start, end);
    } else {
      var b := LiveBlockAt(bs, order[0], start, end);
      var i := IndexOf(bs, order[0]);
      ReleaseKeeps(bs, i, start, end);
      var r := Release(bs, i);
      TilesNonEmpty(r, bs, start, end);
      OneLess(bs, r, b, order, start, end);
      ReleaseAllLeavesOne(r, order[1..], start, end);
    }
  }

  lemma NothingLive(bs: seq<Block>)
    requires forall b :: b !in Live(bs)
    ensures Live(bs) == {}
  {
  }

  lemma TilesNonEmpty(a: seq<Block>, b: seq<Block>, start: nat, end: nat)
    requires Tiles(a, start, end) && Tiles(b, start, end) && b != []
    ensures a != []
  {
    TilesBounds(b, start, end);
  }

  /** The live block at an address, and that no other is there. */
  lemma LiveBlockAt(bs: seq<Block>, addr: nat, start: nat, end: nat) returns (b: Block)
    requires Tiles(bs, start, end) && IsLive(bs, addr)
    ensures b in Live(bs) && IndexOf(bs, addr) < |bs| && bs[IndexOf(bs, addr)] == b && b.addr == addr
    ensures forall c :: c in Live(bs) && c.addr == addr ==> c == b
  {
    b :| b in Live(bs) && b.addr == addr;
    var k :| 0 <= k < |bs| && bs[k] == b;
    SameAddr(bs, IndexOf(bs, addr), k, start, end);
    forall c | c in Live(bs) && c.addr == addr
      ensures c == b
    {
      var l :| 0 <= l < |bs| && bs[l] == c;
      SameAddr(bs, k, l, start, end);
    }
  }

  /** After the first of `order` is released the rest lists the live blocks. */
  lemma OneLess(bs: seq<Block>, r: seq<Block>, b: Block, order: seq<nat>, start: nat, end: nat)
    requires order != [] && Live(r) == Live(bs) - {b} && b.addr == order[0]
    requires forall c :: c in Live(bs) && c.addr == order[0] ==> c == b
    requires forall c :: c in Live(bs) ==> c.addr in order
    requires forall i :: 0 <= i < |order| ==> IsLive(bs, order[i])
    requires forall i, j :: 0 <= i < j < |order| ==> order[i] != order[j]
    ensures forall c :: c in Live(r) ==> c.addr in order[1..]
    ensures forall i :: 0 <= i < |order[1..]| ==> IsLive(r, order[1..][i])
    ensures forall i, j :: 0 <= i < j < |order[1..]| ==> order[1..][i] != order[1..][j]
  {
    hide Live;
    assert order == [order[0]] + order[1..];
    forall i | 0 <= i < |order[1..]|
      ensures IsLive(r, order[1..][i])
    {
      assert IsLive(bs, order[i + 1]);
      var c :| c in Live(bs) && c.addr == order[i + 1];
      assert c in Live(r);
    }
  }

  lemma SameAddr(bs: seq<Block>, i: nat, k: nat, start: nat, end: nat)
    requires Tiles(bs, start, end) && i < |bs| && k < |bs| && bs[i].addr == bs[k].addr
    ensures i == k
  {
    if i < k {
      TilesDisjoint(bs, i, k, start, end);
    } else if k < i {
      TilesDisjoint(bs, k, i, start, end);
    }
  }

  // Growing the arena

  /** The list after `pages` fresh pages at `addr` become a block for `req` bytes. */
  function Extend(bs: seq<Block>, addr: nat, pages: nat, req: nat): seq<Block>
    requires req + HEADER <= pages * PAGE_SIZE
  {
    bs + Carve(Block(addr, pages * PAGE_SIZE - HEADER, true), req)
  }

  /** The longer list tiles an arena exactly when the pages start where it ended. */
  lemma ExtendTiles(bs: seq<Block>, addr: nat, pages: nat, req: nat, start: nat, end: nat)
    requires Tiles(bs, start, end) && req + HEADER <= pages * PAGE_SIZE
    ensures Tiles(Extend(bs, addr, pages, req), start, addr + pages * PAGE_SIZE) <==> addr == end
  {
    var c := Carve(Block(addr, pages * PAGE_SIZE - HEADER, true), req);
    var e := Extend(bs, addr, pages, req);
    var end' := addr + pages * PAGE_SIZE;
    assert Tiles(c, addr, end') by {
      assert Tiles(c[1..], c[0].End(), end');
    }
    if addr == end {
      TilesConcat(bs, c, start, end, end');
    } else if Tiles(e, start, end') {
      TilesSplit(e, |bs|, start, end');
      assert e[..|bs|] == bs;
      TilesSameEnd(bs, start, end, addr);
    }
  }

  lemma {:induction false} TilesSameEnd(bs: seq<Block>, start: nat, end: nat, end': nat)
    requires Tiles(bs, start, end) && Tiles(bs, start, end')
    ensures end == end'
    decreases |bs|
  {
    if bs != [] {
      TilesSameEnd(bs[1..], bs[0].End(), end, end');
    }
  }

  lemma ExtendCanonical(bs: seq<Block>, addr: nat, pages: nat, req: nat)
    requires Canonical(bs) && req + HEADER <= pages * PAGE_SIZE
    ensures Canonical(Extend(bs, addr, pages, req))
    ensures var b := Carve(Block(addr, pages * PAGE_SIZE - HEADER, true), req)[0];
            Live(Extend(bs, addr, pages, req)) == Live(bs) + {b}
  {
    var c := Carve(Block(addr, pages * PAGE_SIZE - HEADER, true), req);
    var e := Extend(bs, addr, pages, req);
    LiveConcat(bs, c);
    assert Live(c) == {c[0]};
    forall i | 0 <= i < |e| - 1 ensures Separated(e, i) {
      if i + 1 < |bs| {
        assert Separated(bs, i);
      }
    }
  }

  lemma ExtendNew(bs: seq<Block>, pages: nat, req: nat, start: nat, end: nat)
    requires Tiles(bs, start, end) && Canonical(bs) && req + HEADER <= pages * PAGE_SIZE
    ensures var b := Carve(Block(end, pages * PAGE_SIZE - HEADER, true), req)[0];
            Joined(bs, Extend(bs, end, pages, req), b) && b.addr == end && Snug(b, req)
  {
    ExtendCanonical(bs, end, pages, req);
    var b := Carve(Block(end, pages * PAGE_SIZE - HEADER, true), req)[0];
    forall c | c in Live(bs) ensures c.End() <= b.addr {
      var k :| 0 <= k < |bs| && bs[k] == c;
      TilesOrdered(bs, k, start, end);
    }
  }

  /** Merging list neighbours, wherever they lie, claims exactly their bytes if and only if
      the second starts where the first ends; otherwise it claims bytes of neither. */
  lemma MergeExact(a: Block, b: Block)
    ensures (forall x :: Merge(a, b).Holds(x) <==> a.Holds(x) || b.Holds(x)) <==> b.addr == a.End()
  {
    var last := Merge(a, b).End() - 1;
    if b.addr > a.End() {
      assert Merge(a, b).Holds(a.End()) && !a.Holds(a.End()) && !b.Holds(a.End());
    } else if b.addr < a.End() {
      assert Merge(a, b).Holds(last) && !a.Holds(last) && !b.Holds(last);
    }
  }

  /** Bytes in free and in live payloads. */
  function PayloadBytes(bs: seq<Block>, free: bool): nat {
    if bs == [] then 0
    else (if bs[0].free == free then bs[0].size else 0) + PayloadBytes(bs[1..], free)
  }

  lemma {:induction false} BytesConserved(bs: seq<Block>, start: nat, end: nat)
    requires Tiles(bs, start, end)
    ensures PayloadBytes(bs, true) + PayloadBytes(bs, false) + 13 * |bs| == end - start
    decreases |bs|
  {
    if bs != [] {
      BytesConserved(bs[1..], bs[0].End(), end);
    }
  }

  /** Rounding a request up to 4 bytes makes room for it exactly when it does not
      wrap: the three largest requests are rounded to 0. */
  lemma AlignedIsEnough(size: Word)
    ensures AlignUp4(size) >= size <==> size <= 0xFFFF_FFFC
    ensures size > 0xFFFF_FFFC ==> AlignUp4(size) == 0
    ensures size <= 0xFFFF_FFFC ==> AlignUp4(size) % 4 == 0 && AlignUp4(size) < size + 4
  {
  }

  /** The page count computed for a request on 32 bits. */
  function PagesOnWords(req: Word): nat {
    var bytes := (req as int + HEADER) % 0x1_0000_0000;
    (bytes + PAGE_SIZE - 1) % 0x1_0000_0000 / PAGE_SIZE
  }

  /** New pages have room for an aligned request exactly up to 0xFFFFEFF0 bytes. */
  lemma GrowthIsEnough(req: Word)
    requires req % 4 == 0
    ensures PagesOnWords(req) * PAGE_SIZE >= req as int + HEADER <==> req <= 0xFFFF_EFF0
  {
  }
}
