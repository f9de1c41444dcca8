/** The RAM file system: 64 slots changed in place, seen as a map from names to bytes. */
module RamFs {
  import opened Memory

  const MAX_FILES := 64
  const MAX_NAME := 64
  const MAX_DATA := 1024

  /** A slot with the parts of its embedded VFS node that are read back. */
  datatype Slot = Slot(used: bool, name: string, data: seq<Byte>, size: nat, nodeSize: nat, inode: nat)

  ghost predicate Good(f: Slot) {
    |f.data| == 1024 && f.size <= 1024 && |f.name| <= 63 && (f.used ==> f.nodeSize == f.size)
  }

  /** Every slot keeps to its bounds, and a file has the number of its slot, counted from 1;
      nothing here says that names are unique. */
  ghost predicate AllGood(slots: seq<Slot>) {
    && |slots| == 64
    && (forall i :: 0 <= i < |slots| ==> Good(slots[i]))
    && (forall i :: 0 <= i < |slots| && slots[i].used ==> slots[i].inode == i + 1)
  }

  ghost predicate Distinct(slots: seq<Slot>) {
    forall i, j :: 0 <= i < j < |slots| && slots[i].used && slots[j].used ==> slots[i].name != slots[j].name
  }

  predicate Named(f: Slot, name: string) {
    f.used && f.name == name
  }

  // ---- the map a table stands for ----

  /** The slot that `ramfs_find` reports. */
  function Find(slots: seq<Slot>, name: string): (r: int)
    ensures -1 <= r < |slots|
    ensures 0 <= r ==> Named(slots[r], name)
    ensures forall i :: 0 <= i < (if r < 0 then |slots| else r) ==> !Named(slots[i], name)
  {
    if slots == [] then -1
    else
      var n := |slots| - 1;
      var r := Find(slots[..n], name);
      if r >= 0 then r else if Named(slots[n], name) then n else -1
  }

  /** The first slot not in use. */
  function Free(slots: seq<Slot>): (r: int)
    ensures -1 <= r < |slots|
    ensures 0 <= r ==> !slots[r].used
    ensures forall i :: 0 <= i < (if r < 0 then |slots| else r) ==> slots[i].used
  {
    if slots == [] then -1
    else
      var n := |slots| - 1;
      var r := Free(slots[..n]);
      if r >= 0 then r else if !slots[n].used then n else -1
  }

  function Content(f: Slot): seq<Byte>
    requires f.size <= |f.data|
  {
    f.data[..f.size]
  }

  ghost function Names(slots: seq<Slot>): set<string> {
    set i | 0 <= i < |slots| && slots[i].used :: slots[i].name
  }

  lemma NamedIsFound(slots: seq<Slot>, name: string)
    ensures name in Names(slots) <==> Find(slots, name) >= 0
  {
  }

  /** The file system as its users see it. */
  ghost function Files(slots: seq<Slot>): (m: map<string, seq<Byte>>)
    requires AllGood(slots)
    ensures m.Keys == Names(slots)
  {
    map name | name in Names(slots) :: ContentOf(slots, name)
  }

  ghost function ContentOf(slots: seq<Slot>, name: string): seq<Byte>
    requires AllGood(slots) && name in Names(slots)
  {
    NamedIsFound(slots, name);
    Content(slots[Find(slots, name)])
  }

  /** With unique names, any used slot under a name is the one that is found. */
  lemma FoundIsUnique(slots: seq<Slot>, i: int)
    requires Distinct(slots) && 0 <= i < |slots| && slots[i].used
    ensures Find(slots, slots[i].name) == i
  {
    var r := Find(slots, slots[i].name);
    assert Named(slots[i], slots[i].name);
  }

  // ---- create, delete, write ----

  function Truncated(name: string): string {
    if |name| < MAX_NAME then name else name[..MAX_NAME - 1]
  }

  function Fresh(f: Slot, name: string, i: nat): Slot
    requires |f.data| == MAX_DATA
  {
    Slot(true, Truncated(name), f.data[0 := 0], 0, 0, i + 1)
  }

  function Erased(f: Slot): Slot {
    f.(used := false, size := 0, name := "")
  }

  /** Where `ramfs_create` puts a file, or -1. */
  function CreateAt(slots: seq<Slot>, name: string): int {
    if Find(slots, name) >= 0 then -1 else Free(slots)
  }

  function Created(slots: seq<Slot>, name: string): seq<Slot>
    requires forall i :: 0 <= i < |slots| ==> |slots[i].data| == MAX_DATA
  {
    var i := CreateAt(slots, name);
    if i < 0 then slots else slots[i := Fresh(slots[i], name, i)]
  }

  function Deleted(slots: seq<Slot>, name: string): seq<Slot> {
    var i := Find(slots, name);
    if i < 0 then slots else slots[i := Erased(slots[i])]
  }

  /** What stands in slot `i` decides only what is found under the names before and after. */
  lemma {:induction false} FindAfterUpdate(slots: seq<Slot>, i: nat, f: Slot, name: string)
    requires i < |slots|
    requires !Named(slots[i], name) || Find(slots, name) == i
    requires Named(f, name) ==> forall k :: 0 <= k < |slots| && k != i ==> !Named(slots[k], name)
    requires Named(slots[i], name) && !Named(f, name) ==>
               forall k :: i < k < |slots| ==> !Named(slots[k], name)
    ensures Find(slots[i := f], name)
            == if Named(f, name) then i else if Named(slots[i], name) then -1 else Find(slots, name)
  {
    var after := slots[i := f];
    var r, q := Find(after, name), Find(slots, name);
    if r >= 0 {
      assert Named(after[r], name);
    }
    if q >= 0 {
      assert Named(slots[q], name);
    }
    if q >= 0 && q != i {
      assert Named(after[q], name);
    }
    if Named(f, name) {
      assert Named(after[i], name);
    }
    if 0 <= r && r != i {
      assert Named(slots[r], name);
    }
  }

  /** Changing a slot but not its name changes nothing that is found. */
  lemma SameNameFinds(slots: seq<Slot>, i: nat, f: Slot, name: string)
    requires i < |slots| && f.used == slots[i].used && f.name == slots[i].name
    ensures Find(slots[i := f], name) == Find(slots, name)
  {
    var r, q := Find(slots[i := f], name), Find(slots, name);
    assert 0 <= r ==> Named(slots[r], name);
    assert 0 <= q ==> Named(slots[i := f][q], name);
  }

  lemma CreateFinds(slots: seq<Slot>, name: string, other: string)
    requires AllGood(slots) && |name| <= 63 && CreateAt(slots, name) >= 0
    ensures Find(Created(slots, name), other)
            == if other == name then CreateAt(slots, name) else Find(slots, other)
  {
    var i := CreateAt(slots, name);
    FindAfterUpdate(slots, i, Fresh(slots[i], name, i), other);
  }

  lemma DeleteFinds(slots: seq<Slot>, name: string, other: string)
    requires AllGood(slots) && Distinct(slots) && Find(slots, name) >= 0
    ensures Find(Deleted(slots, name), other) == if other == name then -1 else Find(slots, other)
  {
    var i := Find(slots, name);
    FindAfterUpdate(slots, i, Erased(slots[i]), other);
  }

  lemma MapsEqual(m: map<string, seq<Byte>>, n: map<string, seq<Byte>>)
    requires forall k :: k in m <==> k in n
    requires forall k :: k in m ==> m[k] == n[k]
    ensures m == n
  {
  }

  /** Creating succeeds exactly when the name is new and a slot is free, and then adds
      one empty file and keeps names unique. */
  lemma CreateRefines(slots: seq<Slot>, name: string)
    requires AllGood(slots) && Distinct(slots) && |name| <= 63
    ensures AllGood(Created(slots, name)) && Distinct(Created(slots, name))
    ensures CreateAt(slots, name) >= 0 <==>
            name !in Files(slots) && exists i :: 0 <= i < |slots| && !slots[i].used
    ensures Files(Created(slots, name))
            == if CreateAt(slots, name) >= 0 then Files(slots)[name := []] else Files(slots)
  {
    NamedIsFound(slots, name);
    var i := CreateAt(slots, name);
    if i >= 0 {
      var after := Created(slots, name);
      forall k, l | 0 <= k < l < |after| && after[k].used && after[l].used
        ensures after[k].name != after[l].name
      {
        assert k != i ==> !Named(slots[k], name);
        assert l != i ==> !Named(slots[l], name);
      }
      var m, n := Files(after), Files(slots)[name := []];
      forall other: string
        ensures other in m <==> other in n
        ensures other in m ==> m[other] == n[other]
      {
        CreateFinds(slots, name, other);
        NamedIsFound(slots, other);
        NamedIsFound(after, other);
      }
      MapsEqual(m, n);
    }
  }

  /** Under any name at all: the new file can be found by it exactly when it has at most
      63 characters, and names stay unique exactly when the stored part of it is new. */
  lemma LongNames(slots: seq<Slot>, name: string)
    requires AllGood(slots) && Distinct(slots) && CreateAt(slots, name) >= 0
    ensures AllGood(Created(slots, name))
    ensures name in Names(Created(slots, name)) <==> |name| <= 63
    ensures Distinct(Created(slots, name)) <==> Truncated(name) !in Names(slots)
  {
    var i := CreateAt(slots, name);
    var after := Created(slots, name);
    NamedIsFound(slots, name);
    assert after[i].used && after[i].name == Truncated(name);
    if Truncated(name) in Names(slots) {
      NamedIsFound(slots, Truncated(name));
      var k := Find(slots, Truncated(name));
      assert after[k].used && after[k].name == after[i].name && k != i;
    } else {
      forall k, l | 0 <= k < l < |after| && after[k].used && after[l].used
        ensures after[k].name != after[l].name
      {
        assert k != i ==> slots[k].name in Names(slots);
        assert l != i ==> slots[l].name in Names(slots);
      }
    }
  }

  /** Two names with the same first 63 characters end up as two files of one name. */
  lemma LongNamesCollide(slots: seq<Slot>, prefix: string, x: char, y: char)
    requires AllGood(slots) && Distinct(slots) && |prefix| == 63
    requires CreateAt(slots, prefix + [x]) >= 0 && Distinct(Created(slots, prefix + [x]))
    requires AllGood(Created(slots, prefix + [x]))
    requires CreateAt(Created(slots, prefix + [x]), prefix + [y]) >= 0
    ensures !Distinct(Created(Created(slots, prefix + [x]), prefix + [y]))
  {
    var one := Created(slots, prefix + [x]);
    var i := CreateAt(slots, prefix + [x]);
    assert Truncated(prefix + [x]) == prefix == Truncated(prefix + [y]);
    assert one[i].used && one[i].name == prefix;
    assert prefix in Names(one);
    LongNames(one, prefix + [y]);
  }

  /** Deleting succeeds exactly for an existing file and removes only that file. */
  lemma DeleteRefines(slots: seq<Slot>, name: string)
    requires AllGood(slots) && Distinct(slots)
    ensures AllGood(Deleted(slots, name)) && Distinct(Deleted(slots, name))
    ensures Find(slots, name) >= 0 <==> name in Files(slots)
    ensures Files(Deleted(slots, name)) == Files(slots) - {name}
  {
    hide Names, Find;
    NamedIsFound(slots, name);
    var m, n := Files(Deleted(slots, name)), Files(slots) - {name};
    if Find(slots, name) >= 0 {
      forall other: string
        ensures other in m <==> other in n
        ensures other in m ==> m[other] == n[other]
      {
        DeleteFinds(slots, name, other);
        NamedIsFound(slots, other);
        NamedIsFound(Deleted(slots, name), other);
      }
    }
    MapsEqual(m, n);
  }

  /** Changing the bytes and size of one used slot changes that one file. */
  lemma RewriteRefines(slots: seq<Slot>, i: nat, f: Slot)
    requires AllGood(slots) && Distinct(slots) && i < |slots| && slots[i].used
    requires Good(f) && Named(f, slots[i].name) && f.inode == slots[i].inode
    ensures AllGood(slots[i := f]) && Distinct(slots[i := f])
    ensures Files(slots[i := f]) == Files(slots)[slots[i].name := Content(f)]
  {
    var after := slots[i := f];
    FoundIsUnique(slots, i);
    var m, n := Files(after), Files(slots)[slots[i].name := Content(f)];
    forall other: string
      ensures other in m <==> other in n
      ensures other in m ==> m[other] == n[other]
    {
      FindAfterUpdate(slots, i, f, other);
      NamedIsFound(slots, other);
      NamedIsFound(after, other);
    }
    MapsEqual(m, n);
  }

  // ---- reading and writing at an offset ----

  /** The length both node operations use, in 32-bit arithmetic. */
  function Clamp(offset: Word, size: Word, limit: nat): nat {
    if (offset + size) % 0x1_0000_0000 > limit then (limit - offset) % 0x1_0000_0000 else size
  }

  /** The clamped length stays inside exactly when offset plus size does not wrap. */
  lemma ClampIsBounded(offset: Word, size: Word, limit: Word)
    requires offset < limit
    ensures offset + Clamp(offset, size, limit) <= limit <==> offset + size < 0x1_0000_0000
    ensures offset + size < 0x1_0000_0000 ==>
              Clamp(offset, size, limit) == if offset + size > limit then limit - offset else size
  {
    if offset + size >= 0x1_0000_0000 {
      assert (offset + size) % 0x1_0000_0000 == offset + size - 0x1_0000_0000;
    }
  }

  /** `c` with `b` laid over it at `offset`. */
  function Overlay(c: seq<Byte>, offset: nat, b: seq<Byte>): seq<Byte>
    requires offset <= |c|
  {
    c[..offset] + b + if offset + |b| < |c| then c[offset + |b|..] else []
  }

  function Zeros(n: nat): seq<Byte> {
    seq(n, i => 0)
  }

  /** `c` padded with zeros up to `offset`. */
  function Padded(c: seq<Byte>, offset: nat): seq<Byte> {
    if offset <= |c| then c else c + Zeros(offset - |c|)
  }

  /** Slot `f` after `ramfs_vfs_write` stored `b` at `offset`. */
  function Rewritten(f: Slot, offset: nat, b: seq<Byte>): Slot
    requires |f.data| == MAX_DATA && offset + |b| <= MAX_DATA
  {
    var data := f.data[..offset] + b + f.data[offset + |b|..];
    if offset + |b| > f.size then f.(data := data, size := offset + |b|, nodeSize := offset + |b|)
    else f.(data := data)
  }

  /** A write lays its bytes over the old contents and whatever the slot holds between
      the old end and the offset. */
  lemma WriteLaysOver(f: Slot, offset: nat, b: seq<Byte>)
    requires Good(f) && f.used && offset + |b| <= MAX_DATA
    ensures var f' := Rewritten(f, offset, b);
            && Good(f') && f'.used && f'.name == f.name
            && Content(f') == Overlay(if offset <= f.size then Content(f) else f.data[..offset], offset, b)
  {
  }

  /** That is the old contents, padded with zeros, under the new bytes exactly when the
      write does not start beyond the end or the slot holds zeros there. */
  lemma WriteIsOverlay(f: Slot, offset: nat, b: seq<Byte>)
    requires Good(f) && f.used && offset + |b| <= MAX_DATA
    ensures Content(Rewritten(f, offset, b)) == Overlay(Padded(Content(f), offset), offset, b)
            <==> forall k :: f.size <= k < offset ==> f.data[k] == 0
  {
    WriteLaysOver(f, offset, b);
    var c, want := Content(Rewritten(f, offset, b)), Overlay(Padded(Content(f), offset), offset, b);
    if offset > f.size {
      assert |c| == |want| == offset + |b|;
      forall k | 0 <= k < |c|
        ensures c[k] == want[k] <==> (f.size <= k < offset ==> f.data[k] == 0)
      {
      }
      if c == want {
        forall k | f.size <= k < offset
          ensures f.data[k] == 0
        {
          assert c[k] == want[k];
        }
      }
    }
  }

  /** A slot that held [7, 8, 9], was deleted and created again, and gets a byte at offset 2:
      the 8 of the old file shows in the new one. */
  lemma StaleByteShows(f: Slot, name: string, other: string, i: nat)
    requires |f.data| == MAX_DATA
    ensures var again := Fresh(Erased(Rewritten(Fresh(f, name, i), 0, [7, 8, 9])), other, i);
            && Content(Rewritten(again, 2, [1])) == [0, 8, 1]
            && Overlay(Padded(Content(again), 2), 2, [1]) == [0, 0, 1]
  {
    var once := Rewritten(Fresh(f, name, i), 0, [7, 8, 9]);
    var again := Fresh(Erased(once), other, i);
    assert once.data[1] == 8;
    assert again.data[..2] == [0, 8];
    assert Content(Rewritten(again, 2, [1])) == [0, 8] + [1];
    assert Padded(Content(again), 2) == [0, 0];
  }

  /** What `ramfs_vfs_read` copies from a file with contents `c`. */
  function ReadBack(c: seq<Byte>, offset: nat, size: nat): (r: seq<Byte>)
    ensures |r| == if offset >= |c| then 0 else if size <= |c| - offset then size else |c| - offset
    ensures forall k :: 0 <= k < |r| ==> r[k] == c[offset + k]
  {
    if offset >= |c| then [] else if offset + size > |c| then c[offset..] else c[offset..offset + size]
  }

  /** Reading through any window of an overlay gives the written bytes inside the
      written range and the old ones outside it. */
  lemma ReadAfterWrite(c: seq<Byte>, offset: nat, b: seq<Byte>, from: nat, size: nat)
    requires offset <= |c|
    ensures var r := ReadBack(Overlay(c, offset, b), from, size);
            forall k :: 0 <= k < |r| ==>
              r[k] == if offset <= from + k < offset + |b| then b[from + k - offset] else c[from + k]
    ensures ReadBack(Overlay(c, offset, b), offset, |b|) == b
  {
  }

  /** Slot `f` after `ramfs_write` stored `b`. */
  function Replaced(f: Slot, b: seq<Byte>): Slot
    requires |f.data| == MAX_DATA && |b| <= MAX_DATA
  {
    f.(data := b + f.data[|b|..], size := |b|, nodeSize := |b|)
  }

  /** Whole-file writing replaces the contents of exactly one file. */
  lemma WriteRefines(slots: seq<Slot>, name: string, b: seq<Byte>)
    requires AllGood(slots) && Distinct(slots) && |b| <= MAX_DATA
    ensures name in Files(slots) <==> Find(slots, name) >= 0
    ensures var i := Find(slots, name);
            i >= 0 ==>
              var after := slots[i := Replaced(slots[i], b)];
              AllGood(after) && Distinct(after) && Files(after) == Files(slots)[name := b]
  {
    hide Find, Files, Names, Distinct;
    NamedIsFound(slots, name);
    var i := Find(slots, name);
    if i >= 0 {
      var f := Replaced(slots[i], b);
      assert Content(f) == b;
      RewriteRefines(slots, i, f);
    }
  }

  // ---- enumeration ----

  /** The slots in use, in order. */
  function Live(slots: seq<Slot>): seq<nat> {
    if slots == [] then [] else
    var n := |slots| - 1;
    Live(slots[..n]) + if slots[n].used then [n] else []
  }

  /** Counting up through the directory meets every used slot exactly once, in order. */
  lemma {:induction false} LiveOnce(slots: seq<Slot>)
    ensures forall k :: 0 <= k < |Live(slots)| ==> Live(slots)[k] < |slots| && slots[Live(slots)[k]].used
    ensures forall i :: 0 <= i < |slots| && slots[i].used ==> i in Live(slots)
    ensures forall k, l :: 0 <= k < l < |Live(slots)| ==> Live(slots)[k] < Live(slots)[l]
  {
    LiveSorted(slots);
    forall i | 0 <= i < |slots| && slots[i].used
      ensures i in Live(slots)
    {
      LiveHas(slots, i);
    }
  }

  lemma {:induction false} LiveHas(slots: seq<Slot>, i: nat)
    requires i < |slots| && slots[i].used
    ensures i in Live(slots)
    decreases |slots|
  {
    var n := |slots| - 1;
    if i < n {
      LiveHas(slots[..n], i);
    }
  }

  lemma {:induction false} LiveSorted(slots: seq<Slot>)
    ensures forall k :: 0 <= k < |Live(slots)| ==> Live(slots)[k] < |slots| && slots[Live(slots)[k]].used
    ensures forall k, l :: 0 <= k < l < |Live(slots)| ==> Live(slots)[k] < Live(slots)[l]
  {
    if slots != [] {
      var n := |slots| - 1;
      LiveSorted(slots[..n]);
      var before, live := Live(slots[..n]), Live(slots);
      forall k | 0 <= k < |live|
        ensures live[k] < |slots| && slots[live[k]].used
      {
        assert k < |before| ==> live[k] == before[k] && slots[..n][before[k]] == slots[before[k]];
      }
    }
  }

  /** With unique names there are as many directory entries as files, at most 64. */
  lemma {:induction false} LiveCountsFiles(slots: seq<Slot>)
    requires Distinct(slots)
    ensures |Live(slots)| == |Names(slots)| <= |slots|
  {
    hide Names;
    if slots == [] {
      NoNames();
    } else {
      var n := |slots| - 1;
      LiveCountsFiles(slots[..n]);
      NamesSnoc(slots);
    }
  }

  lemma NoNames()
    ensures Names([]) == {}
  {
  }

  lemma NamesSnoc(slots: seq<Slot>)
    requires Distinct(slots) && slots != []
    ensures var n := |slots| - 1;
            var before := Names(slots[..n]);
            && Names(slots) == before + (if slots[n].used then {slots[n].name} else {})
            && (slots[n].used ==> slots[n].name !in before)
  {
    var n := |slots| - 1;
    var before := Names(slots[..n]);
    var after := before + if slots[n].used then {slots[n].name} else {};
    forall name | name in Names(slots)
      ensures name in after
    {
      var i :| 0 <= i < |slots| && slots[i].used && slots[i].name == name;
      assert i < n ==> slots[..n][i] == slots[i];
    }
    forall name | name in after
      ensures name in Names(slots)
    {
      if name in before {
        var i :| 0 <= i < n && slots[..n][i].used && slots[..n][i].name == name;
        assert slots[i] == slots[..n][i];
      }
    }
  }

  // ---- the table in place ----

  class Ramfs {
    const files: array<Slot>

    ghost predicate Valid()
      reads files
    {
      AllGood(files[..])
    }

    /** `ramfs_init` before it adds its read-me file. */
    constructor ()
      ensures Valid() && fresh(files) && Distinct(files[..]) && Files(files[..]) == map[]
    {
      files := new Slot[MAX_FILES](i => Slot(false, "", Zeros(MAX_DATA), 0, 0, 0));
      new;
      assert Names(files[..]) == {};
    }

    /** `ramfs_find`. */
    method Lookup(name: string) returns (r: int)
      requires Valid()
      ensures r == Find(files[..], name)
    {
      for i := 0 to MAX_FILES
        invariant forall k :: 0 <= k < i ==> !Named(files[k], name)
      {
        if files[i].used && files[i].name == name {
          return i;
        }
      }
      return -1;
    }

    /** `ramfs_create`. */
    method Create(name: string) returns (rc: int)
      requires Valid()
      modifies files
      ensures Valid() && files[..] == Created(old(files[..]), name)
      ensures rc == if CreateAt(old(files[..]), name) >= 0 then 0 else -1
      ensures rc == 0 ==>
                var i := CreateAt(old(files[..]), name);
                files[i].data[0] == 0 && files[i].data[1..] == old(files[i].data[1..])
    {
      var at := Lookup(name);
      if at >= 0 {
        return -1;
      }
      for i := 0 to MAX_FILES
        invariant forall k :: 0 <= k < i ==> files[k].used
        invariant files[..] == old(files[..])
      {
        if !files[i].used {
          var f := files[i];
          files[i] := Slot(true, if |name| < MAX_NAME then name else name[..MAX_NAME - 1], f.data[0 := 0], 0, 0, i + 1);
          return 0;
        }
      }
      return -1;
    }

    /** `ramfs_delete`. */
    method Delete(name: string) returns (rc: int)
      requires Valid()
      modifies files
      ensures Valid() && files[..] == Deleted(old(files[..]), name)
      ensures rc == if Find(old(files[..]), name) >= 0 then 0 else -1
    {
      var i := Lookup(name);
      if i < 0 {
        return -1;
      }
      files[i] := files[i].(used := false, size := 0, name := "");
      return 0;
    }

    /** `ramfs_write`: replaces the whole file. */
    method Write(name: string, b: seq<Byte>) returns (rc: int)
      requires Valid()
      modifies files
      ensures Valid()
      ensures var i := Find(old(files[..]), name);
              var kept := if |b| > MAX_DATA then b[..MAX_DATA] else b;
              if i < 0 then rc == -1 && files[..] == old(files[..])
              else rc == |kept| <= 1024 && files[..] == old(files[..])[i := Replaced(old(files[..])[i], kept)]
    {
      hide Find;
      var i := Lookup(name);
      if i < 0 {
        return -1;
      }
      var n := if |b| > MAX_DATA then MAX_DATA else |b|;
      var f := files[i];
      files[i] := f.(data := b[..n] + f.data[n..], size := n, nodeSize := n);
      assert b[..n] == if |b| > MAX_DATA then b[..MAX_DATA] else b;
      return n;
    }

    /** `ramfs_read`: a prefix of the file. */
    method Read(name: string, len: nat) returns (rc: int, b: seq<Byte>)
      requires Valid()
      ensures var m := Files(files[..]);
              if name in m
              then rc == |b| && b == ReadBack(m[name], 0, len)
              else rc == -1 && b == []
    {
      NamedIsFound(files[..], name);
      var i := Lookup(name);
      if i < 0 {
        return -1, [];
      }
      var n := if len < files[i].size then len else files[i].size;
      return n, files[i].data[..n];
    }

    /** `ramfs_vfs_read` on the node of slot `i`. */
    method ReadNode(i: nat, offset: Word, size: Word) returns (rc: int, b: seq<Byte>)
      requires Valid() && i < MAX_FILES && offset + size < 0x1_0000_0000
      ensures if files[i].used
              then rc == |b| && b == ReadBack(Content(files[i]), offset, size)
              else rc == -1 && b == []
    {
      if !files[i].used {
        return -1, [];
      }
      if offset >= files[i].size {
        return 0, [];
      }
      var n := Clamp(offset, size, files[i].size);
      ClampIsBounded(offset, size, files[i].size);
      return n, files[i].data[offset..offset + n];
    }

    /** `ramfs_vfs_write` on the node of slot `i`. */
    method WriteNode(i: nat, offset: Word, b: seq<Byte>) returns (rc: int)
      requires Valid() && i < MAX_FILES && offset + |b| < 0x1_0000_0000
      modifies files
      ensures Valid()
      ensures var f := old(files[i]);
              if !f.used || offset >= MAX_DATA then rc == -1 && files[..] == old(files[..])
              else
                && rc == (if offset + |b| > MAX_DATA then MAX_DATA - offset else |b|)
                && files[..] == old(files[..])[i := Rewritten(f, offset, b[..rc])]
    {
      if !files[i].used || offset >= MAX_DATA {
        return -1;
      }
      var n := Clamp(offset, |b|, MAX_DATA);
      ClampIsBounded(offset, |b|, MAX_DATA);
      var f := files[i];
      WriteLaysOver(f, offset, b[..n]);
      files[i] := f.(data := f.data[..offset] + b[..n] + f.data[offset + n..]);
      if offset + n > f.size {
        files[i] := files[i].(size := offset + n, nodeSize := offset + n);
      }
      return n;
    }

    /** `ramfs_vfs_readdir`: the `index`-th file, or -1 after the last one. */
    method ReadDir(index: nat) returns (r: int)
      requires Valid()
      ensures var live := Live(files[..]);
              r == if index < |live| then live[index] else -1
    {
      var active := 0;
      for i := 0 to MAX_FILES
        invariant active == |Live(files[..i])| <= index
      {
        assert files[..i + 1][..i] == files[..i];
        if files[i].used {
          if active == index {
            LivePrefix(files[..], i + 1);
            return i;
          }
          active := active + 1;
        }
      }
      assert files[..MAX_FILES] == files[..];
      return -1;
    }
  }

  lemma {:induction false} LivePrefix(slots: seq<Slot>, n: nat)
    requires n <= |slots|
    ensures Live(slots[..n]) <= Live(slots)
    decreases |slots|
  {
    if n == |slots| {
      assert slots[..n] == slots;
    } else {
      LivePrefix(slots[..|slots| - 1], n);
      assert slots[..|slots| - 1][..n] == slots[..n];
    }
  }

  const WELCOME := "Welcome to Dionnex Monolithic Kernel v0.1!"

  /** The bytes of a text of one-byte characters. */
  function TextBytes(t: string): seq<Byte> {
    seq(|t|, i requires 0 <= i < |t| => t[i] as int % 0x100)
  }

  /** `ramfs_init`: one file, the read-me. */
  method Init() returns (fs: Ramfs)
    ensures fresh(fs) && fresh(fs.files) && fs.Valid() && Distinct(fs.files[..])
    ensures Files(fs.files[..]) == map["readme.txt" := TextBytes(WELCOME)]
    ensures |TextBytes(WELCOME)| == 42
    ensures forall k :: 0 <= k < 42 ==>
              TextBytes(WELCOME)[k] == "Welcome to Dionnex Monolithic Kernel v0.1!"[k] as int
  {
    hide Find, Files, Names, Distinct, TextBytes;
    fs := new Ramfs();
    ghost var empty := fs.files[..];
    EmptyTakesAny(empty, "readme.txt");
    CreateRefines(empty, "readme.txt");
    var rc := fs.Create("readme.txt");
    ghost var one := fs.files[..];
    TextLength(WELCOME);
    WriteRefines(one, "readme.txt", TextBytes(WELCOME));
    rc := fs.Write("readme.txt", TextBytes(WELCOME));
    WelcomeText();
  }

  lemma WelcomeText()
    ensures |TextBytes(WELCOME)| == 42
    ensures forall k :: 0 <= k < 42 ==>
              TextBytes(WELCOME)[k] == "Welcome to Dionnex Monolithic Kernel v0.1!"[k] as int
  {
  }

  lemma EmptyTakesAny(slots: seq<Slot>, name: string)
    requires AllGood(slots) && Files(slots) == map[]
    ensures CreateAt(slots, name) >= 0
  {
    NamedIsFound(slots, name);
    if slots[0].used {
      UsedIsNamed(slots, 0);
    }
  }

  lemma UsedIsNamed(slots: seq<Slot>, i: nat)
    requires i < |slots| && slots[i].used
    ensures slots[i].name in Names(slots)
  {
  }

  lemma TextLength(t: string)
    ensures |TextBytes(t)| == |t|
  {
  }
}
