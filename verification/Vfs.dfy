/** The virtual file system: a tree of directory nodes linked by first child and next
    sibling, walked by path, over the RAM file system. */
module VirtualFs {
  import opened Memory
  import opened RamFs
  import opened Paths
  import opened Options

  /** Which operations a directory carries: the root's, the RAM file system's, or those of
      a file system with a fixed list of entries. */
  datatype Kind = RootOps | RamOps | FixedOps(entries: seq<string>)

  /** A node; `children` and `next` are indices of nodes, or -1. */
  datatype Node = Node(name: string, isDir: bool, mounted: bool, kind: Kind, children: int, next: int)

  /** What a path can lead to: a node of the tree, a RAM file's slot, a fixed entry. */
  datatype Ref = Dir(n: nat) | File(slot: nat) | Entry(n: nat, k: nat)

  // ---- the sibling lists ----

  ghost function Link(list: seq<nat>, k: nat): int {
    if k < |list| then list[k] else -1
  }

  ghost predicate Linked(nodes: seq<Node>, list: seq<nat>, k: nat)
    requires k < |list|
  {
    list[k] < |nodes| && nodes[list[k]].mounted && nodes[list[k]].next == Link(list, k + 1)
  }

  /** Following `next` from `head` visits the nodes of `list`, all of them mounted. */
  ghost predicate Chain(nodes: seq<Node>, head: int, list: seq<nat>) {
    head == Link(list, 0) && forall k :: 0 <= k < |list| ==> Linked(nodes, list, k)
  }

  /** Every directory has its finite list of children, and no node stands in two places. */
  ghost predicate Forest(nodes: seq<Node>, kids: seq<seq<nat>>) {
    && |kids| == |nodes|
    && (forall p :: 0 <= p < |nodes| ==> Chain(nodes, nodes[p].children, kids[p]))
    && Separate(kids)
  }

  ghost predicate Separate(kids: seq<seq<nat>>) {
    forall p, i, q, j :: At(kids, p, i) && At(kids, q, j) && kids[p][i] == kids[q][j] ==> p == q && i == j
  }

  ghost predicate At(kids: seq<seq<nat>>, p: int, i: int) {
    0 <= p < |kids| && 0 <= i < |kids[p]|
  }

  // ---- one step of a lookup ----

  /** The first node of `list` with that name. */
  ghost function FirstNamed(nodes: seq<Node>, list: seq<nat>, name: string): (r: int)
    requires forall k :: 0 <= k < |list| ==> list[k] < |nodes|
    ensures r == -1 || 0 <= r < |nodes|
  {
    if list == [] then -1
    else if nodes[list[0]].name == name then list[0]
    else FirstNamed(nodes, list[1..], name)
  }

  /** The first entry of that name, or -1. */
  function Index(entries: seq<string>, name: string): (r: int)
    ensures -1 <= r < |entries|
    ensures r >= 0 ==> entries[r] == name && forall k :: 0 <= k < r ==> entries[k] != name
    ensures r < 0 <==> name !in entries
  {
    if entries == [] then -1
    else if entries[0] == name then 0
    else
      var r := Index(entries[1..], name);
      if r < 0 then -1 else r + 1
  }

  /** The tree and the RAM table that a lookup reads. */
  datatype Tree = Tree(nodes: seq<Node>, kids: seq<seq<nat>>, slots: seq<Slot>)

  ghost predicate Ok(t: Tree) {
    Forest(t.nodes, t.kids)
  }

  ghost predicate IsDir(t: Tree, r: Ref) {
    r.Dir? && r.n < |t.nodes| && t.nodes[r.n].isDir
  }

  lemma ChainInRange(t: Tree, p: nat)
    requires Ok(t) && p < |t.nodes|
    ensures forall k :: 0 <= k < |t.kids[p]| ==> t.kids[p][k] < |t.nodes|
  {
    assert Chain(t.nodes, t.nodes[p].children, t.kids[p]);
    forall k | 0 <= k < |t.kids[p]|
      ensures t.kids[p][k] < |t.nodes|
    {
      assert Linked(t.nodes, t.kids[p], k);
    }
  }

  /** `vfs_finddir` on a directory. */
  ghost function FindDir(t: Tree, r: Ref, name: string): (q: Option<Ref>)
    requires Ok(t) && IsDir(t, r)
    ensures q.Some? && q.value.Dir? ==> q.value.n < |t.nodes|
  {
    match t.nodes[r.n].kind
    case RootOps =>
      ChainInRange(t, r.n);
      var i := FirstNamed(t.nodes, t.kids[r.n], name);
      if i < 0 then None else Some(Dir(i))
    case RamOps =>
      var i := Find(t.slots, name);
      if i < 0 then None else Some(File(i))
    case FixedOps(entries) =>
      var i := Index(entries, name);
      if i < 0 then None else Some(Entry(r.n, i))
  }

  /** `q` is the first thing called `name` in the directory `r`. */
  ghost predicate FirstCalled(t: Tree, r: Ref, name: string, q: Ref)
    requires Ok(t) && IsDir(t, r)
  {
    var kind, list := t.nodes[r.n].kind, t.kids[r.n];
    match q
    case Dir(n) =>
      kind == RootOps && n < |t.nodes| && t.nodes[n].name == name
      && exists k :: 0 <= k < |list| && list[k] == n && NoneCalled(t.nodes, list[..k], name)
    case File(i) =>
      kind == RamOps && i < |t.slots| && Named(t.slots[i], name)
      && forall j :: 0 <= j < i ==> !Named(t.slots[j], name)
    case Entry(n, k) =>
      kind.FixedOps? && n == r.n && k < |kind.entries| && kind.entries[k] == name && name !in kind.entries[..k]
  }

  ghost predicate NoneCalled(nodes: seq<Node>, list: seq<nat>, name: string) {
    forall j :: 0 <= j < |list| ==> list[j] < |nodes| && nodes[list[j]].name != name
  }

  /** The directory `r` has nothing called `name`. */
  ghost predicate NothingCalled(t: Tree, r: Ref, name: string)
    requires Ok(t) && IsDir(t, r)
  {
    match t.nodes[r.n].kind
    case RootOps => NoneCalled(t.nodes, t.kids[r.n], name)
    case RamOps => forall j :: 0 <= j < |t.slots| ==> !Named(t.slots[j], name)
    case FixedOps(entries) => name !in entries
  }

  /** A directory of any kind gives the first thing called by the name, and nothing exactly
      if it has none. */
  lemma FoundIsFirst(t: Tree, r: Ref, name: string)
    requires Ok(t) && IsDir(t, r)
    ensures match FindDir(t, r, name)
            case Some(q) => FirstCalled(t, r, name, q) && !NothingCalled(t, r, name)
            case None => NothingCalled(t, r, name)
  {
    ChainInRange(t, r.n);
    if t.nodes[r.n].kind == RootOps {
      var _ := FirstNamedIs(t.nodes, t.kids[r.n], name);
    }
  }

  lemma {:induction false} FirstNamedIs(nodes: seq<Node>, list: seq<nat>, name: string) returns (k: nat)
    requires forall k :: 0 <= k < |list| ==> list[k] < |nodes|
    ensures k <= |list| && NoneCalled(nodes, list[..k], name)
    ensures if k < |list| then FirstNamed(nodes, list, name) == list[k] && nodes[list[k]].name == name
            else FirstNamed(nodes, list, name) == -1
  {
    if list == [] || nodes[list[0]].name == name {
      k := 0;
    } else {
      k := FirstNamedIs(nodes, list[1..], name);
      k := k + 1;
      forall j | 0 <= j < k
        ensures nodes[list[..k][j]].name != name
      {
        assert j > 0 ==> list[..k][j] == list[1..][..k - 1][j - 1];
      }
    }
  }

  /** Following a list of names from `r`. */
  ghost function Walk(t: Tree, r: Ref, names: seq<string>): Option<Ref>
    requires Ok(t)
    decreases |names|
  {
    if names == [] then Some(r)
    else if !IsDir(t, r) then None
    else
      match FindDir(t, r, names[0])
      case None => None
      case Some(q) => Walk(t, q, names[1..])
  }

  /** One name more is one step more. */
  lemma {:induction false} WalkSnoc(t: Tree, r: Ref, names: seq<string>, name: string)
    requires Ok(t)
    ensures Walk(t, r, names + [name])
            == match Walk(t, r, names)
               case None => None
               case Some(q) => if IsDir(t, q) then FindDir(t, q, name) else None
    decreases |names|
  {
    if names == [] {
      assert names + [name] == [name];
      assert [name][1..] == [];
    } else {
      assert (names + [name])[1..] == names[1..] + [name];
      if IsDir(t, r) {
        match FindDir(t, r, names[0])
        case None =>
        case Some(q) =>
          WalkSnoc(t, q, names[1..], name);
      }
    }
  }

  // ---- what creating and deleting a RAM file changes ----

  /** `names` leads from `r` to a directory of the RAM file system. */
  ghost predicate LeadsToRam(t: Tree, r: Ref, names: seq<string>)
    requires Ok(t)
  {
    match Walk(t, r, names)
    case None => false
    case Some(q) => IsDir(t, q) && t.nodes[q.n].kind == RamOps
  }

  /** `names` spells `leaf` inside a directory of the RAM file system. */
  ghost predicate Spells(t: Tree, r: Ref, names: seq<string>, leaf: string)
    requires Ok(t)
  {
    names != [] && names[|names| - 1] == leaf && LeadsToRam(t, r, names[..|names| - 1])
  }

  /** Which directories paths lead to does not depend on the table. */
  lemma {:induction false} DirsStay(t: Tree, slots: seq<Slot>, r: Ref, names: seq<string>)
    requires Ok(t)
    ensures var t' := t.(slots := slots);
            && (forall n :: Walk(t, r, names) == Some(Dir(n)) <==> Walk(t', r, names) == Some(Dir(n)))
            && LeadsToRam(t', r, names) == LeadsToRam(t, r, names)
  {
    if names != [] {
      var n := |names| - 1;
      assert names == names[..n] + [names[n]];
      DirsStay(t, slots, r, names[..n]);
      WalkSnoc(t, r, names[..n], names[n]);
      WalkSnoc(t.(slots := slots), r, names[..n], names[n]);
    }
  }

  /** When the table changes what is found under one name only, exactly the paths that
      spell that name change their meaning. */
  lemma {:induction false} OnePathChanges(t: Tree, slots: seq<Slot>, leaf: string, r: Ref, names: seq<string>)
    requires Ok(t) && (r.Dir? || r.Entry?)
    requires forall other :: other != leaf ==> Find(slots, other) == Find(t.slots, other)
    ensures Walk(t.(slots := slots), r, names)
            == if !Spells(t, r, names, leaf) then Walk(t, r, names)
               else if Find(slots, leaf) < 0 then None
               else Some(File(Find(slots, leaf)))
    decreases |names|
  {
    if names != [] {
      var n := |names| - 1;
      assert names == names[..n] + [names[n]];
      OnePathChanges(t, slots, leaf, r, names[..n]);
      DirsStay(t, slots, r, names[..n]);
      WalkSnoc(t, r, names[..n], names[n]);
      WalkSnoc(t.(slots := slots), r, names[..n], names[n]);
    }
  }

  /** After a successful create, exactly the paths that spell the new name lead to the new
      file; every other path means what it meant. */
  lemma CreateSeen(t: Tree, leaf: string, r: Ref, names: seq<string>)
    requires Ok(t) && AllGood(t.slots) && r.Dir?
    requires |leaf| <= 63 && CreateAt(t.slots, leaf) >= 0
    ensures var t' := t.(slots := Created(t.slots, leaf));
            Ok(t') && Walk(t', r, names)
            == if Spells(t, r, names, leaf) then Some(File(CreateAt(t.slots, leaf))) else Walk(t, r, names)
  {
    var slots := Created(t.slots, leaf);
    forall other: string
      ensures Find(slots, other) == if other == leaf then CreateAt(t.slots, leaf) else Find(t.slots, other)
    {
      CreateFinds(t.slots, leaf, other);
    }
    OnePathChanges(t, slots, leaf, r, names);
  }

  /** After a successful delete, exactly the paths that spell the name lead nowhere. */
  lemma DeleteSeen(t: Tree, leaf: string, r: Ref, names: seq<string>)
    requires Ok(t) && AllGood(t.slots) && Distinct(t.slots) && r.Dir?
    requires Find(t.slots, leaf) >= 0
    ensures var t' := t.(slots := Deleted(t.slots, leaf));
            Ok(t') && Walk(t', r, names)
            == if Spells(t, r, names, leaf) then None else Walk(t, r, names)
  {
    var slots := Deleted(t.slots, leaf);
    forall other: string
      ensures Find(slots, other) == if other == leaf then -1 else Find(t.slots, other)
    {
      DeleteFinds(t.slots, leaf, other);
    }
    OnePathChanges(t, slots, leaf, r, names);
  }

  /** A path with a leaf of any length, created inside the RAM file system: looking it up
      leads to the new file exactly when the leaf has 1 to 63 characters. */
  lemma CreatedIsReachable(t: Tree, r: Ref, path: string)
    requires Ok(t) && AllGood(t.slots) && Distinct(t.slots) && r.Dir? && LastSlash(path) >= 0
    requires LeadsToRam(t, r, Tokens(Parent(path))) && CreateAt(t.slots, Leaf(path)) >= 0
    ensures var t' := t.(slots := Created(t.slots, Leaf(path)));
            Walk(t', r, Tokens(path)) == Some(File(CreateAt(t.slots, Leaf(path))))
            <==> 1 <= |Leaf(path)| <= 63
  {
    hide Tokens, Parent, Leaf;
    var leaf, up := Leaf(path), Tokens(Parent(path));
    var slots := Created(t.slots, leaf);
    var t' := t.(slots := slots);
    ParentAndLeaf(path);
    LongNames(t.slots, leaf);
    NamedIsFound(slots, leaf);
    if leaf == "" {
      assert Tokens(path) == up;
      CreateSeen(t, leaf, r, up);
      DirsStay(t, slots, r, up);
    } else {
      assert Tokens(path) == up + [leaf] && (up + [leaf])[..|up|] == up;
      DirsStay(t, slots, r, up);
      WalkSnoc(t', r, up, leaf);
      if |leaf| <= 63 {
        CreateFinds(t.slots, leaf, leaf);
      }
    }
  }

  /** What a path leads to is a node, an entry of a node, or a file in use. */
  lemma {:induction false} WalkInReach(t: Tree, r: Ref, names: seq<string>)
    requires Ok(t) && r.Dir? && r.n < |t.nodes|
    ensures InReach(t, Walk(t, r, names))
  {
    FilesInUse(t, r, names);
    if names != [] {
      var n := |names| - 1;
      assert names == names[..n] + [names[n]];
      WalkInReach(t, r, names[..n]);
      WalkSnoc(t, r, names[..n], names[n]);
    }
  }

  ghost predicate InReach(t: Tree, r: Option<Ref>) {
    match r
    case None => true
    case Some(File(i)) => i < |t.slots|
    case Some(Dir(n)) => n < |t.nodes|
    case Some(Entry(n, _)) => n < |t.nodes|
  }

  /** Whatever file a path leads to is in use. */
  lemma FilesInUse(t: Tree, r: Ref, names: seq<string>)
    requires Ok(t) && r.Dir?
    ensures var q := Walk(t, r, names);
            q.Some? && q.value.File? ==> q.value.slot < |t.slots| && t.slots[q.value.slot].used
  {
    if names != [] {
      var n := |names| - 1;
      assert names == names[..n] + [names[n]];
      WalkSnoc(t, r, names[..n], names[n]);
    }
  }

  /** A file created under the empty name, as by a path that ends in a slash: every path
      means what it meant, and none leads to the file. */
  lemma NamelessIsUnreachable(t: Tree, r: Ref, path: string)
    requires Ok(t) && AllGood(t.slots) && r.Dir? && CreateAt(t.slots, "") >= 0
    ensures var t' := t.(slots := Created(t.slots, ""));
            && Walk(t', r, Tokens(path)) == Walk(t, r, Tokens(path))
            && Walk(t', r, Tokens(path)) != Some(File(CreateAt(t.slots, "")))
  {
    hide Walk, Tokens, Find, Free;
    TokensAreComponents(path);
    var names := Tokens(path);
    assert names != [] ==> names[|names| - 1] in names;
    CreateSeen(t, "", r, Tokens(path));
    FilesInUse(t, r, Tokens(path));
  }

  /** A table in which every name is found where it was shows the same files. */
  lemma {:induction false} SameFinds(t: Tree, slots: seq<Slot>, r: Ref, names: seq<string>)
    requires Ok(t) && forall name :: Find(slots, name) == Find(t.slots, name)
    ensures Walk(t.(slots := slots), r, names) == Walk(t, r, names)
    decreases |names|
  {
    if names != [] && IsDir(t, r) {
      match FindDir(t, r, names[0])
      case None =>
      case Some(q) =>
        SameFinds(t, slots, q, names[1..]);
    }
  }

  // ---- mounting ----

  /** Node `m` put first among the children of `p` under `name`. */
  ghost function Mounted(t: Tree, m: nat, p: nat, name: string): Tree
    requires Ok(t) && m < |t.nodes| && p < |t.nodes|
  {
    var hung := t.nodes[m := t.nodes[m].(name := name, mounted := true, next := t.nodes[p].children)];
    Tree(hung[p := hung[p].(children := m)], t.kids[p := [m] + t.kids[p]], t.slots)
  }

  /** A list that does not hold `m` does not notice what happens to `m`. */
  lemma {:induction false} ChainStays(nodes: seq<Node>, nodes': seq<Node>, head: int, list: seq<nat>, m: nat)
    requires Chain(nodes, head, list) && |nodes| == |nodes'| && m !in list
    requires forall i :: 0 <= i < |nodes| && i != m ==>
               && nodes'[i].mounted == nodes[i].mounted && nodes'[i].next == nodes[i].next
               && nodes'[i].name == nodes[i].name
    ensures Chain(nodes', head, list)
    ensures forall k :: 0 <= k < |list| ==> list[k] < |nodes|
    ensures forall name :: FirstNamed(nodes', list, name) == FirstNamed(nodes, list, name)
    decreases |list|
  {
    forall k | 0 <= k < |list|
      ensures Linked(nodes', list, k) && list[k] < |nodes|
    {
      assert Linked(nodes, list, k);
    }
    if list != [] {
      assert Linked(nodes, list, 0);
      forall k | 0 <= k < |list| - 1
        ensures Linked(nodes, list[1..], k)
      {
        assert Linked(nodes, list, k + 1);
      }
      ChainStays(nodes, nodes', Link(list, 1), list[1..], m);
    }
  }

  lemma Unlisted(nodes: seq<Node>, head: int, list: seq<nat>, m: nat)
    requires Chain(nodes, head, list) && m < |nodes| && !nodes[m].mounted
    ensures m !in list
  {
    forall k | 0 <= k < |list|
      ensures list[k] != m
    {
      assert Linked(nodes, list, k);
    }
  }

  /** A node in no list, put first in one of them, stands there only. */
  lemma PutFirst(kids: seq<seq<nat>>, m: nat, p: nat)
    requires Separate(kids) && p < |kids| && forall q :: 0 <= q < |kids| ==> m !in kids[q]
    ensures Separate(kids[p := [m] + kids[p]])
  {
    var after := kids[p := [m] + kids[p]];
    forall q, i, r, j | At(after, q, i) && At(after, r, j) && after[q][i] == after[r][j]
      ensures q == r && i == j
    {
      assert (q == p && i == 0) || At(kids, q, if q == p then i - 1 else i);
      assert (r == p && j == 0) || At(kids, r, if r == p then j - 1 else j);
    }
  }

  /** Mounting a node that is in no list keeps every sibling list finite and all of them
      apart. */
  lemma MountKeeps(t: Tree, m: nat, p: nat, leaf: string)
    requires Ok(t) && m < |t.nodes| && p < |t.nodes| && !t.nodes[m].mounted
    ensures Ok(Mounted(t, m, p, leaf))
  {
    var t' := Mounted(t, m, p, leaf);
    forall q | 0 <= q < |t.nodes|
      ensures Chain(t'.nodes, t'.nodes[q].children, t'.kids[q])
    {
      Unlisted(t.nodes, t.nodes[q].children, t.kids[q], m);
      ChainStays(t.nodes, t'.nodes, t.nodes[q].children, t.kids[q], m);
      if q == p {
        MountedChain(t, m, p, leaf);
      }
    }
    forall q | 0 <= q < |t.kids|
      ensures m !in t.kids[q]
    {
      Unlisted(t.nodes, t.nodes[q].children, t.kids[q], m);
    }
    PutFirst(t.kids, m, p);
  }

  /** It changes what is found in one directory under one name: there it now leads to the
      mounted node, even if an older child has that name. A directory other than the
      root's kind never looks at what is mounted in it. */
  lemma MountSeen(t: Tree, m: nat, p: nat, leaf: string, r: Ref, name: string)
    requires Ok(t) && m < |t.nodes| && p < |t.nodes| && !t.nodes[m].mounted && IsDir(t, r)
    ensures var t' := Mounted(t, m, p, leaf);
            && Ok(t') && IsDir(t', r)
            && FindDir(t', r, name)
               == if r == Dir(p) && t.nodes[p].kind == RootOps && name == leaf then Some(Dir(m))
                  else FindDir(t, r, name)
  {
    hide Chain;
    var t' := Mounted(t, m, p, leaf);
    MountKeeps(t, m, p, leaf);
    ChainInRange(t, r.n);
    ChainInRange(t', r.n);
    Unlisted(t.nodes, t.nodes[r.n].children, t.kids[r.n], m);
    ChainStays(t.nodes, t'.nodes, t.nodes[r.n].children, t.kids[r.n], m);
    if r.n == p {
      assert t'.kids[p][1..] == t.kids[p];
    }
  }

  lemma MountedChain(t: Tree, m: nat, p: nat, leaf: string)
    requires Ok(t) && m < |t.nodes| && p < |t.nodes|
    requires Chain(Mounted(t, m, p, leaf).nodes, t.nodes[p].children, t.kids[p])
    ensures Chain(Mounted(t, m, p, leaf).nodes, m, [m] + t.kids[p])
  {
    var nodes, list := Mounted(t, m, p, leaf).nodes, [m] + t.kids[p];
    forall k | 0 <= k < |list|
      ensures Linked(nodes, list, k)
    {
      if k > 0 {
        assert Linked(nodes, t.kids[p], k - 1);
      }
    }
  }

  /** What mounting leaves at the head of the directory is a finite list if and only if the
      node was not already in that directory; otherwise the links run in a circle. */
  lemma MountTwiceLoops(t: Tree, m: nat, p: nat, name: string)
    requires Ok(t) && m < |t.nodes| && p < |t.nodes|
    ensures (exists list :: Chain(Mounted(t, m, p, name).nodes, m, list)) <==> m !in t.kids[p]
  {
    var nodes, kids := Mounted(t, m, p, name).nodes, t.kids[p];
    if m !in kids {
      ChainStays(t.nodes, nodes, t.nodes[p].children, kids, m);
      MountedChain(t, m, p, name);
    } else {
      var i :| 0 <= i < |kids| && kids[i] == m;
      var circle := kids[..i + 1];
      CircleCloses(t, m, p, name, i, circle);
      forall list | Chain(nodes, m, list)
        ensures false
      {
        RunsInCircle(nodes, circle, m, list, |list| - 1);
      }
    }
  }

  /** Every link from `circle` leads back into it. */
  ghost predicate Closed(nodes: seq<Node>, circle: seq<nat>) {
    forall x: nat :: x in circle ==> x < |nodes| && nodes[x].next in circle
  }

  lemma CircleCloses(t: Tree, m: nat, p: nat, name: string, i: nat, circle: seq<nat>)
    requires Ok(t) && m < |t.nodes| && p < |t.nodes| && i < |t.kids[p]| && t.kids[p][i] == m
    requires circle == t.kids[p][..i + 1]
    ensures Closed(Mounted(t, m, p, name).nodes, circle)
  {
    var nodes, kids := Mounted(t, m, p, name).nodes, t.kids[p];
    assert Chain(t.nodes, t.nodes[p].children, kids);
    assert circle[0] == kids[0] && circle[0] in circle;
    forall x: nat | x in circle
      ensures x < |t.nodes| && nodes[x].next in circle
    {
      var j :| 0 <= j <= i && kids[j] == x;
      assert Linked(t.nodes, kids, j);
      if x != m {
        assert nodes[x].next == kids[j + 1] == circle[j + 1];
      }
    }
  }

  /** Links that never leave `circle` never end. */
  lemma {:induction false} RunsInCircle(nodes: seq<Node>, circle: seq<nat>, m: nat, list: seq<nat>, k: int)
    requires Chain(nodes, m, list) && m in circle && -1 <= k < |list|
    requires Closed(nodes, circle)
    ensures list != [] && (0 <= k ==> list[k] in circle && Linked(nodes, list, k))
  {
    if k > 0 {
      RunsInCircle(nodes, circle, m, list, k - 1);
    }
  }

  // ---- the tree the kernel boots with ----

  /** The root with "/proc" mounted after "/ram". */
  ghost predicate Booted(t: Tree) {
    && |t.nodes| == 3 && t.kids == [[2, 1], [], []] && Ok(t)
    && (forall n :: 0 <= n < 3 ==> t.nodes[n].isDir)
    && t.nodes[0].kind == RootOps
    && t.nodes[1].name == "ram" && t.nodes[1].kind == RamOps
    && t.nodes[2].name == "proc" && t.nodes[2].kind.FixedOps?
  }

  lemma BootedStep(t: Tree, name: string)
    requires Booted(t)
    ensures FindDir(t, Dir(0), name)
            == if name == "proc" then Some(Dir(2)) else if name == "ram" then Some(Dir(1)) else None
    ensures forall n :: n == 1 || n == 2 ==> var q := FindDir(t, Dir(n), name); q.None? || !q.value.Dir?
  {
    assert t.kids[0] == [2, 1] && [2, 1][1..] == [1] && [1][1..] == [];
    assert FirstNamed(t.nodes, [1], name) == if name == "ram" then 1 else -1;
    assert FirstNamed(t.nodes, [2, 1], name) == if name == "proc" then 2 else FirstNamed(t.nodes, [1], name);
  }

  lemma {:induction false} BootedWalk(t: Tree, names: seq<string>)
    requires Booted(t)
    ensures var r := Walk(t, Dir(0), names);
            && (r == Some(Dir(0)) <==> names == [])
            && (r == Some(Dir(1)) <==> names == ["ram"])
            && (r == Some(Dir(2)) <==> names == ["proc"])
            && (r.Some? && r.value.Dir? ==> r.value.n < 3)
  {
    hide FindDir;
    if names != [] {
      var n := |names| - 1;
      var last := names[n];
      assert names == names[..n] + [last];
      BootedWalk(t, names[..n]);
      WalkSnoc(t, Dir(0), names[..n], last);
      BootedStep(t, last);
      assert "proc"[0] != "ram"[0];
    }
  }

  lemma BootedRam(t: Tree, names: seq<string>)
    requires Booted(t)
    ensures LeadsToRam(t, Dir(0), names) <==> names == ["ram"]
  {
    hide Walk;
    BootedWalk(t, names);
  }

  /** On the booted tree, creating or deleting "/ram/leaf" changes the meaning of exactly
      the paths that name it, however many slashes they use. */
  lemma OnlyThatPath(t: Tree, path: string, other: string)
    requires Booted(t) && LastSlash(path) >= 0 && Leaf(path) != "" && LeadsToRam(t, Dir(0), Tokens(Parent(path)))
    ensures Spells(t, Dir(0), Tokens(other), Leaf(path)) <==> Tokens(other) == Tokens(path)
  {
    hide Tokens, Parent, Leaf, Walk, LeadsToRam;
    ParentAndLeaf(path);
    BootedRam(t, Tokens(Parent(path)));
    var names := Tokens(other);
    if names != [] {
      BootedRam(t, names[..|names| - 1]);
      assert names == names[..|names| - 1] + [names[|names| - 1]];
    }
    assert (["ram"] + [Leaf(path)])[..1] == ["ram"];
  }

  // ---- the file system in place ----

  /** A node whose contents the proc file system makes up when it is read. */
  ghost predicate FromProc(t: Tree, r: Ref)
    requires InReach(t, Some(r))
  {
    r.Entry? || (r.Dir? && t.nodes[r.n].kind.FixedOps?)
  }

  function Short(path: string): string {
    if |path| <= 255 then path else path[..255]
  }

  /** `strrchr` on a slash. */
  method FindLastSlash(path: string) returns (last: int)
    ensures last == LastSlash(path)
  {
    last := -1;
    for i := 0 to |path|
      invariant -1 <= last < i && (last >= 0 ==> path[last] == '/')
      invariant forall k :: last < k < i ==> path[k] != '/'
    {
      if path[i] == '/' {
        last := i;
      }
    }
  }

  class Vfs {
    var nodes: seq<Node>
    var root: nat
    const ram: Ramfs
    ghost var kids: seq<seq<nat>>

    ghost function Seen(): Tree
      reads this, ram.files
    {
      Tree(nodes, kids, ram.files[..])
    }

    ghost predicate Valid()
      reads this, ram.files
    {
      Ok(Seen()) && ram.Valid() && root < |nodes|
    }

    /** `vfs_init` over a pool of directory nodes not yet mounted. */
    constructor (ram: Ramfs, pool: seq<Node>)
      requires ram.Valid() && forall i :: 0 <= i < |pool| ==> pool[i].children == -1 && !pool[i].mounted
      ensures Valid() && this.ram == ram && root == 0
      ensures nodes == [Node("/", true, false, RootOps, -1, -1)] + pool
      ensures forall p :: 0 <= p < |kids| ==> kids[p] == []
    {
      this.ram := ram;
      nodes := [Node("/", true, false, RootOps, -1, -1)] + pool;
      root := 0;
      kids := seq(|pool| + 1, i => []);
    }

    /** `vfs_root_finddir`. */
    method FindChild(p: nat, name: string) returns (r: int)
      requires Valid() && p < |nodes|
      ensures (forall k :: 0 <= k < |kids[p]| ==> kids[p][k] < |nodes|) && r == FirstNamed(nodes, kids[p], name)
    {
      ChainInRange(Seen(), p);
      var curr := nodes[p].children;
      ghost var k := 0;
      ghost var list := kids[p];
      assert Chain(nodes, nodes[p].children, list);
      assert list[0..] == list;
      while curr >= 0
        invariant 0 <= k <= |list| && curr == Link(list, k)
        invariant FirstNamed(nodes, list[k..], name) == FirstNamed(nodes, list, name)
        decreases |list| - k
      {
        assert Linked(nodes, list, k);
        if nodes[curr].name == name {
          return curr;
        }
        assert list[k..][1..] == list[k + 1..];
        curr := nodes[curr].next;
        k := k + 1;
      }
      return -1;
    }

    /** `vfs_root_readdir`: the child number `index`, or -1 after the last. */
    method ReadChild(p: nat, index: nat) returns (r: int)
      requires Valid() && p < |nodes|
      ensures r == Link(kids[p], index)
    {
      var curr := nodes[p].children;
      var idx := 0;
      assert Chain(nodes, nodes[p].children, kids[p]);
      while curr >= 0
        invariant idx <= index && idx <= |kids[p]| && curr == Link(kids[p], idx)
        decreases |kids[p]| - idx
      {
        if idx == index {
          return curr;
        }
        assert Linked(nodes, kids[p], idx);
        idx := idx + 1;
        curr := nodes[curr].next;
      }
      return -1;
    }

    /** `vfs_finddir`, whose guard is meant to test the directory's operations. */
    method Step(r: Ref, name: string) returns (q: Option<Ref>)
      requires Valid() && IsDir(Seen(), r)
      ensures q == FindDir(Seen(), r, name)
    {
      match nodes[r.n].kind
      case RootOps =>
        var i := FindChild(r.n, name);
        q := if i < 0 then None else Some(Dir(i));
      case RamOps =>
        var i := ram.Lookup(name);
        q := if i < 0 then None else Some(File(i));
      case FixedOps(entries) =>
        var i := Index(entries, name);
        q := if i < 0 then None else Some(Entry(r.n, i));
    }

    /** `vfs_lookup_path`. */
    method Lookup(path: string) returns (r: Option<Ref>)
      requires Valid() && '\0' !in path
      ensures r == Walk(Seen(), Dir(root), Tokens(Short(path)))
      ensures r.Some? && r.value.Dir? ==> r.value.n < |nodes|
    {
      if path == "/" {
        assert Tokens("/") == Tokens("/"[1..]);
        return Some(Dir(root));
      }
      var tokens := new Tokenizer(path);
      var curr := Dir(root);
      ghost var left := Tokens(Short(path));
      var start := tokens.Next();
      while start >= 0
        invariant Valid() && tokens.Valid() && (curr.Dir? ==> curr.n < |nodes|)
        invariant Walk(Seen(), curr, left) == Walk(Seen(), Dir(root), Tokens(Short(path)))
        invariant if left == [] then start == -1
                  else
                    && 0 <= start < tokens.buf.Length && CString(tokens.buf[..], start) == left[0]
                    && Tokens(tokens.Rest()) == left[1..]
        decreases |left|
      {
        if !(curr.Dir? && nodes[curr.n].isDir) {
          return None;
        }
        var found := Step(curr, CString(tokens.buf[..], start));
        if found.None? {
          return None;
        }
        curr := found.value;
        left := left[1..];
        start := tokens.Next();
      }
      return Some(curr);
    }

    /** What a path leads to. */
    ghost function Leads(path: string): Option<Ref>
      requires Valid()
      reads this, ram.files
    {
      Walk(Seen(), Dir(root), Tokens(Short(path)))
    }

    /** `vfs_read` on what a path led to; the root and the RAM directory have nothing to read.
        `text` is what the proc file system makes up for its node, without memory nothing. */
    method Read(r: Option<Ref>, offset: Word, size: Word, text: Option<seq<Byte>>) returns (rc: int, b: seq<Byte>)
      requires Valid() && offset + size < 0x1_0000_0000 && InReach(Seen(), r)
      ensures match r
              case Some(File(i)) =>
                if ram.files[i].used then rc == |b| && b == ReadBack(Content(ram.files[i]), offset, size)
                else rc == -1 && b == []
              case Some(q) =>
                if text.Some? && FromProc(Seen(), q) then rc == |b| && b == ReadBack(text.value, offset, size)
                else rc == -1 && b == []
              case None => rc == -1 && b == []
    {
      if r.None? || (text.None? && !r.value.File?) {
        return -1, [];
      }
      if r.value.File? {
        rc, b := ram.ReadNode(r.value.slot, offset, size);
        return;
      }
      if r.value.Dir? {
        if !nodes[r.value.n].kind.FixedOps? {
          return -1, [];
        }
      }
      if offset >= |text.value| {
        return 0, [];
      }
      var n := if offset + size > |text.value| then |text.value| - offset else size;
      return n, text.value[offset..offset + n];
    }

    /** `vfs_write`: only RAM files can be written. */
    method Write(r: Option<Ref>, offset: Word, b: seq<Byte>) returns (rc: int)
      requires Valid() && offset + |b| < 0x1_0000_0000 && InReach(Seen(), r)
      modifies ram.files
      ensures Valid()
      ensures match r
              case Some(File(i)) =>
                var f := old(ram.files[i]);
                if !f.used || offset >= MAX_DATA then rc == -1 && ram.files[..] == old(ram.files[..])
                else
                  && rc == (if offset + |b| > MAX_DATA then MAX_DATA - offset else |b|)
                  && ram.files[..] == old(ram.files[..])[i := Rewritten(f, offset, b[..rc])]
              case _ => rc == -1 && ram.files[..] == old(ram.files[..])
    {
      if r.Some? && r.value.File? {
        rc := ram.WriteNode(r.value.slot, offset, b);
      } else {
        rc := -1;
      }
    }

    /** The directory above the last slash of a path, or -1. */
    ghost function DirAbove(path: string): (p: int)
      requires Valid()
      reads this, ram.files
      ensures -1 <= p < |nodes|
    {
      if LastSlash(Short(path)) < 0 then -1 else
      var r := Walk(Seen(), Dir(root), Tokens(Short(Parent(Short(path)))));
      if r.Some? && r.value.Dir? && r.value.n < |nodes| && nodes[r.value.n].isDir then r.value.n else -1
    }

    /** The leaf behind the last slash has to fit its 128-byte buffer. */
    predicate LeafFits(path: string) {
      LastSlash(Short(path)) >= 0 ==> |Leaf(Short(path))| < 128
    }

    /** What the next three start with. */
    method FindParent(path: string) returns (p: int, leaf: string)
      requires Valid() && '\0' !in path
      ensures p == DirAbove(path)
      ensures p >= 0 ==> LastSlash(Short(path)) >= 0 && leaf == Leaf(Short(path))
    {
      hide Tokens, Walk;
      var short := Short(path);
      var last := FindLastSlash(short);
      if last < 0 {
        return -1, "";
      }
      var parent := if last == 0 then "/" else short[..last];
      assert '\0' !in parent;
      var r := Lookup(parent);
      if r.None? || !r.value.Dir? || !nodes[r.value.n].isDir {
        return -1, "";
      }
      return r.value.n, short[last + 1..];
    }

    /** `vfs_create`. The leaf has to fit its 128-byte buffer. */
    method Create(path: string) returns (rc: int)
      requires Valid() && '\0' !in path
      requires LeafFits(path)
      modifies ram.files
      ensures Valid()
      ensures var p := old(DirAbove(path));
              if p >= 0 && nodes[p].kind == RamOps
              then
                && LastSlash(Short(path)) >= 0
                && Seen() == old(Seen()).(slots := Created(old(Seen().slots), Leaf(Short(path))))
                && rc == if CreateAt(old(Seen().slots), Leaf(Short(path))) >= 0 then 0 else -1
              else
                rc == -1 && Seen() == old(Seen())
    {
      hide Tokens, Walk, Find, Free, Short, Parent, Leaf, LastSlash, DirAbove, Forest;
      var p, leaf := FindParent(path);
      if p < 0 || nodes[p].kind != RamOps {
        return -1;
      }
      rc := ram.Create(leaf);
    }

    /** `vfs_delete`. */
    method Delete(path: string) returns (rc: int)
      requires Valid() && '\0' !in path
      requires LeafFits(path)
      modifies ram.files
      ensures Valid()
      ensures var p := old(DirAbove(path));
              if p >= 0 && nodes[p].kind == RamOps
              then
                && LastSlash(Short(path)) >= 0
                && Seen() == old(Seen()).(slots := Deleted(old(Seen().slots), Leaf(Short(path))))
                && rc == if Find(old(Seen().slots), Leaf(Short(path))) >= 0 then 0 else -1
              else
                rc == -1 && Seen() == old(Seen())
    {
      hide Tokens, Walk, Find, Free, Short, Parent, Leaf, LastSlash, DirAbove, Forest;
      var p, leaf := FindParent(path);
      if p < 0 || nodes[p].kind != RamOps {
        return -1;
      }
      rc := ram.Delete(leaf);
    }

    /** `vfs_mount`. The links are set in any case; the lists stay apart when the node was
        not mounted yet. */
    method Mount(path: string, m: nat) returns (rc: int)
      requires Valid() && '\0' !in path && m < |nodes|
      requires LeafFits(path)
      modifies this
      ensures path == "/" || rc == -1 || !old(nodes[m].mounted) ==> Valid()
      ensures path == "/" ==> rc == 0 && root == m && Seen() == old(Seen())
      ensures path != "/" ==>
                var p := old(DirAbove(path));
                && root == old(root)
                && if p >= 0
                   then
                     && rc == 0 && LastSlash(Short(path)) >= 0
                     && Seen() == Mounted(old(Seen()), m, p, Leaf(Short(path)))
                   else rc == -1 && Seen() == old(Seen())
    {
      if path == "/" {
        root := m;
        return 0;
      }
      hide Tokens, Walk, Short, Parent, Leaf, LastSlash, DirAbove, Forest;
      var p, leaf := FindParent(path);
      if p < 0 {
        return -1;
      }
      if !nodes[m].mounted {
        MountKeeps(Seen(), m, p, leaf);
      }
      nodes := nodes[m := nodes[m].(name := leaf, mounted := true, next := nodes[p].children)];
      nodes := nodes[p := nodes[p].(children := m)];
      kids := kids[p := [m] + kids[p]];
      return 0;
    }
  }

  /** Writing through one path and reading through another, whatever stands between their
      slashes: a path to the same file reads the new bytes laid over the old contents, a path
      to another file what that held. */
  method WriteThenRead(fs: Vfs, path: string, other: string, offset: Word, b: seq<Byte>, from: Word, size: Word)
    returns (n: int, rc: int, got: seq<Byte>)
    requires fs.Valid() && '\0' !in path && '\0' !in other
    requires offset + |b| < 0x1_0000_0000 && from + size < 0x1_0000_0000
    modifies fs.ram.files
    ensures fs.Valid() && fs.Leads(path) == old(fs.Leads(path)) && fs.Leads(other) == old(fs.Leads(other))
    ensures n >= 0 <==> fs.Leads(path).Some? && fs.Leads(path).value.File? && offset < 1024
    ensures n >= 0 ==> n == if offset + |b| > 1024 then 1024 - offset else |b|
    ensures var q := fs.Leads(other);
            if q.Some? && q.value.File?
            then
              && q.value.slot < MAX_FILES
              && var f := old(fs.ram.files[..])[q.value.slot];
                 var written := n >= 0 && fs.Leads(path) == q;
                 && rc == |got|
                 && got == ReadBack(Content(if written then Rewritten(f, offset, b[..n]) else f), from, size)
            else rc == -1 && got == []
  {
    hide Walk, Tokens, Short, Chain, Separate, Rewritten, ReadBack;
    ghost var t := fs.Seen();
    var r := fs.Lookup(path);
    WalkInReach(t, Dir(fs.root), Tokens(Short(path)));
    FilesInUse(t, Dir(fs.root), Tokens(Short(path)));
    n := fs.Write(r, offset, b);
    if n >= 0 {
      WriteKeepsPaths(t, r.value.slot, offset, b[..n], Dir(fs.root));
    }
    assert fs.Seen() == t.(slots := fs.ram.files[..]);
    var q := fs.Lookup(other);
    WalkInReach(fs.Seen(), Dir(fs.root), Tokens(Short(other)));
    FilesInUse(fs.Seen(), Dir(fs.root), Tokens(Short(other)));
    rc, got := fs.Read(q, from, size, None);
  }

  lemma WriteKeepsPaths(t: Tree, i: nat, offset: nat, b: seq<Byte>, r: Ref)
    requires Ok(t) && AllGood(t.slots) && i < |t.slots| && t.slots[i].used && offset + |b| <= MAX_DATA
    ensures var slots := t.slots[i := Rewritten(t.slots[i], offset, b)];
            forall names :: Walk(t.(slots := slots), r, names) == Walk(t, r, names)
  {
    var slots := t.slots[i := Rewritten(t.slots[i], offset, b)];
    forall name
      ensures Find(slots, name) == Find(t.slots, name)
    {
      SameNameFinds(t.slots, i, Rewritten(t.slots[i], offset, b), name);
    }
    forall names
      ensures Walk(t.(slots := slots), r, names) == Walk(t, r, names)
    {
      SameFinds(t, slots, r, names);
    }
  }

  /** Creating a file by a path and opening the same path: a successful create is found
      again exactly when its leaf, in the 255 characters that are read, has 1 to 63. */
  method CreateThenOpen(fs: Vfs, path: string) returns (rc: int, r: Option<Ref>)
    requires fs.Valid() && Distinct(fs.ram.files[..])
    requires '\0' !in path && fs.LeafFits(path)
    modifies fs.ram.files
    ensures fs.Valid()
    ensures rc == 0 ==> LastSlash(Short(path)) >= 0 && CreateAt(old(fs.ram.files[..]), Leaf(Short(path))) >= 0
    ensures rc == 0 ==>
              (r == Some(File(CreateAt(old(fs.ram.files[..]), Leaf(Short(path)))))
               <==> 1 <= |Leaf(Short(path))| <= 63)
  {
    hide Tokens, Walk, LastSlash, Forest, Find, Free, Created, CreateAt;
    ghost var t := fs.Seen();
    rc := fs.Create(path);
    r := fs.Lookup(path);
    if rc == 0 {
      CreatedIsReachable(t, Dir(fs.root), Short(path));
    }
  }

  // ---- the boot sequence ----

  /** A path of one name below the root. */
  lemma RootLevel(name: string)
    requires '/' !in name && |name| < 255
    ensures var p := Short("/" + name);
            LastSlash(p) == 0 && Parent(p) == "/" && Leaf(p) == name && Tokens(Short(Parent(p))) == []
  {
    var p := "/" + name;
    assert p[1..] == name;
    RootTokens();
    assert p[0] == '/' && forall k :: 0 < k < |p| ==> p[k] == name[k - 1];
  }

  method MountAtRoot(fs: Vfs, name: string, m: nat) returns (rc: int)
    requires fs.Valid() && fs.root < |fs.nodes| && fs.nodes[fs.root].isDir && m < |fs.nodes| && !fs.nodes[m].mounted
    requires '/' !in name && '\0' !in name && 0 < |name| < 128
    modifies fs
    ensures fs.Valid() && rc == 0 && fs.root == old(fs.root)
    ensures fs.Seen() == Mounted(old(fs.Seen()), m, fs.root, name)
  {
    hide Tokens, LastSlash, Parent, Leaf, Short, Forest;
    RootLevel(name);
    assert '\0' !in "/" + name && "/" + name != "/";
    rc := fs.Mount("/" + name, m);
  }

  /** `vfs_init`, then "/ram" and "/proc" mounted as the kernel does. */
  method Boot(ram: Ramfs, entries: seq<string>) returns (fs: Vfs)
    requires ram.Valid()
    ensures fresh(fs) && fs.Valid() && fs.ram == ram && fs.root == 0
    ensures Booted(fs.Seen()) && fs.Seen().slots == ram.files[..]
  {
    hide Tokens, FirstNamed, Chain, Separate;
    var ramRoot := Node("ram", true, false, RamOps, -1, -1);
    var procRoot := Node("proc", true, false, FixedOps(entries), -1, -1);
    fs := new Vfs(ram, [ramRoot, procRoot]);
    assert fs.kids == [[], [], []];
    ghost var none: seq<nat> := fs.kids[0];
    var rc := MountAtRoot(fs, "ram", 1);
    assert fs.kids == [[1] + none, [], []] && [1] + none == [1];
    rc := MountAtRoot(fs, "proc", 2);
    assert fs.kids == [[2] + [1], [], []] && [2] + [1] == [2, 1];
  }
}
