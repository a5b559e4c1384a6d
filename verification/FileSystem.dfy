/** ramfs and the VFS as they run: directories are arrays of names, edited in place. */
module FileSystem {
  import opened Options
  import opened FsModel
  import opened FsPaths
  import FsLaws
  import opened Paths
  import NodeCache

  datatype Dirent = Dirent(name: string, node: nat)
  datatype Node = Node(id: nat, dir: bool, links: nat, children: seq<Dirent>)

  // ---------------------------------------------------------------- directories as lists

  ghost predicate Unique(list: seq<Dirent>) {
    forall i, j {:trigger list[i], list[j]} :: 0 <= i < j < |list| ==> list[i].name != list[j].name
  }

  ghost predicate Listed(list: seq<Dirent>, name: string) {
    exists k :: 0 <= k < |list| && list[k].name == name
  }

  /** The directory a list of entries spells out. */
  function EntriesOf(list: seq<Dirent>): map<string, nat> {
    if list == [] then map[]
    else
      var last := list[|list| - 1];
      EntriesOf(list[..|list| - 1])[last.name := last.node]
  }

  lemma {:induction false} EntryIff(list: seq<Dirent>, name: string)
    ensures name in EntriesOf(list) <==> Listed(list, name)
  {
    if list != [] {
      var n := |list| - 1;
      var front := list[..n];
      EntryIff(front, name);
      if Listed(front, name) {
        var k :| 0 <= k < n && front[k].name == name;
        assert list[k].name == name;
      }
      if k :| 0 <= k < |list| && list[k].name == name {
        if k < n { assert front[k].name == name; }
      }
      assert list[n].name == name ==> Listed(list, name);
    }
  }

  lemma {:induction false} EntryAt(list: seq<Dirent>, k: nat)
    requires Unique(list) && k < |list|
    ensures list[k].name in EntriesOf(list) && EntriesOf(list)[list[k].name] == list[k].node
  {
    var n := |list| - 1;
    if k < n {
      EntryAt(list[..n], k);
      assert list[k].name != list[n].name;
    }
  }

  lemma {:induction false} EntryCount(list: seq<Dirent>)
    requires Unique(list)
    ensures |EntriesOf(list)| == |list|
  {
    if list != [] {
      var n := |list| - 1;
      var front := list[..n];
      EntryCount(front);
      EntryIff(front, list[n].name);
      forall k | 0 <= k < n ensures front[k].name != list[n].name { assert front[k] == list[k]; }
      assert EntriesOf(list).Keys == EntriesOf(front).Keys + {list[n].name};
    }
  }

  lemma EntriesAdd(list: seq<Dirent>, e: Dirent)
    requires Unique(list) && e.name !in EntriesOf(list)
    ensures Unique(list + [e]) && EntriesOf(list + [e]) == EntriesOf(list)[e.name := e.node]
  {
    assert (list + [e])[..|list|] == list;
    EntryIff(list, e.name);
  }

  /** The last entry moved into the place of entry `i`. */
  function SwappedOut(list: seq<Dirent>, i: nat): (r: seq<Dirent>)
    requires i < |list|
    ensures |r| == |list| - 1 && forall k {:trigger r[k]} :: 0 <= k < |r| ==>
              r[k] == list[if k == i then |list| - 1 else k]
  {
    list[i := list[|list| - 1]][..|list| - 1]
  }

  /** Swap-with-last removes exactly that name. */
  lemma SwapRemoves(list: seq<Dirent>, i: nat)
    requires Unique(list) && i < |list|
    ensures Unique(SwappedOut(list, i)) && EntriesOf(SwappedOut(list, i)) == EntriesOf(list) - {list[i].name}
  {
    hide EntriesOf, SwappedOut, Listed;
    var r := SwappedOut(list, i);
    var e, m := EntriesOf(r), EntriesOf(list) - {list[i].name};
    forall x ensures x in e <==> x in m {
      EntryIff(list, x);
      EntryIff(r, x);
      SwapListed(list, i, x);
    }
    forall x | x in e ensures e[x] == m[x] {
      EntryIff(r, x);
      var k := Position(r, x);
      EntryAt(r, k);
      EntryAt(list, if k == i then |list| - 1 else k);
    }
  }

  lemma Position(list: seq<Dirent>, name: string) returns (k: nat)
    requires Listed(list, name)
    ensures k < |list| && list[k].name == name
  {
    k :| 0 <= k < |list| && list[k].name == name;
  }

  lemma SwapListed(list: seq<Dirent>, i: nat, x: string)
    requires Unique(list) && i < |list|
    ensures Listed(SwappedOut(list, i), x) <==> Listed(list, x) && x != list[i].name
  {
    hide SwappedOut;
    var r, n := SwappedOut(list, i), |list| - 1;
    if k :| 0 <= k < |r| && r[k].name == x { assert list[if k == i then n else k].name == x; }
    if k :| 0 <= k < |list| && list[k].name == x && k != i { assert r[if k == n then i else k].name == x; }
  }

  function InodeOf(n: Node): Inode { Inode(n.id, n.dir, n.links, EntriesOf(n.children)) }

  function Inodes(nodes: map<nat, Node>): map<nat, Inode> { map a | a in nodes :: InodeOf(nodes[a]) }

  lemma InodesPut(nodes: map<nat, Node>, a: nat, n: Node)
    ensures Inodes(nodes[a := n]) == Inodes(nodes)[a := InodeOf(n)] && Inodes(nodes - {a}) == Inodes(nodes) - {a}
  {}

  /** The write in `ramfs_add_child`. */
  function AddChild(n: Node, name: string, a: nat): Node { n.(children := n.children + [Dirent(name, a)]) }

  lemma AddedNodes(nodes: map<nat, Node>, d: nat, name: string, a: nat)
    requires d in nodes && name !in EntriesOf(nodes[d].children) && forall x {:trigger nodes[x]} :: x in nodes ==>
               Unique(nodes[x].children)
    ensures var r := nodes[d := AddChild(nodes[d], name, a)];
            Inodes(r) == AddEntry(Inodes(nodes), d, name, a) && forall x {:trigger r[x]} :: x in r ==>
                Unique(r[x].children)
  {
    hide EntriesOf, Unique;
    EntriesAdd(nodes[d].children, Dirent(name, a));
    InodesPut(nodes, d, AddChild(nodes[d], name, a));
  }

  lemma LinkedNodes(s: Fs, nodes: map<nat, Node>, d: nat, name: string, a: nat)
    requires s.inodes == Inodes(nodes) && d in nodes && a in nodes && d != a
    requires name !in EntriesOf(nodes[d].children) && forall x {:trigger nodes[x]} :: x in nodes ==>
               Unique(nodes[x].children)
    ensures var n1 := nodes[d := AddChild(nodes[d], name, a)]; var n2 := n1[a := n1[a].(links := n1[a].links + 1)];
            s.(inodes := Inodes(n2)) == Linked(s, d, name, a) && forall x {:trigger n2[x]} :: x in n2 ==>
                Unique(n2[x].children)
  {
    hide EntriesOf, Unique, AddEntry;
    AddedNodes(nodes, d, name, a);
    var n1 := nodes[d := AddChild(nodes[d], name, a)];
    InodesPut(n1, a, n1[a].(links := n1[a].links + 1));
  }

  lemma CreatedNodes(s: Fs, nodes: map<nat, Node>, d: nat, name: string, dir: bool, at: nat)
    requires s.inodes == Inodes(nodes) && d in nodes && at !in nodes
    requires name !in EntriesOf(nodes[d].children) && forall x {:trigger nodes[x]} :: x in nodes ==>
               Unique(nodes[x].children)
    ensures var n1 := nodes[at := Node(s.nextId, dir, 1, [])]; var n2 := n1[d := AddChild(n1[d], name, at)];
            && Inodes(n1) == s.inodes[at := Inode(s.nextId, dir, 1, map[])]
               && Inodes(n2) == AddEntry(Inodes(n1), d, name, at)
            && (forall x {:trigger n1[x]} :: x in n1 ==> Unique(n1[x].children))
               && (forall x {:trigger n2[x]} :: x in n2 ==> Unique(n2[x].children))
            && name in EntriesOf(n2[d].children) && EntriesOf(n2[d].children)[name] == at
  {
    hide Unique, AddEntry;
    var n1 := nodes[at := Node(s.nextId, dir, 1, [])];
    InodesPut(nodes, at, Node(s.nextId, dir, 1, []));
    assert Unique(n1[at].children) by { EmptyUnique(); }
    AddedNodes(n1, d, name, at);
    EntriesAdd(n1[d].children, Dirent(name, at));
  }

  lemma EmptyUnique() ensures Unique([]) {}

  // ---------------------------------------------------------------- the cache behind the VFS nodes

  /** Under cache index `index` the bucket lists hold exactly the cached nodes. */
  ghost predicate Represents(buckets: seq<NodeCache.Bucket>, index: int, cached: map<nat, VNode>) {
    && NodeCache.Tidy(buckets)
    && (forall id: nat {:trigger NodeCache.Get(buckets, index, id)} ::
          NodeCache.Get(buckets, index, id) == if id in cached then Some(cached[id].node) else None)
  }

  /** A bucket that is searched exists: whoever looks up, creates or unlinks holds the directory, which is
      cached under the same index. */
  lemma BucketExists(s: Fs, e: Event, buckets: seq<NodeCache.Bucket>, index: int)
    requires Inv(s) && Enabled(s, e) && (e.Looks? || e.Creates? || e.Unlinks?) && Represents(buckets, index, s.cached)
    ensures exists other :: NodeCache.Get(buckets, index, other).Some?
  {
    assert NodeCache.Get(buckets, index, e.dir).Some?;
  }

  /** Reference counts do not matter to the buckets. */
  lemma RepresentsSame(buckets: seq<NodeCache.Bucket>, index: int, cached: map<nat, VNode>, cached': map<nat, VNode>)
    requires Represents(buckets, index, cached) && cached'.Keys == cached.Keys
    requires forall id {:trigger cached'[id]} :: id in cached' ==> cached'[id].node == cached[id].node
    ensures Represents(buckets, index, cached')
  {
    hide NodeCache.Get, NodeCache.Tidy;
  }

  class Tree {
    var nodes: map<nat, Node>
    var cached: map<nat, VNode>
    const root: nat
    var nextId: nat
    /** The bucket lists, and the index under which this file system's nodes are in them. */
    const table: NodeCache.Cache
    const index: int
    ghost var held: map<nat, nat>
    ghost var lost: set<nat>

    ghost function Abs(): Fs
      reads this
    {
      Fs(Inodes(nodes), cached, held, lost, root, nextId)
    }

    ghost predicate Valid()
      reads this, table
    {
      && Inv(Abs())
      && Represents(table.buckets, index, cached)
      && forall a {:trigger nodes[a]} :: a in nodes ==> Unique(nodes[a].children)
    }

    /** The search loop of `ramfs_find_child`: the position of `name`, the number of entries if it is not there. */
    method FindChild(a: nat, name: string) returns (k: nat)
      requires a in nodes && Unique(nodes[a].children)
      ensures k <= |nodes[a].children|
      ensures k < |nodes[a].children| <==> name in EntriesOf(nodes[a].children)
      ensures k < |nodes[a].children| ==>
                nodes[a].children[k].name == name && EntriesOf(nodes[a].children)[name] == nodes[a].children[k].node
    {
      var list := nodes[a].children;
      k := 0;
      while k < |list|
        invariant k <= |list| && forall i {:trigger list[i]} :: 0 <= i < k ==> list[i].name != name
      {
        if list[k].name == name {
          EntryAt(list, k);
          return;
        }
        k := k + 1;
      }
      EntryIff(list, name);
    }

    /** `vfs_lock_node`. */
    method LockNode(id: nat)
      requires Valid() && id in cached
      modifies this`cached, this`held
      ensures Valid() && Abs() == Lock(old(Abs()), id)
    {
      LockKeeps(Abs(), id);
      ghost var before := cached;
      held := held[id := Held(Abs(), id) + 1];
      cached := cached[id := cached[id].(refs := cached[id].refs + 1)];
      RepresentsSame(table.buckets, index, before, cached);
    }

    constructor (nodes: map<nat, Node>, root: nat, nextId: nat, cached: map<nat, VNode>,
                 table: NodeCache.Cache, index: int, ghost held: map<nat, nat>)
      requires Inv(Fs(Inodes(nodes), cached, held, {}, root, nextId))
      requires forall a {:trigger nodes[a]} :: a in nodes ==> Unique(nodes[a].children)
      requires Represents(table.buckets, index, cached)
      ensures Valid() && this.table == table && Abs() == Fs(Inodes(nodes), cached, held, {}, root, nextId)
    {
      this.nodes, this.root, this.nextId, this.cached := nodes, root, nextId, cached;
      this.table, this.index := table, index;
      this.held, lost := held, {};
    }

    /** `vfs_release_node`, `vfs_cache_try_evict` and `ramfs_release`. */
    method ReleaseNode(id: nat)
      requires Valid() && Holds(Abs(), id)
      modifies this`cached, this`held, this`nodes, table
      ensures Valid() && old(id in cached && cached[id].refs >= 1 && cached[id].node in nodes)
      ensures Abs() == Release(old(Abs()), id)
      ensures id in cached <==> old(cached[id].refs) > 2
      ensures old(cached[id].node) in nodes <==> old(cached[id].refs) > 2 || old(nodes[cached[id].node].links) > 0
    {
      hide Inv, EntriesOf;
      ghost var s := Abs();
      FsLaws.ReleaseExact(s, id);
      ReleaseKeeps(s, id);
      held := held[id := Held(s, id) - 1];
      var v := cached[id].(refs := cached[id].refs - 1);
      cached := cached[id := v];
      RepresentsSame(table.buckets, index, s.cached, cached);
      if v.refs != 1 { return; }
      var _ := table.Evict(index, id);
      cached := cached - {id};
      assert cached == s.cached - {id};
      if nodes[v.node].links > 0 { return; }
      InodesPut(nodes, v.node, nodes[v.node]);
      nodes := nodes - {v.node};
    }

    /** The VFS node for a ramfs node: the cached one or a new one. */
    method VfsNode(a: nat) returns (id: nat)
      requires Valid() && a in nodes && a !in lost
      modifies this`cached, table
      ensures Valid() && Abs() == Cache(old(Abs()), a) && id == nodes[a].id && id in cached && cached[id].node == a
    {
      hide Inv, EntriesOf, Unique, NodeCache.Get, NodeCache.Tidy;
      CacheKeeps(Abs(), a);
      RootBucket();
      id := nodes[a].id;
      var hit := table.Query(index, id);
      if hit == None {
        cached := cached[id := VNode(a, 1)];
        var _ := table.Put(index, id, a);
      }
    }

    /** The root is always cached, so the bucket of this file system is always there. */
    lemma RootBucket()
      requires Valid()
      ensures exists other :: NodeCache.Get(table.buckets, index, other).Some?
    {
      assert NodeCache.Get(table.buckets, index, nodes[root].id).Some?;
    }

    /** `ramfs_lookup` in the directory behind VFS node `id`. */
    method Lookup(id: nat, name: string) returns (child: Option<nat>)
      requires Valid() && id in cached && cached[id].node in nodes
      modifies this`cached, table
      ensures Valid()
      ensures var d := old(cached[id].node); var entries := EntriesOf(nodes[d].children);
              if name in entries then entries[name] in nodes && child == Some(nodes[entries[name]].id)
                && Abs() == Cache(old(Abs()), entries[name])
              else child == None && Abs() == old(Abs())
      ensures id in cached && cached[id].node == old(cached[id].node) && (child.Some? ==> child.value in cached)
    {
      hide Inv, EntriesOf;
      var d := cached[id].node;
      EntryOf(Abs(), d, name);
      var k := FindChild(d, name);
      if k == |nodes[d].children| { return None; }
      var c := VfsNode(nodes[d].children[k].node);
      return Some(c);
    }

    /** `ramfs_create` in the directory behind VFS node `id`; `at` is the address of a new node. */
    method CreateIn(id: nat, name: string, dir: bool, at: nat) returns (child: Option<nat>)
      requires Valid() && id in cached && cached[id].node in nodes && nodes[cached[id].node].dir && at !in nodes
      modifies this`nodes, this`cached, this`nextId, this`lost, table
      ensures Valid()
      ensures var d := old(cached[id].node); var s := old(Abs());
              && (name in s.inodes[d].entries ==> s.inodes[d].entries[name] in s.inodes)
                 && Abs() == Create(s, d, name, dir, at)
              && (child == None <==> name !in s.inodes[d].entries && |s.inodes[d].entries| >= MAX_CHILDREN)
              && (child.Some? ==>
                     d in nodes && name in EntriesOf(nodes[d].children) && EntriesOf(nodes[d].children)[name] in nodes)
              && (child.Some? ==> child.value == nodes[EntriesOf(nodes[d].children)[name]].id)
    {
      hide Inv, EntriesOf, Unique;
      var d := cached[id].node;
      ghost var s := Abs();
      EntryOf(s, d, name);
      NotLost(s, id);
      CreateKeeps(s, d, name, dir, at);
      EntryCount(nodes[d].children);
      var k := FindChild(d, name);
      if k < |nodes[d].children| {
        var c := VfsNode(nodes[d].children[k].node);
        return Some(c);
      }
      CreatedNodes(s, nodes, d, name, dir, at);
      FreshId(s);
      nodes := nodes[at := Node(nextId, dir, 1, [])];
      nextId := nextId + 1;
      if |nodes[d].children| >= MAX_CHILDREN {
        lost := lost + {at};
        return None;
      }
      nodes := nodes[d := AddChild(nodes[d], name, at)];
      cached := cached[nodes[at].id := VNode(at, 1)];
      var _ := table.Put(index, nodes[at].id, at);
      return Some(nodes[at].id);
    }

    /** `ramfs_link`. */
    method LinkIn(id: nat, name: string, a: nat) returns (ok: bool)
      requires Valid() && id in cached && cached[id].node in nodes && nodes[cached[id].node].dir
      requires a in nodes && !nodes[a].dir && a !in lost
      modifies this`nodes
      ensures Valid() && Abs() == Link(old(Abs()), cached[id].node, name, a)
      ensures var entries := old(Abs()).inodes[cached[id].node].entries;
              ok <==> name !in entries && |entries| < MAX_CHILDREN
      ensures var d := cached[id].node; var s := old(Abs());
              && d in nodes && a in nodes
              && Abs().inodes[d].entries == (if ok then s.inodes[d].entries[name := a] else s.inodes[d].entries)
              && Abs().inodes[a].links == s.inodes[a].links + if ok then 1 else 0
    {
      hide Inv, EntriesOf, Linked, Unique;
      var d := cached[id].node;
      ghost var s := Abs();
      FsLaws.LinkExact(s, d, name, a);
      LinkKeeps(s, d, name, a);
      EntryCount(nodes[d].children);
      var k := FindChild(d, name);
      if k < |nodes[d].children| || |nodes[d].children| >= MAX_CHILDREN { return false; }
      LinkedNodes(s, nodes, d, name, a);
      nodes := nodes[d := AddChild(nodes[d], name, a)];
      nodes := nodes[a := nodes[a].(links := nodes[a].links + 1)];
      return true;
    }

    /** `ramfs_unlink`: swap with the last entry, and free a file that was its last name unless it is cached. */
    method UnlinkIn(id: nat, name: string) returns (ok: bool)
      requires Valid() && id in cached && cached[id].node in nodes
      modifies this`nodes
      ensures Valid()
      ensures var d := cached[id].node; var s := old(Abs());
              && (name in s.inodes[d].entries ==>
                     s.inodes[d].entries[name] in s.inodes && s.inodes[s.inodes[d].entries[name]].links > 0)
              && Abs() == Unlink(s, d, name)
              && (ok <==> name in s.inodes[d].entries && !s.inodes[s.inodes[d].entries[name]].dir)
    {
      hide Inv, EntriesOf, SwappedOut, Unique, NodeCache.Get, NodeCache.Tidy;
      var d := cached[id].node;
      ghost var s := Abs();
      UnlinkKeeps(s, d, name);
      EntryOf(s, d, name);
      var k := FindChild(d, name);
      if k == |nodes[d].children| { return false; }
      var a := nodes[d].children[k].node;
      if nodes[a].dir { return false; }
      RootBucket();
      SwapRemoves(nodes[d].children, k);
      InodesPut(nodes, d, nodes[d].(children := SwappedOut(nodes[d].children, k)));
      nodes := nodes[d := nodes[d].(children := SwappedOut(nodes[d].children, k))];
      InodesPut(nodes, a, nodes[a].(links := nodes[a].links - 1));
      nodes := nodes[a := nodes[a].(links := nodes[a].links - 1)];
      if nodes[a].links == 0 {
        var hit := table.Query(index, nodes[a].id);
        if hit == None {
          InodesPut(nodes, a, nodes[a]);
          nodes := nodes - {a};
        }
      }
      return true;
    }

    /** `vfs_resolve`: the path is walked name by name, holding one node at a time. */
    method ResolvePath(path: string) returns (r: Option<nat>)
      requires Valid()
      modifies this`cached, this`held, this`nodes, table
      ensures Valid() && (Abs(), r) == Resolve(old(Abs()), Components(path))
    {
      hide Inv, EntriesOf, ResolveFrom, Descend, Components, Head;
      ghost var s := Abs();
      LockedRoot(s);
      var current := nodes[root].id;
      LockNode(current);
      ghost var all := ResolveFrom(Abs(), current, Components(path));
      var rest := path;
      while rest != ""
        invariant Valid() && root in nodes && Holds(Abs(), current) && cached[current].node in nodes
        invariant ResolveFrom(Abs(), current, Components(rest)) == all
        decreases |rest|
      {
        NextName(rest);
        if rest[0] == '/' {
          rest := rest[1..];
          continue;
        }
        var k := Head(rest);
        var name := rest[..k];
        ghost var now := Abs();
        NextStep(now, current, Components(rest));
        var next := Lookup(current, name);
        if next == None { return None; }
        LockNode(next.value);
        ReleaseNode(current);
        current := next.value;
        rest := rest[k..];
      }
      NoNames(Abs(), current, rest);
      return Some(current);
    }

    /** `vfs_create`, for paths below 256 characters; `at` is the address of a new node. */
    method CreatePath(path: string, dir: bool, at: nat) returns (r: Option<nat>)
      requires Valid() && at !in nodes
      modifies this, table
      ensures Valid()
      ensures if LastName(path) == "" then r == None && Abs() == old(Abs())
              else (Abs(), r) == CreateAt(old(Abs()), Components(ParentPath(path)), LastName(path), dir, at)
      ensures at in nodes ==> Abs().inodes[at] == Inode(old(nextId), dir, 1, map[])
      ensures r.Some? && at in nodes ==> WalkTo(Abs().inodes, root, Components(path)) == Some(at)
      ensures r.Some? && at !in nodes ==> Abs().inodes == old(Abs()).inodes
    {
      hide Inv, EntriesOf, Resolve, Components, Create, Cache, Lock, Release, Unique;
      var name := LastName(path);
      if name == "" { return None; }
      ghost var s := Abs();
      CreatePathExact(s, path, dir, at);
      ResolveOk(s, Components(ParentPath(path)));
      var p := ResolvePath(ParentPath(path));
      if p == None { return None; }
      ghost var s1 := Abs();
      IdOf(s1, p.value);
      NotLost(s1, p.value);
      if !nodes[cached[p.value].node].dir {
        ReleaseNode(p.value);
        return None;
      }
      CreateFacts(s1, p.value, name, dir, at);
      var c := CreateIn(p.value, name, dir, at);
      ghost var s2 := Abs();
      ReleaseKeeps(s2, p.value);
      if c.Some? { ReleaseOther(s2, p.value, s1.cached[p.value].node, name); }
      ReleaseNode(p.value);
      if c == None { return None; }
      LockNode(c.value);
      return c;
    }

    /** `vfs_unlink`. */
    method UnlinkPath(path: string) returns (ok: bool)
      requires Valid()
      modifies this, table
      ensures Valid()
      ensures if LastName(path) == "" then !ok && Abs() == old(Abs())
              else (Abs(), ok) == UnlinkAt(old(Abs()), Components(ParentPath(path)), LastName(path))
    {
      hide Inv, EntriesOf, Resolve, Components, Unlink, Cache, Lock, Release, Unique;
      var name := LastName(path);
      if name == "" { return false; }
      ghost var s := Abs();
      ResolveOk(s, Components(ParentPath(path)));
      var p := ResolvePath(ParentPath(path));
      if p == None { return false; }
      ghost var s1 := Abs();
      IdOf(s1, p.value);
      if !nodes[cached[p.value].node].dir {
        ReleaseNode(p.value);
        return false;
      }
      UnlinkFacts(s1, p.value, name);
      ok := UnlinkIn(p.value, name);
      ReleaseNode(p.value);
    }
  }

  lemma NextName(path: string)
    requires path != ""
    ensures path[0] == '/' ==> Components(path) == Components(path[1..])
    ensures path[0] != '/' ==>
              0 < Head(path) <= |path| && Components(path) == [path[..Head(path)]] + Components(path[Head(path)..])
  {}

  lemma NoNames(s: Fs, id: nat, path: string)
    requires Inv(s) && Holds(s, id) && s.cached[id].node in s.inodes && path == ""
    ensures ResolveFrom(s, id, Components(path)) == (s, Some(id))
  {}

  /** One step of the walk, for a nonempty list of names. */
  lemma NextStep(s: Fs, id: nat, names: seq<string>)
    requires Inv(s) && Holds(s, id) && s.cached[id].node in s.inodes && names != []
    ensures var d := s.cached[id].node; var entries := s.inodes[d].entries;
            if names[0] !in entries then ResolveFrom(s, id, names) == (s, None)
            else
              && entries[names[0]] in s.inodes && entries[names[0]] !in s.lost
              && var a := entries[names[0]]; var n := Descend(s, id, names[0]);
              && s.inodes[a].id in Cache(s, a).cached && Holds(Lock(Cache(s, a), s.inodes[a].id), id)
              && Holds(n, s.inodes[a].id) && n.cached[s.inodes[a].id].node == a && n.inodes == s.inodes
                 && n.root == s.root
              && ResolveFrom(s, id, names) == ResolveFrom(n, s.inodes[a].id, names[1..])
              && Inv(Lock(Cache(s, a), s.inodes[a].id)) && s.cached[id].node in Lock(Cache(s, a), s.inodes[a].id).inodes
              && Lock(Cache(s, a), s.inodes[a].id).cached[id].refs >= 1
                 && Lock(Cache(s, a), s.inodes[a].id).cached[id].node in s.inodes
              && n == Release(Lock(Cache(s, a), s.inodes[a].id), id)
  {
    hide Inv;
    if names[0] in s.inodes[s.cached[id].node].entries {
      DescendReady(s, id, names[0]);
      DescendOk(s, id, names[0]);
      var a := s.inodes[s.cached[id].node].entries[names[0]];
      CacheKeeps(s, a);
      LockKeeps(Cache(s, a), s.inodes[a].id);
      ReleaseKeeps(Lock(Cache(s, a), s.inodes[a].id), id);
    }
  }

  /** After `vfs_create` of a path that succeeds, the path leads to the new node, of the kind asked for, empty and with
      one name; or the name was there, and no node has changed. */
  lemma CreatePathExact(s: Fs, path: string, dir: bool, at: nat)
    requires Inv(s) && at !in s.inodes && LastName(path) != ""
    ensures var (r, child) := CreateAt(s, Components(ParentPath(path)), LastName(path), dir, at);
            && (at in r.inodes ==> r.inodes[at] == Inode(s.nextId, dir, 1, map[]))
            && (child.Some? && at in r.inodes ==> WalkTo(r.inodes, s.root, Components(path)) == Some(at))
            && (child.Some? && at !in r.inodes ==> r.inodes == s.inodes)
  {
    hide Inv, CreateAt, WalkTo;
    SplitComponents(path);
    FsLaws.CreateAtExact(s, Components(ParentPath(path)), LastName(path), dir, at);
  }

  /** What `vfs_create` made at a path is what `vfs_resolve` of the same path finds. */
  lemma CreatePathThenResolve(s: Fs, path: string, dir: bool, at: nat)
    requires Inv(s) && at !in s.inodes && LastName(path) != ""
    requires CreateAt(s, Components(ParentPath(path)), LastName(path), dir, at).1.Some?
    ensures var (r, child) := CreateAt(s, Components(ParentPath(path)), LastName(path), dir, at);
            Resolve(r, Components(path)).1 == child
  {
    SplitComponents(path);
    CreateThenResolve(s, Components(ParentPath(path)), LastName(path), dir, at);
  }

  /** And after `vfs_unlink` of a path that path leads nowhere. */
  lemma UnlinkPathThenResolve(s: Fs, path: string)
    requires Inv(s) && LastName(path) != "" && UnlinkAt(s, Components(ParentPath(path)), LastName(path)).1
    ensures Resolve(UnlinkAt(s, Components(ParentPath(path)), LastName(path)).0, Components(path)).1 == None
  {
    SplitComponents(path);
    UnlinkThenResolve(s, Components(ParentPath(path)), LastName(path));
  }
}
