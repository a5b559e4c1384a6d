/** ramfs nodes, the VFS nodes that stand for them, and who may still use them. The state is a value;
    FileSystem.Tree edits it in place. */
module FsModel {
  /** A ramfs node: `links` is what the code counts, `entries` a directory's names. */
  datatype Inode = Inode(id: nat, dir: bool, links: nat, entries: map<string, nat>)

  /** A cached VFS node: the ramfs node behind it and its reference count. */
  datatype VNode = VNode(node: nat, refs: nat)

  /** `held` counts the references that callers have taken and not given back, per node id, and
      `lost` names the nodes that a failed create left behind; the code stores neither. */
  datatype Fs = Fs(inodes: map<nat, Inode>, cached: map<nat, VNode>, held: map<nat, nat>, lost: set<nat>, root: nat,
        nextId: nat)

  const MAX_CHILDREN: nat := 64

  function Held(s: Fs, id: nat): nat { if id in s.held then s.held[id] else 0 }

  /** The directory entries that name `a`. */
  ghost function Names(inodes: map<nat, Inode>, a: nat): set<(nat, string)> {
    set d, n | d in inodes && n in inodes[d].entries && inodes[d].entries[n] == a :: (d, n)
  }

  // ---------------------------------------------------------------- invariant

  /** `links` counts the entries that name the node, and one more if a create left it behind. */
  ghost predicate Counted(s: Fs, a: nat)
    requires a in s.inodes
  {
    s.inodes[a].links == |Names(s.inodes, a)| + if a in s.lost then 1 else 0
  }

  /** The entries of a node: none if it is a file, all of them existing nodes, never the root or
      the directory itself; at most 64. */
  ghost predicate Entered(s: Fs, d: nat)
    requires d in s.inodes
  {
    && (!s.inodes[d].dir ==> s.inodes[d].entries == map[]) && |s.inodes[d].entries| <= MAX_CHILDREN
    && forall n {:trigger n in s.inodes[d].entries} :: n in s.inodes[d].entries ==>
         s.inodes[d].entries[n] in s.inodes && s.inodes[d].entries[n] !in {s.root, d}
           && s.inodes[d].entries[n] !in s.lost
  }

  /** A cached node stands for an existing ramfs node with its id, and has one reference for the cache and
      one for every holder. */
  ghost predicate Backed(s: Fs, id: nat)
    requires id in s.cached
  {
    && s.cached[id].node in s.inodes && s.inodes[s.cached[id].node].id == id && s.cached[id].node !in s.lost
    && s.cached[id].refs == 1 + Held(s, id)
  }

  /** A node that no entry names is still cached: it goes when the last holder lets go. */
  ghost predicate Reachable(s: Fs, a: nat)
    requires a in s.inodes
  {
    s.inodes[a].id < s.nextId
      && (a != s.root && s.inodes[a].links == 0 ==> s.inodes[a].id in s.cached && !s.inodes[a].dir)
  }

  /** No two nodes have the same id. */
  ghost predicate Ids(inodes: map<nat, Inode>) {
    forall a, b {:trigger inodes[a], inodes[b]} :: a in inodes && b in inodes && inodes[a].id == inodes[b].id ==> a == b
  }

  lemma SameId(inodes: map<nat, Inode>, a: nat, b: nat)
    requires Ids(inodes) && a in inodes && b in inodes
    ensures inodes[a].id == inodes[b].id ==> a == b
  {}

  lemma IdsSub(inodes: map<nat, Inode>, r: map<nat, Inode>)
    requires Ids(inodes) && forall a {:trigger r[a]} :: a in r ==> a in inodes && r[a].id == inodes[a].id
    ensures Ids(r)
  {}

  lemma IdsMade(inodes: map<nat, Inode>, a: nat, made: Inode)
    requires Ids(inodes) && a !in inodes && forall x {:trigger inodes[x]} :: x in inodes ==> inodes[x].id != made.id
    ensures Ids(inodes[a := made])
  {}

  /** Everything in order, except that node `but` may be neither named nor cached. */
  ghost predicate InvBut(s: Fs, but: nat) {
    && s.root in s.inodes && s.inodes[s.root].dir && s.root !in s.lost && s.lost <= s.inodes.Keys
    && s.inodes[s.root].id in s.cached && Held(s, s.inodes[s.root].id) >= 1
    && Ids(s.inodes)
    && (forall a {:trigger Counted(s, a)} :: a in s.inodes && a != s.root ==> Counted(s, a))
    && (forall d {:trigger Entered(s, d)} :: d in s.inodes ==> Entered(s, d))
    && (forall id {:trigger Backed(s, id)} :: id in s.cached ==> Backed(s, id))
    && (forall a {:trigger Reachable(s, a)} :: a in s.inodes && a != but ==> Reachable(s, a))
    && (forall id {:trigger Held(s, id)} :: Held(s, id) > 0 ==> id in s.cached)
  }

  ghost predicate Inv(s: Fs) {
    InvBut(s, s.root) && Reachable(s, s.root)
  }

  /** A file system with nothing but its root, whose VFS node the VFS holds for good. */
  function Bare(root: nat): Fs {
    Fs(map[root := Inode(0, true, 1, map[])], map[0 := VNode(root, 2)], map[0 := 1], {}, root, 1)
  }

  lemma BareInv(root: nat)
    ensures Inv(Bare(root))
  {
    var s := Bare(root);
    forall a | a in s.inodes ensures Entered(s, a) && Reachable(s, a) {}
    forall id | id in s.cached ensures Backed(s, id) { assert Held(s, 0) == 1; }
    assert Held(s, 0) == 1;
  }

  // ---------------------------------------------------------------- steps

  /** `vfs_lock_node` by a caller. */
  function Lock(s: Fs, id: nat): Fs
    requires id in s.cached
  {
    s.(cached := s.cached[id := s.cached[id].(refs := s.cached[id].refs + 1)], held := s.held[id := Held(s, id) + 1])
  }

  function LetGo(s: Fs, id: nat): Fs
    requires id in s.cached && s.cached[id].refs >= 1 && Held(s, id) >= 1
  {
    s.(cached := s.cached[id := s.cached[id].(refs := s.cached[id].refs - 1)], held := s.held[id := Held(s, id) - 1])
  }

  /** `vfs_release_node` with the eviction that follows when only the cache's reference is left. */
  function Release(s: Fs, id: nat): Fs
    requires id in s.cached && s.cached[id].refs >= 1 && Held(s, id) >= 1 && s.cached[id].node in s.inodes
  {
    var g := LetGo(s, id);
    var a := s.cached[id].node;
    if g.cached[id].refs != 1 then g
    else if s.inodes[a].links > 0 then g.(cached := s.cached - {id})
    else g.(cached := s.cached - {id}, inodes := s.inodes - {a})
  }

  /** The VFS node for ramfs node `a`: the cached one or a new one. */
  function Cache(s: Fs, a: nat): Fs
    requires a in s.inodes
  {
    var id := s.inodes[a].id;
    if id in s.cached then s else s.(cached := s.cached[id := VNode(a, 1)])
  }

  function AddEntry(inodes: map<nat, Inode>, d: nat, name: string, a: nat): map<nat, Inode>
    requires d in inodes
  {
    inodes[d := inodes[d].(entries := inodes[d].entries[name := a])]
  }

  /** `ramfs_create`; `a` is the address of a new node. A full directory leaves the node behind. */
  function Create(s: Fs, d: nat, name: string, dir: bool, a: nat): Fs
    requires d in s.inodes && (name in s.inodes[d].entries ==> s.inodes[d].entries[name] in s.inodes)
  {
    if name in s.inodes[d].entries then Cache(s, s.inodes[d].entries[name])
    else
      var made := s.(inodes := s.inodes[a := Inode(s.nextId, dir, 1, map[])], nextId := s.nextId + 1);
      if |s.inodes[d].entries| >= MAX_CHILDREN then made.(lost := s.lost + {a})
      else Cache(made.(inodes := AddEntry(made.inodes, d, name, a)), a)
  }

  /** The state after a link that is possible. */
  function Linked(s: Fs, d: nat, name: string, a: nat): Fs
    requires d in s.inodes && a in s.inodes
  {
    var added := AddEntry(s.inodes, d, name, a);
    s.(inodes := added[a := added[a].(links := added[a].links + 1)])
  }

  /** `ramfs_link` of node `a` under a new name. */
  function Link(s: Fs, d: nat, name: string, a: nat): Fs
    requires d in s.inodes && a in s.inodes
  {
    if name in s.inodes[d].entries || |s.inodes[d].entries| >= MAX_CHILDREN then s else Linked(s, d, name, a)
  }

  /** The entry is gone and the count one less. */
  function Cut(s: Fs, d: nat, name: string): Fs
    requires d in s.inodes && name in s.inodes[d].entries && s.inodes[d].entries[name] in s.inodes
             && s.inodes[s.inodes[d].entries[name]].links > 0
  {
    var a := s.inodes[d].entries[name];
    var cut := s.inodes[d := s.inodes[d].(entries := s.inodes[d].entries - {name})];
    s.(inodes := cut[a := cut[a].(links := cut[a].links - 1)])
  }

  /** `ramfs_unlink`: directories stay; a file goes at once if it was the last name and it is not cached. */
  function Unlink(s: Fs, d: nat, name: string): Fs
    requires d in s.inodes
    requires name in s.inodes[d].entries ==>
               s.inodes[d].entries[name] in s.inodes && s.inodes[s.inodes[d].entries[name]].links > 0
  {
    if name !in s.inodes[d].entries || s.inodes[s.inodes[d].entries[name]].dir then s
    else
      var a := s.inodes[d].entries[name];
      var c := Cut(s, d, name);
      if c.inodes[a].links == 0 && s.inodes[a].id !in s.cached then c.(inodes := c.inodes - {a}) else c
  }

  // ---------------------------------------------------------------- counting entries

  lemma NamesAdd(inodes: map<nat, Inode>, d: nat, name: string, a: nat, x: nat)
    requires d in inodes && name !in inodes[d].entries
    ensures Names(AddEntry(inodes, d, name, a), x) == Names(inodes, x) + if x == a then {(d, name)} else {}
    ensures (d, name) !in Names(inodes, x)
  {
    var r := AddEntry(inodes, d, name, a);
    forall e, n ensures (e, n) in Names(r, x) <==> (e, n) in Names(inodes, x) || (x == a && e == d && n == name) {}
  }

  lemma NamesCut(inodes: map<nat, Inode>, d: nat, name: string, x: nat)
    requires d in inodes && name in inodes[d].entries
    ensures Names(inodes[d := inodes[d].(entries := inodes[d].entries - {name})], x) ==
            Names(inodes, x) - if x == inodes[d].entries[name] then {(d, name)} else {}
    ensures (d, name) in Names(inodes, inodes[d].entries[name])
  {
    var r := inodes[d := inodes[d].(entries := inodes[d].entries - {name})];
    var a := inodes[d].entries[name];
    forall e, n ensures (e, n) in Names(r, x) <==> (e, n) in Names(inodes, x) && !(x == a && e == d && n == name) {}
  }

  /** Counts and ids do not matter for names. */
  lemma NamesSame(inodes: map<nat, Inode>, r: map<nat, Inode>, x: nat)
    requires forall d {:trigger r[d]} :: d in r ==> d in inodes && r[d].entries == inodes[d].entries
    requires forall d {:trigger inodes[d]} :: d in inodes && d !in r ==> inodes[d].entries == map[]
    ensures Names(r, x) == Names(inodes, x)
  {
    forall e, n ensures (e, n) in Names(r, x) <==> (e, n) in Names(inodes, x) {}
  }

  // ---------------------------------------------------------------- every step keeps the invariant

  lemma LockKeeps(s: Fs, id: nat)
    requires Inv(s) && id in s.cached
    ensures Inv(Lock(s, id))
  {
    hide Names;
    var r := Lock(s, id);
    forall x | x in r.cached ensures Backed(r, x) { assert Backed(s, x); }
    forall x ensures Held(r, x) > 0 ==> x in r.cached { assert Held(s, x) > 0 ==> x in s.cached; }
    forall a | a in r.inodes && a != r.root ensures Counted(r, a) { assert Counted(s, a); }
    forall a | a in r.inodes ensures Reachable(r, a) && Entered(r, a) { assert Reachable(s, a) && Entered(s, a); }
    assert Held(s, s.inodes[s.root].id) >= 1;
  }

  lemma CacheKeeps(s: Fs, a: nat)
    requires Inv(s) && a in s.inodes && a !in s.lost
    ensures var r := Cache(s, a); Inv(r) && s.inodes[a].id in r.cached && r.cached[s.inodes[a].id].node == a
  {
    hide Names;
    var r := Cache(s, a);
    var id := s.inodes[a].id;
    if id in s.cached { assert Backed(s, id); }
    forall x | x in r.cached ensures Backed(r, x) {
      if x in s.cached { assert Backed(s, x); } else { assert Held(s, x) == Held(r, x); }
    }
    forall x ensures Held(r, x) > 0 ==> x in r.cached { assert Held(s, x) > 0 ==> x in s.cached; }
    forall x | x in r.inodes && x != r.root ensures Counted(r, x) { assert Counted(s, x); }
    forall x | x in r.inodes ensures Reachable(r, x) && Entered(r, x) { assert Reachable(s, x) && Entered(s, x); }
    assert Held(s, s.inodes[s.root].id) >= 1;
  }

  lemma LetGoKeeps(s: Fs, id: nat)
    requires Inv(s) && id in s.cached && Held(s, id) >= (if id == s.inodes[s.root].id then 2 else 1)
    ensures s.cached[id].refs >= 1 && Inv(LetGo(s, id))
  {
    hide Names;
    assert Backed(s, id);
    var r := LetGo(s, id);
    forall x | x in r.cached ensures Backed(r, x) { assert Backed(s, x); }
    forall x ensures Held(r, x) > 0 ==> x in r.cached { assert Held(s, x) > 0 ==> x in s.cached; }
    forall x | x in r.inodes && x != r.root ensures Counted(r, x) { assert Counted(s, x); }
    forall x | x in r.inodes ensures Reachable(r, x) && Entered(r, x) { assert Reachable(s, x) && Entered(s, x); }
    assert Held(s, s.inodes[s.root].id) >= 1;
  }

  /** A node that only the cache refers to is not the root and nobody holds it. */
  lemma Idle(s: Fs, id: nat)
    requires Inv(s) && id in s.cached && s.cached[id].refs == 1
    ensures Held(s, id) == 0 && id != s.inodes[s.root].id && s.cached[id].node in s.inodes
            && s.cached[id].node != s.root
    ensures s.inodes[s.cached[id].node].id == id && s.cached[id].node !in s.lost
  {
    assert Backed(s, id);
    assert Held(s, s.inodes[s.root].id) >= 1;
  }

  lemma EvictKeeps(s: Fs, id: nat)
    requires Inv(s) && id in s.cached && s.cached[id].refs == 1 && s.cached[id].node in s.inodes
             && s.inodes[s.cached[id].node].links > 0
    ensures Inv(s.(cached := s.cached - {id}))
  {
    hide Names;
    Idle(s, id);
    var r := s.(cached := s.cached - {id});
    forall x | x in r.cached ensures Backed(r, x) { assert Backed(s, x); }
    forall x ensures Held(r, x) > 0 ==> x in r.cached { assert Held(s, x) > 0 ==> x in s.cached; }
    forall x | x in r.inodes && x != r.root ensures Counted(r, x) { assert Counted(s, x); }
    forall x | x in r.inodes ensures Reachable(r, x) && Entered(r, x) { assert Reachable(s, x) && Entered(s, x); }
    assert Held(s, s.inodes[s.root].id) >= 1;
  }

  lemma EvictFreeKeeps(s: Fs, id: nat)
    requires Inv(s) && id in s.cached && s.cached[id].refs == 1 && s.cached[id].node in s.inodes
             && s.inodes[s.cached[id].node].links == 0
    ensures Inv(s.(cached := s.cached - {id}, inodes := s.inodes - {s.cached[id].node}))
  {
    hide Names, Ids;
    Idle(s, id);
    var a := s.cached[id].node;
    var c := s.(cached := s.cached - {id});
    forall x | x in c.cached ensures Backed(c, x) { assert Backed(s, x); }
    forall x ensures Held(c, x) > 0 ==> x in c.cached { assert Held(s, x) > 0 ==> x in s.cached; }
    forall x | x in c.inodes && x != c.root ensures Counted(c, x) { assert Counted(s, x); }
    forall x | x in c.inodes && x != a ensures Reachable(c, x) { assert Reachable(s, x); SameId(s.inodes, x, a); }
    forall x | x in c.inodes ensures Entered(c, x) { assert Entered(s, x); }
    assert Held(s, s.inodes[s.root].id) >= 1 && Reachable(s, a);
    CutFree(c, a);
  }

  /** Letting go: the node stays cached while others hold it, and goes for good only when no entry names it. */
  lemma ReleaseKeeps(s: Fs, id: nat)
    requires Inv(s) && id in s.cached && Held(s, id) >= (if id == s.inodes[s.root].id then 2 else 1)
    ensures s.cached[id].refs >= 1 && s.cached[id].node in s.inodes && Inv(Release(s, id))
  {
    hide Inv;
    LetGoKeeps(s, id);
    var g := LetGo(s, id);
    LetGoNode(s, id);
    if g.cached[id].refs == 1 {
      assert g.cached - {id} == s.cached - {id};
      if s.inodes[s.cached[id].node].links > 0 { EvictKeeps(g, id); } else { EvictFreeKeeps(g, id); }
    }
  }

  lemma LetGoNode(s: Fs, id: nat)
    requires Inv(s) && id in s.cached
    ensures s.cached[id].node in s.inodes
  {
    assert Backed(s, id);
  }

  /** A new node, not yet in any directory: it is lost unless an entry follows. */
  lemma MadeKeeps(s: Fs, dir: bool, a: nat)
    requires Inv(s) && a !in s.inodes
    ensures Inv(s.(inodes := s.inodes[a := Inode(s.nextId, dir, 1, map[])], nextId := s.nextId + 1,
                lost := s.lost + {a}))
  {
    hide Names, Ids, Entered, Reachable;
    var r := s.(inodes := s.inodes[a := Inode(s.nextId, dir, 1, map[])], nextId := s.nextId + 1, lost := s.lost + {a});
    forall x | x in r.cached ensures Backed(r, x) { assert Backed(s, x); }
    forall x ensures Held(r, x) > 0 ==> x in r.cached { assert Held(s, x) > 0 ==> x in s.cached; }
    forall x | x in r.inodes
      ensures Entered(r, x) && Reachable(r, x) && (x in s.inodes ==> s.inodes[x].id < s.nextId)
    {
      if x != a { assert Reachable(s, x) && Entered(s, x); }
      MadeNode(s, dir, a, x);
    }
    forall x {:trigger s.inodes[x]} | x in s.inodes ensures s.inodes[x].id != s.nextId { assert Entered(r, x); }
    IdsMade(s.inodes, a, Inode(s.nextId, dir, 1, map[]));
    NobodyNames(s, a);
    forall x | x in r.inodes && x != r.root ensures Counted(r, x) {
      NamesMade(s.inodes, r.inodes[a], a, x);
      if x != a { assert Counted(s, x); }
    }
    assert Held(s, s.inodes[s.root].id) >= 1;
  }

  lemma MadeNode(s: Fs, dir: bool, a: nat, x: nat)
    requires s.root in s.inodes && a !in s.inodes && (x in s.inodes || x == a)
    requires x in s.inodes ==> Entered(s, x) && Reachable(s, x)
    ensures var r := s.(inodes := s.inodes[a := Inode(s.nextId, dir, 1, map[])], nextId := s.nextId + 1,
                        lost := s.lost + {a});
            Entered(r, x) && Reachable(r, x) && (x in s.inodes ==> s.inodes[x].id < s.nextId)
  {}

  lemma NobodyNames(s: Fs, a: nat)
    requires Inv(s) && (a !in s.inodes || a in s.lost)
    ensures Names(s.inodes, a) == {}
  {
    forall d, n | d in s.inodes && n in s.inodes[d].entries ensures s.inodes[d].entries[n] != a {
      assert Entered(s, d);
    }
  }

  lemma NamesMade(inodes: map<nat, Inode>, made: Inode, a: nat, x: nat)
    requires a !in inodes && made.entries == map[]
    ensures Names(inodes[a := made], x) == Names(inodes, x)
  {
    var r := inodes[a := made];
    forall e, n ensures (e, n) in Names(r, x) <==> (e, n) in Names(inodes, x) {}
  }

  /** A lost node finds its place: one entry, and no longer lost. */
  function Enter(s: Fs, d: nat, name: string, a: nat): Fs
    requires d in s.inodes
  {
    s.(inodes := AddEntry(s.inodes, d, name, a), lost := s.lost - {a})
  }

  lemma EnterNode(s: Fs, d: nat, name: string, a: nat, x: nat)
    requires d in s.inodes && s.inodes[d].dir && a in s.inodes && a in s.lost && a !in {s.root, d} && x in s.inodes
    requires name !in s.inodes[d].entries && |s.inodes[d].entries| < MAX_CHILDREN && Entered(s, x) && Reachable(s, x)
    ensures var r := Enter(s, d, name, a); Entered(r, x) && Reachable(r, x)
  {}

  lemma EnterKeeps(s: Fs, d: nat, name: string, a: nat)
    requires Inv(s) && d in s.inodes && s.inodes[d].dir && a in s.lost && a != d
    requires name !in s.inodes[d].entries && |s.inodes[d].entries| < MAX_CHILDREN
    ensures Inv(Enter(s, d, name, a))
  {
    hide Names, Ids, Entered, Reachable;
    IdsSub(s.inodes, AddEntry(s.inodes, d, name, a));
    var r := Enter(s, d, name, a);
    NobodyNames(s, a);
    forall x | x in r.cached ensures Backed(r, x) { assert Backed(s, x); }
    forall x ensures Held(r, x) > 0 ==> x in r.cached { assert Held(s, x) > 0 ==> x in s.cached; }
    forall x | x in r.inodes && x != r.root ensures Counted(r, x) {
      NamesAdd(s.inodes, d, name, a, x); assert Counted(s, x);
    }
    forall x | x in r.inodes ensures Entered(r, x) && Reachable(r, x) {
      assert Entered(s, x) && Reachable(s, x);
      EnterNode(s, d, name, a, x);
    }
    assert Held(s, s.inodes[s.root].id) >= 1;
  }

  lemma CreateKeeps(s: Fs, d: nat, name: string, dir: bool, a: nat)
    requires Inv(s) && d in s.inodes && s.inodes[d].dir && d !in s.lost && a !in s.inodes
    ensures name in s.inodes[d].entries ==> s.inodes[d].entries[name] in s.inodes
    ensures Inv(Create(s, d, name, dir, a))
  {
    hide Inv, Cache;
    EntryOf(s, d, name);
    if name in s.inodes[d].entries {
      CacheKeeps(s, s.inodes[d].entries[name]);
    } else {
      MadeKeeps(s, dir, a);
      var m := s.(inodes := s.inodes[a := Inode(s.nextId, dir, 1, map[])], nextId := s.nextId + 1,
          lost := s.lost + {a});
      if |s.inodes[d].entries| < MAX_CHILDREN {
        EnterKeeps(m, d, name, a);
        var e := Enter(m, d, name, a);
        LostOnly(s, a);
        assert e.lost == s.lost;
        CacheKeeps(e, a);
      }
    }
  }

  /** A create leaves a node behind, with a link count of one and no name, exactly if the name is new
      and the directory is full. */
  lemma LosesNodeExactly(s: Fs, d: nat, name: string, dir: bool, a: nat)
    requires Inv(s) && d in s.inodes && s.inodes[d].dir && d !in s.lost && a !in s.inodes
    ensures name in s.inodes[d].entries ==> s.inodes[d].entries[name] in s.inodes
    ensures var r := Create(s, d, name, dir, a);
            && (r.lost != s.lost <==> name !in s.inodes[d].entries && |s.inodes[d].entries| >= MAX_CHILDREN)
            && (r.lost != s.lost ==>
                   a in r.inodes && r.inodes[a].links == 1 && Names(r.inodes, a) == {} && r.inodes[a].id !in r.cached)
  {
    hide Names, Ids;
    CreateKeeps(s, d, name, dir, a);
    LostOnly(s, a);
    var r := Create(s, d, name, dir, a);
    if r.lost != s.lost {
      NobodyNames(r, a);
      forall id | id in s.cached ensures id != s.nextId {
        assert Backed(s, id); assert Reachable(s, s.cached[id].node);
      }
    }
  }

  lemma LostOnly(s: Fs, a: nat)
    requires Inv(s) && a !in s.inodes
    ensures a !in s.lost && s.lost + {a} - {a} == s.lost
  {}

  lemma EntryOf(s: Fs, d: nat, name: string)
    requires Inv(s) && d in s.inodes
    ensures name in s.inodes[d].entries ==> var a := s.inodes[d].entries[name];
            a in s.inodes && a !in {s.root, d} && a !in s.lost && s.inodes[a].links > 0
  {
    assert Entered(s, d);
    if name in s.inodes[d].entries {
      var a := s.inodes[d].entries[name];
      assert Counted(s, a);
      assert (d, name) in Names(s.inodes, a);
    }
  }

  lemma LinkedCount(s: Fs, d: nat, name: string, a: nat, x: nat)
    requires d in s.inodes && s.inodes[d].dir && a in s.inodes && !s.inodes[a].dir && x in s.inodes && Counted(s, x)
    requires name !in s.inodes[d].entries
    ensures Counted(Linked(s, d, name, a), x)
  {
    hide Names;
    NamesAdd(s.inodes, d, name, a, x);
    NamesSame(AddEntry(s.inodes, d, name, a), Linked(s, d, name, a).inodes, x);
  }

  lemma LinkedNode(s: Fs, d: nat, name: string, a: nat, x: nat)
    requires d in s.inodes && s.inodes[d].dir && a in s.inodes && !s.inodes[a].dir && a !in s.lost && a != s.root
             && x in s.inodes
    requires name !in s.inodes[d].entries && |s.inodes[d].entries| < MAX_CHILDREN && Entered(s, x) && Reachable(s, x)
    ensures var r := Linked(s, d, name, a); Entered(r, x) && Reachable(r, x)
  {}

  lemma LinkKeeps(s: Fs, d: nat, name: string, a: nat)
    requires Inv(s) && d in s.inodes && s.inodes[d].dir && a in s.inodes && !s.inodes[a].dir && a !in s.lost
    ensures Inv(Link(s, d, name, a))
  {
    hide Names, Ids, Entered, Reachable, Counted;
    if name !in s.inodes[d].entries && |s.inodes[d].entries| < MAX_CHILDREN {
      var r := Linked(s, d, name, a);
      IdsSub(s.inodes, r.inodes);
      forall x | x in r.cached ensures Backed(r, x) { assert Backed(s, x); }
      forall x ensures Held(r, x) > 0 ==> x in r.cached { assert Held(s, x) > 0 ==> x in s.cached; }
      forall x | x in r.inodes ensures Entered(r, x) && Reachable(r, x) {
        assert Entered(s, x) && Reachable(s, x);
        LinkedNode(s, d, name, a, x);
      }
      forall x | x in r.inodes && x != r.root ensures Counted(r, x) {
        assert Counted(s, x); LinkedCount(s, d, name, a, x);
      }
      assert Held(s, s.inodes[s.root].id) >= 1;
    }
  }

  // ---------------------------------------------------------------- unlink

  lemma CutNode(s: Fs, d: nat, name: string, x: nat)
    requires Inv(s) && d in s.inodes && name in s.inodes[d].entries && x in s.inodes
    ensures var a := s.inodes[d].entries[name]; a in s.inodes && s.inodes[a].links > 0 && (!s.inodes[a].dir ==>
              var r := Cut(s, d, name);
              && Entered(r, x) && (x != s.root ==> Counted(r, x)) && (x != a ==> Reachable(r, x))
              && (x == a && (r.inodes[a].links > 0 || s.inodes[a].id in s.cached) ==> Reachable(r, x)))
  {
    hide Names, Ids;
    EntryOf(s, d, name);
    var a := s.inodes[d].entries[name];
    assert Entered(s, x) && Reachable(s, x) && (x != s.root ==> Counted(s, x)) && Entered(s, d);
    if !s.inodes[a].dir {
      var r := Cut(s, d, name);
      NamesCut(s.inodes, d, name, x);
      NamesSame(s.inodes[d := s.inodes[d].(entries := s.inodes[d].entries - {name})], r.inodes, x);
    }
  }

  /** A last name that goes away takes an uncached file with it. */
  lemma UnlinkKeeps(s: Fs, d: nat, name: string)
    requires Inv(s) && d in s.inodes
    ensures name in s.inodes[d].entries ==>
              s.inodes[d].entries[name] in s.inodes && s.inodes[s.inodes[d].entries[name]].links > 0
    ensures Inv(Unlink(s, d, name))
  {
    hide Names, Ids, Entered, Reachable, Counted;
    EntryOf(s, d, name);
    if name in s.inodes[d].entries && !s.inodes[s.inodes[d].entries[name]].dir {
      var a := s.inodes[d].entries[name];
      var c := Cut(s, d, name);
      IdsSub(s.inodes, c.inodes);
      forall x | x in c.cached ensures Backed(c, x) { assert Backed(s, x); }
      forall x ensures Held(c, x) > 0 ==> x in c.cached { assert Held(s, x) > 0 ==> x in s.cached; }
      forall x | x in c.inodes ensures Entered(c, x) && (x != c.root ==> Counted(c, x)) && (x != a ==> Reachable(c, x))
      {
        CutNode(s, d, name, x);
      }
      CutNode(s, d, name, a);
      assert Held(s, s.inodes[s.root].id) >= 1;
      if c.inodes[a].links == 0 && s.inodes[a].id !in s.cached { CutFree(c, a); }
    }
  }

  lemma NamedNowhere(c: Fs, a: nat)
    requires InvBut(c, a) && a in c.inodes && a != c.root && !c.inodes[a].dir && c.inodes[a].links == 0
    ensures c.inodes[a].entries == map[] && a !in c.lost
    ensures forall d, n {:trigger c.inodes[d].entries[n]} :: d in c.inodes && n in c.inodes[d].entries ==>
              c.inodes[d].entries[n] != a
  {
    hide Names, Ids;
    assert Counted(c, a) && Entered(c, a);
    NoNameLeft(c, a);
  }

  /** Freeing a file that nothing names and nothing caches. */
  lemma CutFree(c: Fs, a: nat)
    requires InvBut(c, a) && a in c.inodes && a != c.root && !c.inodes[a].dir && c.inodes[a].links == 0
             && c.inodes[a].id !in c.cached
    ensures Inv(c.(inodes := c.inodes - {a}))
  {
    hide Ids, Names, Entered, Reachable;
    var r := c.(inodes := c.inodes - {a});
    NamedNowhere(c, a);
    IdsSub(c.inodes, r.inodes);
    forall x | x in r.cached ensures Backed(r, x) { assert Backed(c, x); }
    forall x ensures Held(r, x) > 0 ==> x in r.cached { assert Held(c, x) > 0 ==> x in c.cached; }
    forall x | x in r.inodes ensures Entered(r, x) && Reachable(r, x) {
      assert Entered(c, x) && Reachable(c, x);
      WithoutNode(c, a, x);
    }
    forall x | x in r.inodes && x != r.root ensures Counted(r, x) {
      NamesSame(c.inodes, r.inodes, x); assert Counted(c, x);
    }
    assert Held(c, c.inodes[c.root].id) >= 1;
  }

  lemma WithoutNode(c: Fs, a: nat, x: nat)
    requires x in c.inodes && x != a && Entered(c, x) && Reachable(c, x)
    requires forall n {:trigger c.inodes[x].entries[n]} :: n in c.inodes[x].entries ==> c.inodes[x].entries[n] != a
    ensures var r := c.(inodes := c.inodes - {a}); Entered(r, x) && Reachable(r, x)
  {}

  lemma NoNameLeft(s: Fs, a: nat)
    requires |Names(s.inodes, a)| == 0
    ensures forall d, n {:trigger s.inodes[d].entries[n]} :: d in s.inodes && n in s.inodes[d].entries ==>
              s.inodes[d].entries[n] != a
  {
    forall d, n | d in s.inodes && n in s.inodes[d].entries ensures s.inodes[d].entries[n] != a {
      assert (d, n) !in Names(s.inodes, a);
    }
  }

  // ---------------------------------------------------------------- runs

  /** What the VFS does with ramfs nodes; directories are named by their VFS node, which its caller holds. */
  datatype Event = Locks(id: nat) | Releases(id: nat) | Looks(dir: nat, name: string)
                 | Creates(dir: nat, name: string, isDir: bool, at: nat) | Links(dir: nat, name: string, target: nat)
                   | Unlinks(dir: nat, name: string)

  /** `id` is held and stands for a directory. */
  ghost predicate HeldDir(s: Fs, id: nat) {
    id in s.cached && Held(s, id) >= 1 && s.cached[id].node in s.inodes && s.inodes[s.cached[id].node].dir
  }

  /** The root's own reference is never given back; only held files are linked. */
  ghost predicate Enabled(s: Fs, e: Event) {
    match e
    case Locks(id) => id in s.cached
    case Releases(id) => id in s.cached && s.root in s.inodes && Held(s, id) >= if id == s.inodes[s.root].id then 2
      else 1
    case Looks(d, _) => HeldDir(s, d)
    case Creates(d, _, _, at) => HeldDir(s, d) && at !in s.inodes
    case Links(d, _, t) => HeldDir(s, d) && t in s.cached && Held(s, t) >= 1 && s.cached[t].node in s.inodes
      && !s.inodes[s.cached[t].node].dir
    case Unlinks(d, _) => HeldDir(s, d)
  }

  lemma Ready(s: Fs, e: Event)
    requires Inv(s) && Enabled(s, e)
    ensures e.Releases? ==> s.cached[e.id].refs >= 1 && s.cached[e.id].node in s.inodes
    ensures e.Looks? || e.Creates? || e.Links? || e.Unlinks? ==>
              var d := s.cached[e.dir].node;
              d !in s.lost && (e.name in s.inodes[d].entries ==>
                var a := s.inodes[d].entries[e.name]; a in s.inodes && a !in s.lost && s.inodes[a].links > 0)
    ensures e.Links? ==> s.cached[e.target].node !in s.lost
  {
    match e
    case Releases(id) => assert Backed(s, id);
    case Links(d, n, t) => assert Backed(s, d) && Backed(s, t); EntryOf(s, s.cached[d].node, n);
    case Looks(d, n) => assert Backed(s, d); EntryOf(s, s.cached[d].node, n);
    case Creates(d, n, _, _) => assert Backed(s, d); EntryOf(s, s.cached[d].node, n);
    case Unlinks(d, n) => assert Backed(s, d); EntryOf(s, s.cached[d].node, n);
    case Locks(_) =>
  }

  ghost function Step(s: Fs, e: Event): (r: Fs)
    requires Inv(s) && Enabled(s, e)
    ensures Inv(r)
  {
    hide Inv;
    Ready(s, e);
    match e
    case Locks(id) => LockKeeps(s, id); Lock(s, id)
    case Releases(id) => ReleaseKeeps(s, id); Release(s, id)
    case Looks(d, n) =>
      var entries := s.inodes[s.cached[d].node].entries;
      if n in entries then CacheKeeps(s, entries[n]); Cache(s, entries[n]) else s
    case Creates(d, n, isDir, at) => CreateKeeps(s, s.cached[d].node, n, isDir, at);
      Create(s, s.cached[d].node, n, isDir, at)
    case Links(d, n, t) => LinkKeeps(s, s.cached[d].node, n, s.cached[t].node);
      Link(s, s.cached[d].node, n, s.cached[t].node)
    case Unlinks(d, n) => UnlinkKeeps(s, s.cached[d].node, n); Unlink(s, s.cached[d].node, n)
  }

  ghost predicate Possible(s: Fs, es: seq<Event>)
    requires Inv(s)
    decreases |es|
  {
    es == [] || (Enabled(s, es[0]) && Possible(Step(s, es[0]), es[1..]))
  }

  ghost function After(s: Fs, es: seq<Event>): (r: Fs)
    requires Inv(s) && Possible(s, es)
    ensures Inv(r)
    decreases |es|
  {
    if es == [] then s else After(Step(s, es[0]), es[1..])
  }

  /** In every run: no entry and no cached node points to a node that is gone; a node that was not
      left behind by a failed create exists exactly as long as an entry names it or it is cached; its
      link count is the number of its names; and a cached node has one reference more than it has holders. */
  lemma DeletionIsDeferred(s: Fs, es: seq<Event>)
    requires Inv(s) && Possible(s, es)
    ensures var r := After(s, es);
            && (forall d, n {:trigger r.inodes[d].entries[n]} :: d in r.inodes && n in r.inodes[d].entries ==>
                   r.inodes[d].entries[n] in r.inodes)
            && (forall id {:trigger r.cached[id]} :: id in r.cached ==>
                  r.cached[id].node in r.inodes && r.inodes[r.cached[id].node].id == id
                    && r.cached[id].refs == 1 + Held(r, id))
            && (forall a {:trigger r.inodes[a]} :: a in r.inodes && a != r.root && a !in r.lost ==>
                  && r.inodes[a].links == |Names(r.inodes, a)|
                  && (Names(r.inodes, a) != {} || r.inodes[a].id in r.cached))
  {
    hide Names;
    var r := After(s, es);
    forall d, n | d in r.inodes && n in r.inodes[d].entries ensures r.inodes[d].entries[n] in r.inodes {
      assert Entered(r, d);
    }
    forall id | id in r.cached
      ensures r.cached[id].node in r.inodes && r.inodes[r.cached[id].node].id == id
              && r.cached[id].refs == 1 + Held(r, id) {
      assert Backed(r, id);
    }
    forall a | a in r.inodes && a != r.root && a !in r.lost
      ensures r.inodes[a].links == |Names(r.inodes, a)| && (Names(r.inodes, a) != {} || r.inodes[a].id in r.cached)
    {
      assert Counted(r, a) && Reachable(r, a);
    }
  }

  // ---------------------------------------------------------------- a run that loses a node

  lemma {:induction false} RunAppend(s: Fs, es: seq<Event>, e: Event)
    requires Inv(s) && Possible(s, es) && Enabled(After(s, es), e)
    ensures Possible(s, es + [e]) && After(s, es + [e]) == Step(After(s, es), e)
    decreases |es|
  {
    hide Inv, Enabled, Step;
    var all := es + [e];
    if es == [] {
      assert all[0] == e && all[1..] == [];
    } else {
      assert all[0] == es[0] && all[1..] == es[1..] + [e];
      RunAppend(Step(s, es[0]), es[1..], e);
    }
  }

  function Name(k: nat): (n: string)
    ensures |n| == k
  {
    seq(k, _ => 'a')
  }

  /** `k` files in the root, their names all shorter than `k`, and no node at or above `root + k + 1`. */
  ghost predicate FilledTo(s: Fs, root: nat, k: nat) {
    && s.root == root && root in s.inodes && s.inodes[root].dir && |s.inodes[root].entries| == k && s.lost == {}
    && 0 in s.cached && s.cached[0].node == root && Held(s, 0) >= 1 && 0 < s.nextId
    && (forall n {:trigger n in s.inodes[root].entries} :: n in s.inodes[root].entries ==> |n| < k)
    && (forall a {:trigger a in s.inodes} :: a in s.inodes ==> a <= root + k)
  }

  lemma FillOne(s: Fs, root: nat, k: nat)
    requires Inv(s) && FilledTo(s, root, k) && k < MAX_CHILDREN
    ensures Enabled(s, Creates(0, Name(k), false, root + k + 1))
    ensures FilledTo(Step(s, Creates(0, Name(k), false, root + k + 1)), root, k + 1)
  {
    hide Inv;
    var n := Name(k);
    assert n !in s.inodes[root].entries;
    var was := s.inodes[root].entries;
    assert was[n := root + k + 1].Keys == was.Keys + {n};
    assert |was[n := root + k + 1]| == |was.Keys + {n}| == k + 1;
  }

  lemma {:induction false} Fills(root: nat, k: nat) returns (es: seq<Event>)
    requires k <= MAX_CHILDREN && Inv(Bare(root))
    ensures Possible(Bare(root), es) && FilledTo(After(Bare(root), es), root, k)
  {
    hide Inv, Enabled, Step;
    es := [];
    if k > 0 {
      es := Fills(root, k - 1);
      FillOne(After(Bare(root), es), root, k - 1);
      RunAppend(Bare(root), es, Creates(0, Name(k - 1), false, root + k));
      es := es + [Creates(0, Name(k - 1), false, root + k)];
    }
  }

  /** From a bare root, 64 creates and one more: the last one loses its node. */
  lemma CanLoseNode(root: nat) returns (es: seq<Event>)
    ensures Inv(Bare(root)) && Possible(Bare(root), es) && After(Bare(root), es).lost != {}
  {
    hide Inv, Enabled, Step;
    BareInv(root);
    es := Fills(root, MAX_CHILDREN);
    var s := After(Bare(root), es);
    var e := Creates(0, Name(MAX_CHILDREN), false, root + MAX_CHILDREN + 1);
    OneTooMany(s, root);
    RunAppend(Bare(root), es, e);
    es := es + [e];
  }

  lemma OneTooMany(s: Fs, root: nat)
    requires Inv(s) && FilledTo(s, root, MAX_CHILDREN)
    ensures var e := Creates(0, Name(MAX_CHILDREN), false, root + MAX_CHILDREN + 1);
            Enabled(s, e) && Step(s, e).lost != {}
  {
    hide Inv;
    var n := Name(MAX_CHILDREN);
    var a := root + MAX_CHILDREN + 1;
    assert n !in s.inodes[root].entries && a !in s.inodes;
    assert a in s.lost + {a};
  }
}
