/** Walking paths through the cache, and creating at a path. */
module FsPaths {
  import opened Options
  import opened FsModel

  /** The node that the names lead to, straight through the directory tree. */
  function WalkTo(inodes: map<nat, Inode>, a: nat, names: seq<string>): Option<nat>
    decreases |names|
  {
    if names == [] then Some(a)
    else if a in inodes && names[0] in inodes[a].entries then WalkTo(inodes, inodes[a].entries[names[0]], names[1..])
    else None
  }

  /** The last node on the way that exists. */
  function Deepest(inodes: map<nat, Inode>, a: nat, names: seq<string>): nat
    decreases |names|
  {
    if names != [] && a in inodes
      && names[0] in inodes[a].entries then Deepest(inodes, inodes[a].entries[names[0]], names[1..]) else a
  }

  /** A held node may be given back; the root keeps one reference for good. */
  ghost predicate Holds(s: Fs, id: nat)
    requires s.root in s.inodes
  {
    id in s.cached && Held(s, id) >= if id == s.inodes[s.root].id then 2 else 1
  }

  /** One turn of the loop in `vfs_resolve`: look up, lock the child, let go of the directory. */
  ghost function Descend(s: Fs, id: nat, name: string): (r: Fs)
    requires Inv(s) && Holds(s, id) && s.cached[id].node in s.inodes && name in s.inodes[s.cached[id].node].entries
    ensures Inv(r)
  {
    hide Inv;
    var d := s.cached[id].node;
    DescendReady(s, id, name);
    var a := s.inodes[d].entries[name];
    CacheKeeps(s, a);
    var s1 := Cache(s, a);
    LockKeeps(s1, s.inodes[a].id);
    var s2 := Lock(s1, s.inodes[a].id);
    ReleaseKeeps(s2, id);
    Release(s2, id)
  }

  lemma DescendReady(s: Fs, id: nat, name: string)
    requires Inv(s) && id in s.cached && s.cached[id].node in s.inodes && name in s.inodes[s.cached[id].node].entries
    ensures var d := s.cached[id].node; var a := s.inodes[d].entries[name];
            && a in s.inodes && a !in s.lost && s.inodes[d].id == id && (d == s.root || s.inodes[d].links > 0)
               && a != s.root
  {
    var d := s.cached[id].node;
    EntryOf(s, d, name);
    assert Backed(s, id) && Entered(s, d) && Reachable(s, d);
  }

  /** Holds move from `id` to `to`. */
  ghost predicate Moved(s: Fs, r: Fs, id: nat, to: nat) {
    forall x {:trigger Held(r, x)} :: Held(r, x) == Held(s, x) - (if x == id then 1 else 0) + (if x == to then 1 else 0)
  }

  lemma DescendOk(s: Fs, id: nat, name: string)
    requires Inv(s) && Holds(s, id) && s.cached[id].node in s.inodes && name in s.inodes[s.cached[id].node].entries
    ensures var r := Descend(s, id, name); var a := s.inodes[s.cached[id].node].entries[name];
            && a in s.inodes && r == s.(cached := r.cached, held := r.held)
            && Holds(r, s.inodes[a].id) && r.cached[s.inodes[a].id].node == a && Moved(s, r, id, s.inodes[a].id)
  {
    hide Inv;
    DescendReady(s, id, name);
    var a := s.inodes[s.cached[id].node].entries[name];
    CacheKeeps(s, a);
    DescendNode(s, id, a, name);
  }

  lemma DescendNode(s: Fs, id: nat, a: nat, name: string)
    requires Inv(s) && Holds(s, id) && s.cached[id].node in s.inodes && name in s.inodes[s.cached[id].node].entries
    requires a == s.inodes[s.cached[id].node].entries[name] && a in s.inodes && a !in s.lost && a != s.root
    requires var d := s.cached[id].node; s.inodes[d].id == id && (d == s.root || s.inodes[d].links > 0)
    requires Cache(s, a).cached[s.inodes[a].id].node == a
    ensures var r := Descend(s, id, name);
            && r == s.(cached := r.cached, held := r.held)
            && Holds(r, s.inodes[a].id) && r.cached[s.inodes[a].id].node == a && Moved(s, r, id, s.inodes[a].id)
  {
    var d, ida := s.cached[id].node, s.inodes[a].id;
    SameId(s.inodes, a, s.root);
    var s1 := Cache(s, a);
    var s2 := Lock(s1, ida);
    assert Backed(s, id);
    if id == ida { SameId(s.inodes, d, a); }
    assert Held(s, s.inodes[s.root].id) >= 1;
    assert d == s.root ==> s2.cached[id].refs >= 3;
  }

  /** The loop of `vfs_resolve` from a held node on. On failure the last node reached stays held. */
  ghost function ResolveFrom(s: Fs, id: nat, names: seq<string>): (r: (Fs, Option<nat>))
    requires Inv(s) && Holds(s, id) && s.cached[id].node in s.inodes
    ensures Inv(r.0)
    decreases |names|
  {
    if names == [] then (s, Some(id))
    else if names[0] !in s.inodes[s.cached[id].node].entries then (s, None)
    else
      DescendOk(s, id, names[0]);
      var a := s.inodes[s.cached[id].node].entries[names[0]];
      ResolveFrom(Descend(s, id, names[0]), s.inodes[a].id, names[1..])
  }

  /** The cached way and the straight way through the tree reach the same node; the tree is not
      changed; and the only reference that is left is on the node found, or, if there is none, on the
      last directory reached. */
  lemma {:induction false} ResolveFromOk(s: Fs, id: nat, names: seq<string>)
    requires Inv(s) && Holds(s, id) && s.cached[id].node in s.inodes
    ensures var (r, t) := ResolveFrom(s, id, names); var a := s.cached[id].node; var e := Deepest(s.inodes, a, names);
            && r == s.(cached := r.cached, held := r.held)
            && e in s.inodes && s.inodes[e].id in r.cached && r.cached[s.inodes[e].id].node == e
               && Moved(s, r, id, s.inodes[e].id)
            && Holds(r, s.inodes[e].id)
            && t == (if WalkTo(s.inodes, a, names).Some? then Some(s.inodes[e].id) else None)
            && (WalkTo(s.inodes, a, names).Some? ==> WalkTo(s.inodes, a, names) == Some(e))
    decreases |names|
  {
    hide Inv, Descend;
    IdOf(s, id);
    if names != [] && names[0] in s.inodes[s.cached[id].node].entries {
      DescendOk(s, id, names[0]);
      var a := s.inodes[s.cached[id].node].entries[names[0]];
      var s' := Descend(s, id, names[0]);
      ResolveFromOk(s', s.inodes[a].id, names[1..]);
      MovedTwice(s, s', ResolveFrom(s', s.inodes[a].id, names[1..]).0, id, s.inodes[a].id,
          s.inodes[Deepest(s.inodes, a, names[1..])].id);
    }
  }

  lemma IdOf(s: Fs, id: nat)
    requires Inv(s) && id in s.cached
    ensures s.cached[id].node in s.inodes && s.inodes[s.cached[id].node].id == id
  {
    assert Backed(s, id);
  }

  lemma MovedTwice(s: Fs, r: Fs, q: Fs, a: nat, b: nat, c: nat)
    requires Moved(s, r, a, b) && Moved(r, q, b, c)
    ensures Moved(s, q, a, c)
  {
    forall x ensures Held(q, x) == Held(s, x) - (if x == a then 1 else 0) + (if x == c then 1 else 0) {
      assert Held(r, x) == Held(s, x) - (if x == a then 1 else 0) + (if x == b then 1 else 0);
    }
  }

  /** `vfs_resolve`. */
  ghost function Resolve(s: Fs, names: seq<string>): (r: (Fs, Option<nat>))
    requires Inv(s)
    ensures Inv(r.0)
  {
    hide Inv;
    LockedRoot(s);
    ResolveFrom(Lock(s, s.inodes[s.root].id), s.inodes[s.root].id, names)
  }

  lemma LockedRoot(s: Fs)
    requires Inv(s)
    ensures s.root in s.inodes && s.inodes[s.root].id in s.cached
    ensures var id := s.inodes[s.root].id; var r := Lock(s, id);
            Inv(r) && Holds(r, id) && r.cached[id].node == s.root
              && forall x {:trigger Held(r, x)} :: Held(r, x) == Held(s, x) + if x == id then 1 else 0
  {
    var id := s.inodes[s.root].id;
    LockKeeps(s, id);
    assert Backed(s, id);
    SameId(s.inodes, s.cached[id].node, s.root);
    assert Held(s, id) >= 1;
  }

  /** One more hold on the node that was reached, and nothing else changes but the cache. */
  lemma ResolveOk(s: Fs, names: seq<string>)
    requires Inv(s)
    ensures var (r, t) := Resolve(s, names); var e := Deepest(s.inodes, s.root, names);
            var w := WalkTo(s.inodes, s.root, names);
            && r == s.(cached := r.cached, held := r.held)
            && e in s.inodes && s.inodes[e].id in r.cached && r.cached[s.inodes[e].id].node == e
               && Holds(r, s.inodes[e].id)
            && (forall x {:trigger Held(r, x)} :: Held(r, x) == Held(s, x) + if x == s.inodes[e].id then 1 else 0)
            && (w == None ==> t == None) && (w.Some? ==> w == Some(e) && t == Some(s.inodes[e].id))
  {
    hide Inv;
    LockedRoot(s);
    var id := s.inodes[s.root].id;
    var l := Lock(s, id);
    ResolveFromOk(l, id, names);
    var r := Resolve(s, names).0;
    var e := Deepest(s.inodes, s.root, names);
    forall x ensures Held(r, x) == Held(s, x) + if x == s.inodes[e].id then 1 else 0 {
      assert Held(l, x) == Held(s, x) + if x == id then 1 else 0;
    }
  }

  // ---------------------------------------------------------------- create, then resolve

  lemma {:induction false} WalkSplit(inodes: map<nat, Inode>, a: nat, names: seq<string>, name: string)
    ensures WalkTo(inodes, a, names + [name]) ==
            match WalkTo(inodes, a, names)
            case None => None
            case Some(d) => if d in inodes && name in inodes[d].entries then Some(inodes[d].entries[name]) else None
    decreases |names|
  {
    var all := names + [name];
    if names == [] {
      assert all == [name] && all[1..] == [];
    } else {
      assert all[0] == names[0] && all[1..] == names[1..] + [name];
      if a in inodes && names[0] in inodes[a].entries {
        WalkSplit(inodes, inodes[a].entries[names[0]], names[1..], name);
      }
    }
  }

  /** Every entry is still there. */
  ghost predicate Grows(inodes: map<nat, Inode>, r: map<nat, Inode>) {
    forall d, n {:trigger n in inodes[d].entries} :: d in inodes && n in inodes[d].entries ==>
      d in r && n in r[d].entries && r[d].entries[n] == inodes[d].entries[n]
  }

  /** Adding entries does not redirect a walk that succeeds. */
  lemma {:induction false} WalkStable(inodes: map<nat, Inode>, r: map<nat, Inode>, a: nat, names: seq<string>)
    requires WalkTo(inodes, a, names).Some? && Grows(inodes, r)
    ensures WalkTo(r, a, names) == WalkTo(inodes, a, names)
    decreases |names|
  {
    if names != [] {
      assert inodes[a].entries[names[0]] == r[a].entries[names[0]];
      WalkStable(inodes, r, inodes[a].entries[names[0]], names[1..]);
    }
  }

  /** `vfs_create` of `name` in the directory that `names` lead to; `at` is the address of a new node. */
  ghost function CreateAt(s: Fs, names: seq<string>, name: string, dir: bool, at: nat): (r: (Fs, Option<nat>))
    requires Inv(s) && at !in s.inodes
    ensures Inv(r.0)
  {
    hide Inv, Create;
    ResolveOk(s, names);
    var (s1, p) := Resolve(s, names);
    if p == None then (s1, None)
    else
      var d := s1.cached[p.value].node;
      if !s1.inodes[d].dir then ReleaseKeeps(s1, p.value); (Release(s1, p.value), None)
      else
        IdOf(s1, p.value);
        NotLost(s1, p.value);
        CreateKeeps(s1, d, name, dir, at);
        var s2 := Create(s1, d, name, dir, at);
        CreateFacts(s1, p.value, name, dir, at);
        ReleaseKeeps(s2, p.value);
        var s3 := Release(s2, p.value);
        if name !in s1.inodes[d].entries && |s1.inodes[d].entries| >= MAX_CHILDREN then (s3, None)
        else
          var child := s2.inodes[s2.inodes[d].entries[name]].id;
          ReleaseOther(s2, p.value, d, name);
          LockKeeps(s3, child);
          (Lock(s3, child), Some(child))
  }

  lemma NotLost(s: Fs, id: nat)
    requires Inv(s) && id in s.cached
    ensures s.cached[id].node !in s.lost
  {
    assert Backed(s, id);
  }

  /** After a create that did not fail the name is there, everything that was there still is, and the
      directory is still held. */
  lemma CreateFacts(s: Fs, id: nat, name: string, dir: bool, at: nat)
    requires Inv(s) && Holds(s, id) && s.cached[id].node in s.inodes && s.inodes[s.cached[id].node].dir
             && at !in s.inodes
    ensures var d := s.cached[id].node; name in s.inodes[d].entries ==> s.inodes[d].entries[name] in s.inodes
    ensures var d := s.cached[id].node; var r := Create(s, d, name, dir, at);
            && r.root == s.root && r.root in r.inodes && r.inodes[r.root].id == s.inodes[s.root].id && Holds(r, id)
               && r.cached[id].node == d && d in r.inodes && r.inodes[d].dir
            && Grows(s.inodes, r.inodes)
            && (name in s.inodes[d].entries || |s.inodes[d].entries| < MAX_CHILDREN ==>
                  && name in r.inodes[d].entries && r.inodes[d].entries[name] in r.inodes
                  && r.inodes[r.inodes[d].entries[name]].id in r.cached
                     && r.cached[r.inodes[r.inodes[d].entries[name]].id].node == r.inodes[d].entries[name]
                  && (name !in s.inodes[d].entries ==> r.inodes[d].entries[name] == at))
  {
    hide Names, Ids, Counted, Reachable;
    var d := s.cached[id].node;
    EntryOf(s, d, name);
    if name in s.inodes[d].entries { CacheKeeps(s, s.inodes[d].entries[name]); }
    FreshId(s);
  }

  lemma FreshId(s: Fs)
    requires Inv(s)
    ensures s.nextId !in s.cached && s.root in s.inodes && s.inodes[s.root].id != s.nextId
  {
    forall id | id in s.cached ensures id < s.nextId {
      assert Backed(s, id);
      assert Reachable(s, s.cached[id].node);
    }
    assert Reachable(s, s.root);
  }

  /** Letting go of the directory leaves the tree and the child's VFS node alone. */
  lemma ReleaseOther(s: Fs, id: nat, d: nat, name: string)
    requires Inv(s) && Holds(s, id) && s.cached[id].node == d && d in s.inodes && s.inodes[d].dir
             && s.cached[id].refs >= 1
    requires name in s.inodes[d].entries && s.inodes[d].entries[name] in s.inodes
             && s.inodes[s.inodes[d].entries[name]].id in s.cached
    ensures var r := Release(s, id); var a := s.inodes[d].entries[name];
            r.inodes == s.inodes && r.root == s.root && s.inodes[a].id in r.cached
              && r.cached[s.inodes[a].id].node == s.cached[s.inodes[a].id].node
  {
    hide Names;
    var a := s.inodes[d].entries[name];
    EntryOf(s, d, name);
    assert Backed(s, id) && Reachable(s, d) && Entered(s, d);
    SameId(s.inodes, a, s.root);
    if s.inodes[a].id == id { SameId(s.inodes, a, d); }
    assert Held(s, s.inodes[s.root].id) >= 1;
  }

  /** What was created at a path is what the path resolves to afterwards. */
  lemma CreateThenResolve(s: Fs, names: seq<string>, name: string, dir: bool, at: nat)
    requires Inv(s) && at !in s.inodes && CreateAt(s, names, name, dir, at).1.Some?
    ensures var (r, child) := CreateAt(s, names, name, dir, at); Resolve(r, names + [name]).1 == child
  {
    hide Inv, Create, Release, Lock;
    ResolveOk(s, names);
    var (s1, p) := Resolve(s, names);
    var d := s1.cached[p.value].node;
    IdOf(s1, p.value);
    CreateFacts(s1, p.value, name, dir, at);
    NotLost(s1, p.value);
    CreateKeeps(s1, d, name, dir, at);
    var s2 := Create(s1, d, name, dir, at);
    ReleaseKeeps(s2, p.value);
    ReleaseOther(s2, p.value, d, name);
    var r := CreateAt(s, names, name, dir, at).0;
    LockTree(Release(s2, p.value), s2.inodes[s2.inodes[d].entries[name]].id);
    WalkStable(s.inodes, s2.inodes, s.root, names);
    WalkSplit(s2.inodes, s.root, names, name);
    ResolveOk(r, names + [name]);
  }

  lemma LockTree(s: Fs, id: nat)
    requires id in s.cached
    ensures Lock(s, id).inodes == s.inodes && Lock(s, id).root == s.root
  {}

  // ---------------------------------------------------------------- unlink, then resolve

  /** A walk to a directory does not pass through a file, so it survives the removal of one. */
  lemma {:induction false} WalkAvoids(s: Fs, r: map<nat, Inode>, x: nat, names: seq<string>, d: nat, a: nat)
    requires Inv(s) && WalkTo(s.inodes, x, names) == Some(d) && x in s.inodes && d in s.inodes && s.inodes[d].dir
    requires a in s.inodes && !s.inodes[a].dir
    requires forall e, n {:trigger n in s.inodes[e].entries} ::
               e in s.inodes && n in s.inodes[e].entries && s.inodes[e].entries[n] != a ==>
               e in r && n in r[e].entries && r[e].entries[n] == s.inodes[e].entries[n]
    ensures WalkTo(r, x, names) == Some(d)
    decreases |names|
  {
    hide Names;
    if names != [] {
      assert Entered(s, x) && Entered(s, a);
      var y := s.inodes[x].entries[names[0]];
      assert WalkTo(s.inodes, y, names[1..]) == Some(d);
      assert y != a;
      assert names[0] in s.inodes[x].entries;
      WalkAvoids(s, r, y, names[1..], d, a);
    }
  }

  /** `vfs_unlink` of `name` in the directory that `names` lead to. */
  ghost function UnlinkAt(s: Fs, names: seq<string>, name: string): (r: (Fs, bool))
    requires Inv(s)
    ensures Inv(r.0)
  {
    hide Inv, Unlink;
    ResolveOk(s, names);
    var (s1, p) := Resolve(s, names);
    if p == None then (s1, false)
    else
      var d := s1.cached[p.value].node;
      if !s1.inodes[d].dir then ReleaseKeeps(s1, p.value); (Release(s1, p.value), false)
      else
        EntryOf(s1, d, name);
        UnlinkKeeps(s1, d, name);
        UnlinkFacts(s1, p.value, name);
        var s2 := Unlink(s1, d, name);
        ReleaseKeeps(s2, p.value);
        (Release(s2, p.value), name in s1.inodes[d].entries && !s1.inodes[s1.inodes[d].entries[name]].dir)
  }

  /** An unlink touches one entry of one directory and the file behind it. */
  lemma UnlinkFacts(s: Fs, id: nat, name: string)
    requires Inv(s) && Holds(s, id) && s.cached[id].node in s.inodes && s.inodes[s.cached[id].node].dir
    ensures var d := s.cached[id].node;
            name in s.inodes[d].entries ==>
                s.inodes[d].entries[name] in s.inodes && s.inodes[s.inodes[d].entries[name]].links > 0
    ensures var d := s.cached[id].node; var r := Unlink(s, d, name);
            && r == s.(inodes := r.inodes) && r.root in r.inodes && r.inodes[r.root].id == s.inodes[s.root].id
               && Holds(r, id) && d in r.inodes && r.inodes[d].dir
            && (name in s.inodes[d].entries && !s.inodes[s.inodes[d].entries[name]].dir ==>
                  && r.inodes[d].entries == s.inodes[d].entries - {name}
                  && forall e, n {:trigger n in s.inodes[e].entries} ::
                       e in s.inodes && n in s.inodes[e].entries
                       && s.inodes[e].entries[n] != s.inodes[d].entries[name] ==>
                       e in r.inodes && n in r.inodes[e].entries && r.inodes[e].entries[n] == s.inodes[e].entries[n])
  {
    hide Names, Ids, Counted, Reachable;
    var d := s.cached[id].node;
    EntryOf(s, d, name);
    if name in s.inodes[d].entries { assert Entered(s, s.inodes[d].entries[name]); }
  }

  /** After an unlink the path leads nowhere. */
  lemma UnlinkThenResolve(s: Fs, names: seq<string>, name: string)
    requires Inv(s) && UnlinkAt(s, names, name).1
    ensures Resolve(UnlinkAt(s, names, name).0, names + [name]).1 == None
  {
    hide Inv, Unlink, Release, Lock;
    ResolveOk(s, names);
    var (s1, p) := Resolve(s, names);
    var d := s1.cached[p.value].node;
    IdOf(s1, p.value);
    EntryOf(s1, d, name);
    UnlinkFacts(s1, p.value, name);
    UnlinkKeeps(s1, d, name);
    var s2 := Unlink(s1, d, name);
    ReleaseKeeps(s2, p.value);
    var r := UnlinkAt(s, names, name).0;
    DirectoryStays(s2, p.value);
    WalkAvoids(s, s2.inodes, s.root, names, d, s.inodes[d].entries[name]);
    WalkSplit(s2.inodes, s.root, names, name);
    ResolveOk(r, names + [name]);
  }

  lemma DirectoryStays(s: Fs, id: nat)
    requires Inv(s) && Holds(s, id) && s.cached[id].refs >= 1 && s.cached[id].node in s.inodes
             && s.inodes[s.cached[id].node].dir
    ensures Release(s, id).inodes == s.inodes && Release(s, id).root == s.root
  {
    assert Backed(s, id) && Reachable(s, s.cached[id].node);
    assert Held(s, s.inodes[s.root].id) >= 1;
  }
}
