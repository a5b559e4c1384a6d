/** What each file-system operation changes, said outright, and the end of an unlinked file. */
module FsLaws {
  import opened Options
  import opened FsModel
  import opened FsPaths

  // ---------------------------------------------------------------- one node

  /** `r` has the nodes of `s` except perhaps `a`. */
  ghost predicate Beside(s: map<nat, Inode>, r: map<nat, Inode>, a: nat) {
    forall x {:trigger r[x]} {:trigger s[x]} {:trigger x in r} {:trigger x in s} :: x != a ==>
      (x in r <==> x in s) && (x in s ==> r[x] == s[x])
  }

  /** As above, for the cached nodes. */
  ghost predicate CachedBeside(s: map<nat, VNode>, r: map<nat, VNode>, id: nat) {
    forall x {:trigger r[x]} {:trigger s[x]} {:trigger x in r} {:trigger x in s} :: x != id ==>
      (x in r <==> x in s) && (x in s ==> r[x] == s[x])
  }

  /** Letting go of a node: it stays cached exactly if its count was above 2, and the ramfs node behind it stays
      exactly if it is still cached or has a name. Every other node is left alone. */
  lemma ReleaseExact(s: Fs, id: nat)
    requires Inv(s) && Holds(s, id)
    ensures s.cached[id].refs >= 2 && s.cached[id].node in s.inodes
    ensures var r := Release(s, id); var a := s.cached[id].node;
            && (id in r.cached <==> s.cached[id].refs > 2)
            && (id in r.cached ==> r.cached[id] == VNode(a, s.cached[id].refs - 1))
            && (a in r.inodes <==> s.cached[id].refs > 2 || s.inodes[a].links > 0)
            && (a in r.inodes ==> r.inodes[a] == s.inodes[a])
            && Beside(s.inodes, r.inodes, a) && CachedBeside(s.cached, r.cached, id)
            && r == s.(inodes := r.inodes, cached := r.cached, held := r.held)
            && forall x {:trigger Held(r, x)} :: Held(r, x) == Held(s, x) - if x == id then 1 else 0
  {
    assert Backed(s, id);
  }

  /** Looking a node up caches it, with the cache's own reference, and does nothing else. */
  lemma LookExact(s: Fs, a: nat)
    requires Inv(s) && a in s.inodes && a !in s.lost
    ensures var r := Cache(s, a); var id := s.inodes[a].id;
            && r == s.(cached := r.cached) && CachedBeside(s.cached, r.cached, id)
            && id in r.cached && r.cached[id] == VNode(a, 1 + Held(s, id))
  {
    CacheKeeps(s, a);
    assert Backed(Cache(s, a), s.inodes[a].id);
  }

  /** `r` has one node more than `was`: at `at`, of the given kind and id, with one name and no entries; directory `d`
      has `name` for it unless it is full. Every other node and entry is as it was. */
  ghost predicate Made(was: map<nat, Inode>, r: map<nat, Inode>, d: nat, name: string, dir: bool, at: nat, id: nat) {
    && d in was && d in r && at in r && r[at] == Inode(id, dir, 1, map[])
    && (forall x {:trigger x in r} {:trigger x in was} :: x in r <==> x in was || x == at)
    && (forall x {:trigger r[x]} :: x in r && x in was && x != d ==> r[x] == was[x])
    && r[d] == was[d].(entries := if |was[d].entries| < 64 then was[d].entries[name := at] else was[d].entries)
  }

  /** A create of a new name makes a node of the given kind with that one name, no entries and a new id; with a name
      that is there it only looks the node up. */
  lemma CreateExact(s: Fs, d: nat, name: string, dir: bool, at: nat)
    requires Inv(s) && d in s.inodes && s.inodes[d].dir && d !in s.lost && at !in s.inodes
    ensures name in s.inodes[d].entries ==> s.inodes[d].entries[name] in s.inodes
    ensures forall x {:trigger s.inodes[x]} :: x in s.inodes ==> s.inodes[x].id != s.nextId
    ensures var r := Create(s, d, name, dir, at); var was := s.inodes[d];
            && (name in was.entries ==> r == s.(cached := r.cached))
            && (name !in was.entries ==>
                  && Made(s.inodes, r.inodes, d, name, dir, at, s.nextId) && r.nextId == s.nextId + 1
                  && r == s.(inodes := r.inodes, cached := r.cached, nextId := r.nextId, lost := r.lost)
                  && r.cached == if |was.entries| < 64 then s.cached[s.nextId := VNode(at, 1)] else s.cached)
  {
    hide Names, Ids, Counted;
    EntryOf(s, d, name);
    forall x {:trigger s.inodes[x]} | x in s.inodes ensures s.inodes[x].id != s.nextId { assert Reachable(s, x); }
    FreshId(s);
  }

  /** A link gives the file one more name and one more count; every other node and entry stays. It fails, and
      changes nothing, exactly if the name is there or the directory is full. */
  lemma LinkExact(s: Fs, d: nat, name: string, a: nat)
    requires Inv(s) && d in s.inodes && s.inodes[d].dir && a in s.inodes && !s.inodes[a].dir
    ensures var r := Link(s, d, name, a); var was := s.inodes[d];
            && (name in was.entries || |was.entries| >= 64 ==> r == s)
            && (name !in was.entries && |was.entries| < 64 ==>
                  && r == s.(inodes := r.inodes) && r.inodes.Keys == s.inodes.Keys
                  && r.inodes[d] == was.(entries := was.entries[name := a])
                  && r.inodes[a] == s.inodes[a].(links := s.inodes[a].links + 1)
                  && forall x {:trigger r.inodes[x]} :: x in s.inodes && x != d && x != a ==>
                       r.inodes[x] == s.inodes[x])
  {}

  /** `r` has one entry less than `was`, `name` in `d`, and its file one count less; the file itself is there exactly if
      it has another name or is `open`. Every other node and entry is as it was. */
  ghost predicate Cuts(was: map<nat, Inode>, r: map<nat, Inode>, d: nat, name: string, open: bool) {
    && d in was && d in r && name in was[d].entries && was[d].entries[name] in was
    && var a := was[d].entries[name];
    && a != d && r[d] == was[d].(entries := was[d].entries - {name})
    && (a in r <==> was[a].links > 1 || open)
    && (a in r ==> was[a].links >= 1 && r[a] == was[a].(links := was[a].links - 1))
    && (forall x {:trigger x in r} {:trigger x in was} :: x != a ==> (x in r <==> x in was))
    && (forall x {:trigger r[x]} :: x in r && x in was && x != d && x != a ==> r[x] == was[x])
  }

  /** An unlink takes one name and one count off a file, which goes at once exactly if that was its last name and it
      is not cached. A missing name or a directory changes nothing. */
  lemma UnlinkExact(s: Fs, d: nat, name: string)
    requires Inv(s) && d in s.inodes
    ensures name in s.inodes[d].entries ==>
              s.inodes[d].entries[name] in s.inodes && s.inodes[s.inodes[d].entries[name]].links > 0
    ensures var r := Unlink(s, d, name); var was := s.inodes[d].entries;
            && r == s.(inodes := r.inodes)
            && if name in was && !s.inodes[was[name]].dir
               then Cuts(s.inodes, r.inodes, d, name, s.inodes[was[name]].id in s.cached)
               else r == s
  {
    hide Names, Ids, Counted;
    EntryOf(s, d, name);
  }

  // ---------------------------------------------------------------- the end of an unlinked file

  /** The node `id` stands for has no name left: it is cached exactly while somebody holds it, and it is there exactly
      while it is cached. */
  ghost predicate Orphan(s: Fs, id: nat) {
    && id < s.nextId && (id in s.cached <==> Held(s, id) > 0)
    && (forall a {:trigger s.inodes[a]} :: a in s.inodes && s.inodes[a].id == id ==>
          id in s.cached && a != s.root && s.inodes[a].links == 0)
  }

  /** The last name of a file that is held goes away. */
  lemma UnlinkOrphans(s: Fs, d: nat, name: string)
    requires Inv(s) && d in s.inodes && name in s.inodes[d].entries && s.inodes[d].entries[name] in s.inodes
    requires var a := s.inodes[s.inodes[d].entries[name]]; !a.dir && a.links == 1 && Held(s, a.id) > 0
    ensures s.inodes[s.inodes[d].entries[name]].links > 0
    ensures Orphan(Unlink(s, d, name), s.inodes[s.inodes[d].entries[name]].id)
  {
    hide Names;
    var a := s.inodes[d].entries[name];
    UnlinkExact(s, d, name);
    EntryOf(s, d, name);
    assert Reachable(s, a);
    forall x | x in s.inodes && s.inodes[x].id == s.inodes[a].id ensures x == a { SameId(s.inodes, x, a); }
  }

  /** A node with a name is another one. */
  lemma NamedIsOther(s: Fs, id: nat, d: nat, name: string)
    requires Inv(s) && Orphan(s, id) && d in s.inodes && name in s.inodes[d].entries
    ensures var a := s.inodes[d].entries[name]; a in s.inodes && s.inodes[a].id != id && a !in s.lost
  {
    EntryOf(s, d, name);
  }

  lemma OrphanReleases(s: Fs, id: nat, x: nat)
    requires Inv(s) && Orphan(s, id) && Holds(s, x)
    ensures s.cached[x].refs >= 2 && s.cached[x].node in s.inodes && Orphan(Release(s, x), id)
  {
    hide Names, Release, Counted, Entered, Reachable;
    ReleaseExact(s, x);
    assert Backed(s, x);
  }

  lemma OrphanLooks(s: Fs, id: nat, a: nat)
    requires Inv(s) && Orphan(s, id) && a in s.inodes && s.inodes[a].id != id && a !in s.lost
    ensures Orphan(Cache(s, a), id)
  {
    hide Names, Cache, Counted, Entered, Reachable, Ids;
    LookExact(s, a);
    assert Held(Cache(s, a), id) == Held(s, id);
  }

  lemma OrphanCreates(s: Fs, id: nat, d: nat, name: string, dir: bool, at: nat)
    requires Inv(s) && Orphan(s, id) && d in s.inodes && s.inodes[d].dir && d !in s.lost && at !in s.inodes
    ensures name in s.inodes[d].entries ==> s.inodes[d].entries[name] in s.inodes
    ensures Orphan(Create(s, d, name, dir, at), id)
  {
    hide Names, Counted, Entered, Reachable, Ids;
    CreateExact(s, d, name, dir, at);
    if name in s.inodes[d].entries { NamedIsOther(s, id, d, name); }
    assert Held(Create(s, d, name, dir, at), id) == Held(s, id);
  }

  lemma OrphanUnlinks(s: Fs, id: nat, d: nat, name: string)
    requires Inv(s) && Orphan(s, id) && d in s.inodes
    ensures name in s.inodes[d].entries ==>
              s.inodes[d].entries[name] in s.inodes && s.inodes[s.inodes[d].entries[name]].links > 0
    ensures Orphan(Unlink(s, d, name), id)
  {
    hide Names, Unlink, Counted, Entered, Reachable, Ids;
    UnlinkExact(s, d, name);
    if name in s.inodes[d].entries { NamedIsOther(s, id, d, name); }
    assert Held(Unlink(s, d, name), id) == Held(s, id);
  }

  lemma OrphanLinks(s: Fs, id: nat, d: nat, name: string, a: nat)
    requires Inv(s) && Orphan(s, id) && d in s.inodes && s.inodes[d].dir && a in s.inodes && !s.inodes[a].dir
    requires s.inodes[a].id != id
    ensures Orphan(Link(s, d, name, a), id)
  {
    hide Names, Link, Counted, Entered, Reachable, Ids;
    LinkExact(s, d, name, a);
    assert Held(Link(s, d, name, a), id) == Held(s, id);
  }

  lemma OrphanStep(s: Fs, e: Event, id: nat)
    requires Inv(s) && Orphan(s, id) && Enabled(s, e) && !(e.Links? && e.target == id)
    ensures Orphan(Step(s, e), id)
  {
    hide Names, Counted, Entered, Reachable, Ids, Lock, Release, Cache, Create, Link, Unlink, Inv, Orphan;
    Ready(s, e);
    match e
    case Locks(x) => OrphanLocks(s, id, x);
    case Releases(x) => OrphanReleases(s, id, x);
    case Looks(d, n) =>
      if n in s.inodes[s.cached[d].node].entries {
        NamedIsOther(s, id, s.cached[d].node, n);
        OrphanLooks(s, id, s.inodes[s.cached[d].node].entries[n]);
      }
    case Creates(d, n, dir, at) => OrphanCreates(s, id, s.cached[d].node, n, dir, at);
    case Links(d, n, t) => IdOf(s, t); OrphanLinks(s, id, s.cached[d].node, n, s.cached[t].node);
    case Unlinks(d, n) => OrphanUnlinks(s, id, s.cached[d].node, n);
  }

  lemma OrphanLocks(s: Fs, id: nat, x: nat)
    requires Inv(s) && Orphan(s, id) && x in s.cached
    ensures Orphan(Lock(s, x), id)
  {
    hide Inv;
    assert Held(Lock(s, x), id) == Held(s, id) + if x == id then 1 else 0;
  }

  /** No link of the run gives the node a name again. */
  ghost predicate Unnamed(es: seq<Event>, id: nat) {
    forall i {:trigger es[i]} :: 0 <= i < |es| ==> !(es[i].Links? && es[i].target == id)
  }

  /** However the run goes on, an unlinked file lasts exactly as long as somebody holds it: with the last close its
      VFS node and its ramfs node are gone, and they never come back. */
  lemma {:induction false} UnlinkedGoes(s: Fs, es: seq<Event>, id: nat)
    requires Inv(s) && Possible(s, es) && Orphan(s, id) && Unnamed(es, id)
    ensures var r := After(s, es); Orphan(r, id) && (Held(r, id) == 0 ==>
              id !in r.cached && forall a {:trigger r.inodes[a]} :: a in r.inodes ==> r.inodes[a].id != id)
    decreases |es|
  {
    hide Inv, Enabled, Step, Held;
    if es != [] {
      OrphanStep(s, es[0], id);
      assert Unnamed(es[1..], id) by { assert forall i :: 0 <= i < |es[1..]| ==> es[1..][i] == es[i + 1]; }
      UnlinkedGoes(Step(s, es[0]), es[1..], id);
    }
  }

  /** While it is held, on the other hand, it stays. */
  lemma {:induction false} UnlinkedStays(s: Fs, es: seq<Event>, id: nat)
    requires Inv(s) && Possible(s, es) && Orphan(s, id) && Unnamed(es, id) && Held(After(s, es), id) > 0
    ensures var r := After(s, es);
            && id in r.cached && r.cached[id].node in r.inodes
            && r.inodes[r.cached[id].node].id == id && r.inodes[r.cached[id].node].links == 0
  {
    hide Step, Enabled;
    UnlinkedGoes(s, es, id);
    IdOf(After(s, es), id);
  }

  // ---------------------------------------------------------------- along a path

  /** The node at the end of a walk that moved has a name. */
  lemma {:induction false} WalkNamed(s: Fs, a: nat, names: seq<string>)
    requires Inv(s) && a in s.inodes && WalkTo(s.inodes, a, names).Some?
    ensures var e := WalkTo(s.inodes, a, names).value;
            e in s.inodes && (e == a || s.inodes[e].links > 0) && e !in s.lost - {a}
    decreases |names|
  {
    if names != [] {
      EntryOf(s, a, names[0]);
      WalkNamed(s, s.inodes[a].entries[names[0]], names[1..]);
    }
  }

  /** Giving back the node a path led to frees nothing. */
  lemma NamedStays(s: Fs, id: nat, names: seq<string>)
    requires Inv(s) && Holds(s, id) && WalkTo(s.inodes, s.root, names) == Some(s.cached[id].node)
    ensures s.cached[id].refs >= 1 && s.cached[id].node in s.inodes && Release(s, id).inodes == s.inodes
  {
    hide Release, Counted, Entered;
    WalkNamed(s, s.root, names);
    ReleaseExact(s, id);
    IdOf(s, id);
    RootStays(s, id);
  }

  lemma RootStays(s: Fs, id: nat)
    requires Inv(s) && Holds(s, id) && s.cached[id].node in s.inodes
    ensures s.cached[id].node == s.root ==> s.cached[id].refs > 2
  {
    assert Backed(s, id);
  }

  /** A create at a path: refused if the path leads to no directory; the node that is there, and no change, if the name
      is; nothing but a node without a name if the directory is full; otherwise a new file or directory, as asked for,
      empty, with the one name at which the path now finds it. */
  lemma CreateAtExact(s: Fs, names: seq<string>, name: string, dir: bool, at: nat)
    requires Inv(s) && at !in s.inodes
    ensures var (r, child) := CreateAt(s, names, name, dir, at); var w := WalkTo(s.inodes, s.root, names);
            && (w.Some? ==> w.value in s.inodes)
            && (w == None || !s.inodes[w.value].dir ==> child == None && r.inodes == s.inodes)
            && (w.Some? && s.inodes[w.value].dir && name in s.inodes[w.value].entries ==>
                  && s.inodes[w.value].entries[name] in s.inodes && r.inodes == s.inodes
                  && child == Some(s.inodes[s.inodes[w.value].entries[name]].id))
            && (w.Some? && s.inodes[w.value].dir && name !in s.inodes[w.value].entries ==>
                  && Made(s.inodes, r.inodes, w.value, name, dir, at, s.nextId)
                  && (if |s.inodes[w.value].entries| >= 64 then child == None
                      else child == Some(s.nextId) && WalkTo(r.inodes, s.root, names + [name]) == Some(at)))
  {
    hide Inv, Create, Release, Lock, Made;
    ResolveOk(s, names);
    RootIsDir(s);
    var (s1, p) := Resolve(s, names);
    if p.Some? {
      var d := s1.cached[p.value].node;
      if s1.inodes[d].dir { CreatedAt(s, names, name, dir, at); } else { NamedStays(s1, p.value, names); }
    }
  }

  /** When the path leads to a directory, the tree changes as `ramfs_create` changes it. */
  lemma CreatedAt(s: Fs, names: seq<string>, name: string, dir: bool, at: nat)
    requires Inv(s) && at !in s.inodes && WalkTo(s.inodes, s.root, names).Some?
    requires WalkTo(s.inodes, s.root, names).value in s.inodes && s.inodes[WalkTo(s.inodes, s.root, names).value].dir
    ensures var d := WalkTo(s.inodes, s.root, names).value; var (r, child) := CreateAt(s, names, name, dir, at);
            if name in s.inodes[d].entries then
              && s.inodes[d].entries[name] in s.inodes && r.inodes == s.inodes
              && child == Some(s.inodes[s.inodes[d].entries[name]].id)
            else
              && Made(s.inodes, r.inodes, d, name, dir, at, s.nextId)
              && (if |s.inodes[d].entries| >= 64 then child == None
                  else child == Some(s.nextId) && WalkTo(r.inodes, s.root, names + [name]) == Some(at))
  {
    hide Inv, Create, Release, Lock;
    ResolveOk(s, names);
    var (s1, p) := Resolve(s, names);
    var d := s1.cached[p.value].node;
    NotLost(s1, p.value);
    CreateKeeps(s1, d, name, dir, at);
    CreateFacts(s1, p.value, name, dir, at);
    CreateExact(s1, d, name, dir, at);
    var s2 := Create(s1, d, name, dir, at);
    ReleaseKeeps(s2, p.value);
    DirectoryStays(s2, p.value);
    if name in s1.inodes[d].entries || |s1.inodes[d].entries| < 64 {
      ReleaseOther(s2, p.value, d, name);
      LockTree(Release(s2, p.value), s2.inodes[s2.inodes[d].entries[name]].id);
      WalkStable(s.inodes, s2.inodes, s.root, names);
      WalkSplit(s2.inodes, s.root, names, name);
    }
  }

  /** A walk caches and evicts only nodes on its way, and before its end these are directories. */
  lemma {:induction false} FilesUntouched(s: Fs, id: nat, names: seq<string>, a: nat)
    requires Inv(s) && Holds(s, id) && s.cached[id].node in s.inodes && a in s.inodes && !s.inodes[a].dir
    requires a != s.cached[id].node && a != Deepest(s.inodes, s.cached[id].node, names)
    ensures s.inodes[a].id in ResolveFrom(s, id, names).0.cached <==> s.inodes[a].id in s.cached
    decreases |names|
  {
    hide Inv, Descend;
    if names != [] && names[0] in s.inodes[s.cached[id].node].entries {
      DescendOk(s, id, names[0]);
      var y := s.inodes[s.cached[id].node].entries[names[0]];
      if y != a {
        DescendBeside(s, id, names[0], a);
        FilesUntouched(Descend(s, id, names[0]), s.inodes[y].id, names[1..], a);
      } else {
        FileIsEnd(s, a, names[1..]);
      }
    }
  }

  lemma FileIsEnd(s: Fs, a: nat, names: seq<string>)
    requires Inv(s) && a in s.inodes && !s.inodes[a].dir
    ensures Deepest(s.inodes, a, names) == a
  {
    assert Entered(s, a);
  }

  lemma DescendBeside(s: Fs, id: nat, name: string, a: nat)
    requires Inv(s) && Holds(s, id) && s.cached[id].node in s.inodes && name in s.inodes[s.cached[id].node].entries
    requires a in s.inodes && a != s.cached[id].node && a != s.inodes[s.cached[id].node].entries[name]
    ensures s.inodes[a].id in Descend(s, id, name).cached <==> s.inodes[a].id in s.cached
  {
    hide Inv, Cache, Lock, Release;
    DescendReady(s, id, name);
    var b := s.inodes[s.cached[id].node].entries[name];
    IdOf(s, id);
    RootIsDir(s);
    IdsDiffer(s, a, b);
    IdsDiffer(s, a, s.cached[id].node);
    CacheKeeps(s, b);
    LookExact(s, b);
    var s1 := Cache(s, b);
    LockKeeps(s1, s.inodes[b].id);
    LockBeside(s1, s.inodes[b].id);
    DescendHolds(s1, s.inodes[b].id, id);
    ReleaseExact(Lock(s1, s.inodes[b].id), id);
  }

  lemma IdsDiffer(s: Fs, a: nat, b: nat)
    requires Inv(s) && a in s.inodes && b in s.inodes && a != b
    ensures s.inodes[a].id != s.inodes[b].id
  {
    SameId(s.inodes, a, b);
  }

  lemma LockBeside(s: Fs, id: nat)
    requires id in s.cached
    ensures Lock(s, id).cached.Keys == s.cached.Keys && Lock(s, id).inodes == s.inodes && Lock(s, id).root == s.root
  {}

  lemma DescendHolds(s: Fs, id: nat, x: nat)
    requires s.root in s.inodes && id in s.cached && Holds(s, x)
    ensures Holds(Lock(s, id), x)
  {}

  /** An unlink at a path succeeds exactly if the path leads to a directory with a file of that name; it takes that
      name away, and the file with it if it was the last one and nobody had it cached. */
  lemma UnlinkAtExact(s: Fs, names: seq<string>, name: string)
    requires Inv(s)
    ensures var (r, ok) := UnlinkAt(s, names, name); var w := WalkTo(s.inodes, s.root, names);
            && (w.Some? ==> w.value in s.inodes)
            && (w.Some? && name in s.inodes[w.value].entries ==> s.inodes[w.value].entries[name] in s.inodes)
            && (ok <==> w.Some? && s.inodes[w.value].dir && name in s.inodes[w.value].entries
                        && !s.inodes[s.inodes[w.value].entries[name]].dir)
            && (if ok then Cuts(s.inodes, r.inodes, w.value, name,
                                s.inodes[s.inodes[w.value].entries[name]].id in s.cached)
                else r.inodes == s.inodes)
  {
    hide Inv, Unlink, Release, Cuts;
    ResolveOk(s, names);
    RootIsDir(s);
    var (s1, p) := Resolve(s, names);
    if p.Some? {
      var d := s1.cached[p.value].node;
      EntryOf(s, d, name);
      if s1.inodes[d].dir {
        UnlinkFacts(s1, p.value, name);
        UnlinkExact(s1, d, name);
        UnlinkKeeps(s1, d, name);
        ReleaseKeeps(Unlink(s1, d, name), p.value);
        DirectoryStays(Unlink(s1, d, name), p.value);
        if name in s.inodes[d].entries && !s.inodes[s.inodes[d].entries[name]].dir {
          FileOffPath(s, names, s.inodes[d].entries[name]);
        }
      } else {
        NamedStays(s1, p.value, names);
        FileIsEnd(s, d, [name]);
      }
    }
  }

  /** Resolving the path of a directory leaves the cache of files alone. */
  lemma FileOffPath(s: Fs, names: seq<string>, a: nat)
    requires Inv(s) && a in s.inodes && !s.inodes[a].dir && s.root in s.inodes
    requires WalkTo(s.inodes, s.root, names).Some? && WalkTo(s.inodes, s.root, names).value != a
    ensures s.inodes[a].id in Resolve(s, names).0.cached <==> s.inodes[a].id in s.cached
  {
    hide Inv, ResolveFrom, Lock;
    var id := s.inodes[s.root].id;
    LockedRoot(s);
    LockBeside(s, id);
    RootIsDir(s);
    ResolveOk(s, names);
    FilesUntouched(Lock(s, id), id, names, a);
  }

  lemma RootIsDir(s: Fs)
    requires Inv(s)
    ensures s.root in s.inodes && s.inodes[s.root].dir
  {}
}
