/** The VFS node cache: a list of buckets, one for each file system instance, each a list of nodes.
    It is a map from (cache index, node id) to node. */
module NodeCache {
  import opened Options

  datatype Slot = Slot(id: int, node: nat)
  datatype Bucket = Bucket(index: int, slots: seq<Slot>)

  /** Position of the bucket with `index`, the number of buckets if there is none. */
  function FindBucket(buckets: seq<Bucket>, index: int, from: nat): (k: nat)
    requires from <= |buckets|
    ensures from <= k <= |buckets| && (k < |buckets| ==> buckets[k].index == index)
    ensures forall i {:trigger buckets[i]} :: from <= i < k ==> buckets[i].index != index
    decreases |buckets| - from
  {
    if from == |buckets| || buckets[from].index == index then from else FindBucket(buckets, index, from + 1)
  }

  function FindSlot(slots: seq<Slot>, id: int, from: nat): (k: nat)
    requires from <= |slots|
    ensures from <= k <= |slots| && (k < |slots| ==> slots[k].id == id)
    ensures forall i {:trigger slots[i]} :: from <= i < k ==> slots[i].id != id
    decreases |slots| - from
  {
    if from == |slots| || slots[from].id == id then from else FindSlot(slots, id, from + 1)
  }

  /** The node under a key. */
  function Get(buckets: seq<Bucket>, index: int, id: int): Option<nat> {
    var b := FindBucket(buckets, index, 0);
    if b == |buckets| then None
    else
      var k := FindSlot(buckets[b].slots, id, 0);
      if k == |buckets[b].slots| then None else Some(buckets[b].slots[k].node)
  }

  /** No index twice, no empty bucket, no id twice in a bucket. */
  ghost predicate Tidy(buckets: seq<Bucket>) {
    && (forall i, j {:trigger buckets[i], buckets[j]} :: 0 <= i < j < |buckets| ==>
           buckets[i].index != buckets[j].index)
    && (forall i {:trigger buckets[i]} :: 0 <= i < |buckets| ==> buckets[i].slots != [] && Single(buckets[i].slots))
  }

  ghost predicate Single(slots: seq<Slot>) {
    forall i, j {:trigger slots[i], slots[j]} :: 0 <= i < j < |slots| ==> slots[i].id != slots[j].id
  }

  /** In a tidy cache a slot is where a search for its key ends: at most one node per key. */
  lemma GetAt(buckets: seq<Bucket>, b: nat, k: nat)
    requires Tidy(buckets) && b < |buckets| && k < |buckets[b].slots|
    ensures Get(buckets, buckets[b].index, buckets[b].slots[k].id) == Some(buckets[b].slots[k].node)
  {
    var f := FindBucket(buckets, buckets[b].index, 0);
    assert buckets[f].index == buckets[b].index;
    var g := FindSlot(buckets[b].slots, buckets[b].slots[k].id, 0);
    assert f == b;
    assert buckets[b].slots[g].id == buckets[b].slots[k].id;
  }

  /** Searching a list in which one bucket was replaced by one with the same index. */
  lemma {:induction false} FindSame(x: seq<Bucket>, y: seq<Bucket>, index: int, from: nat)
    requires |x| == |y| && from <= |x| && forall i {:trigger x[i]} {:trigger y[i]} :: 0 <= i < |x| ==>
               x[i].index == y[i].index
    ensures FindBucket(x, index, from) == FindBucket(y, index, from)
    decreases |x| - from
  {
    if from < |x| && x[from].index != index { FindSame(x, y, index, from + 1); }
  }

  /** A search that finds nothing among the first elements goes on in the appended one. */
  lemma {:induction false} FindAppend(x: seq<Bucket>, b: Bucket, index: int, from: nat)
    requires from <= |x|
    ensures FindBucket(x + [b], index, from) ==
              (if FindBucket(x, index, from) == |x| && b.index != index then |x| + 1 else FindBucket(x, index, from))
    decreases |x| - from
  {
    var y := x + [b];
    assert y[|x|] == b;
    if from < |x| {
      assert y[from] == x[from];
      if x[from].index != index { FindAppend(x, b, index, from + 1); }
    } else if b.index != index {
      assert FindBucket(y, index, |x|) == FindBucket(y, index, |x| + 1);
    }
  }

  lemma {:induction false} SlotAppend(x: seq<Slot>, e: Slot, id: int, from: nat)
    requires from <= |x|
    ensures FindSlot(x + [e], id, from) ==
              (if FindSlot(x, id, from) == |x| && e.id != id then |x| + 1 else FindSlot(x, id, from))
    decreases |x| - from
  {
    var y := x + [e];
    assert y[|x|] == e;
    if from < |x| {
      assert y[from] == x[from];
      if x[from].id != id { SlotAppend(x, e, id, from + 1); }
    } else if e.id != id {
      assert FindSlot(y, id, |x|) == FindSlot(y, id, |x| + 1);
    }
  }

  // ---------------------------------------------------------------- what put and evict do to the map

  function PutSlot(buckets: seq<Bucket>, b: nat, e: Slot): seq<Bucket>
    requires b < |buckets|
  {
    buckets[b := buckets[b].(slots := buckets[b].slots + [e])]
  }

  lemma PutGet(buckets: seq<Bucket>, b: nat, e: Slot, index: int, id: int)
    requires Tidy(buckets) && b < |buckets| && FindSlot(buckets[b].slots, e.id, 0) == |buckets[b].slots|
    ensures Tidy(PutSlot(buckets, b, e))
    ensures Get(PutSlot(buckets, b, e), index, id) == if index == buckets[b].index && id == e.id then Some(e.node)
            else Get(buckets, index, id)
  {
    var r := PutSlot(buckets, b, e);
    forall i | 0 <= i < |r| ensures r[i].slots != [] && Single(r[i].slots) {
      assert Single(buckets[i].slots);
    }
    FindSame(buckets, r, index, 0);
    if index == buckets[b].index {
      var f := FindBucket(buckets, index, 0);
      assert buckets[f].index == buckets[b].index;
      assert f == b;
      SlotAppend(buckets[b].slots, e, id, 0);
    } else {
      var f := FindBucket(buckets, index, 0);
      if f < |buckets| { assert buckets[f].index == index; assert r[f] == buckets[f]; }
    }
  }

  lemma NewBucketGet(buckets: seq<Bucket>, fresh_: int, e: Slot, index: int, id: int)
    requires Tidy(buckets) && FindBucket(buckets, fresh_, 0) == |buckets|
    ensures var r := buckets + [Bucket(fresh_, [e])];
            Tidy(r) && Get(r, index, id) == if index == fresh_ && id == e.id then Some(e.node)
              else Get(buckets, index, id)
  {
    var r := buckets + [Bucket(fresh_, [e])];
    forall i | 0 <= i < |r| ensures r[i].slots != [] && Single(r[i].slots) {
      if i < |buckets| { assert Single(buckets[i].slots); }
    }
    FindAppend(buckets, Bucket(fresh_, [e]), index, 0);
    var f := FindBucket(buckets, index, 0);
    if f < |buckets| {
      assert buckets[f].index == index && r[f] == buckets[f];
    } else if index == fresh_ {
      assert r[|buckets|] == Bucket(fresh_, [e]);
      assert FindSlot([e], id, 0) == if e.id == id then 0 else 1;
    }
  }

  /** Slot `k` of bucket `b` unlinked, and the bucket too if that was its last one. */
  function Removed(buckets: seq<Bucket>, b: nat, k: nat): seq<Bucket>
    requires b < |buckets| && k < |buckets[b].slots|
  {
    var left := buckets[b].slots[..k] + buckets[b].slots[k + 1..];
    if left == [] then buckets[..b] + buckets[b + 1..] else buckets[b := buckets[b].(slots := left)]
  }

  /** Where bucket `i` and slot `j` of the remaining cache were before. */
  lemma RemovedAt(buckets: seq<Bucket>, b: nat, k: nat, i: nat, j: nat)
    requires b < |buckets| && k < |buckets[b].slots| && i < |Removed(buckets, b, k)|
             && j < |Removed(buckets, b, k)[i].slots|
    ensures var r := Removed(buckets, b, k); var last := |buckets[b].slots| == 1;
            var i' := if last && i >= b then i + 1 else i;
            var j' := if i' == b && j >= k then j + 1 else j;
            && i' < |buckets| && j' < |buckets[i'].slots| && (i', j') != (b, k)
            && r[i].index == buckets[i'].index && r[i].slots[j] == buckets[i'].slots[j']
  {}

  lemma RemovedTidy(buckets: seq<Bucket>, b: nat, k: nat)
    requires Tidy(buckets) && b < |buckets| && k < |buckets[b].slots|
    ensures Tidy(Removed(buckets, b, k))
  {
    var r := Removed(buckets, b, k);
    assert Single(buckets[b].slots);
    forall i | 0 <= i < |r| ensures r[i].slots != [] && Single(r[i].slots) {
      if |buckets[b].slots| == 1 {
        assert r[i] == buckets[if i < b then i else i + 1];
      }
    }
  }

  /** Where a search ends. */
  lemma Found(buckets: seq<Bucket>, index: int, id: int) returns (b: nat, k: nat)
    requires Get(buckets, index, id).Some?
    ensures b < |buckets| && k < |buckets[b].slots| && buckets[b].index == index
            && buckets[b].slots[k] == Slot(id, Get(buckets, index, id).value)
  {
    b := FindBucket(buckets, index, 0);
    k := FindSlot(buckets[b].slots, id, 0);
  }

  /** Eviction removes exactly one key. */
  lemma EvictGet(buckets: seq<Bucket>, b: nat, k: nat, index: int, id: int)
    requires Tidy(buckets) && b < |buckets| && k < |buckets[b].slots|
    ensures var r := Removed(buckets, b, k);
            Tidy(r) && Get(r, index, id) == if index == buckets[b].index && id == buckets[b].slots[k].id then None
              else Get(buckets, index, id)
  {
    hide Tidy, Get, Removed;
    RemovedTidy(buckets, b, k);
    var r := Removed(buckets, b, k);
    if Get(r, index, id).Some? {
      var i, j := Found(r, index, id);
      RemovedAt(buckets, b, k, i, j);
      var i' := if |buckets[b].slots| == 1 && i >= b then i + 1 else i;
      var j' := if i' == b && j >= k then j + 1 else j;
      GetAt(buckets, i', j');
      OneSlot(buckets, i', j', b, k);
    }
    if Get(buckets, index, id).Some? && !(index == buckets[b].index && id == buckets[b].slots[k].id) {
      var i, j := Found(buckets, index, id);
      StaysIn(buckets, b, k, i, j);
    }
  }

  /** Different slots of a tidy cache have different keys. */
  lemma OneSlot(buckets: seq<Bucket>, i: nat, j: nat, b: nat, k: nat)
    requires Tidy(buckets) && i < |buckets| && j < |buckets[i].slots| && b < |buckets| && k < |buckets[b].slots|
             && (i, j) != (b, k)
    ensures buckets[i].index != buckets[b].index || buckets[i].slots[j].id != buckets[b].slots[k].id
  {
    assert Single(buckets[i].slots) && Single(buckets[b].slots);
  }

  lemma StaysIn(buckets: seq<Bucket>, b: nat, k: nat, i: nat, j: nat)
    requires Tidy(buckets) && b < |buckets| && k < |buckets[b].slots| && i < |buckets| && j < |buckets[i].slots|
             && (i, j) != (b, k)
    requires Tidy(Removed(buckets, b, k))
    ensures Get(Removed(buckets, b, k), buckets[i].index, buckets[i].slots[j].id) == Some(buckets[i].slots[j].node)
  {
    hide Get, Tidy;
    var r := Removed(buckets, b, k);
    var last := |buckets[b].slots| == 1;
    var i' := if last && i > b then i - 1 else i;
    var j' := if i == b && j > k then j - 1 else j;
    assert r[i'].index == buckets[i].index && r[i'].slots[j'] == buckets[i].slots[j];
    GetAt(r, i', j');
  }

  class Cache {
    var buckets: seq<Bucket>

    ghost predicate Valid()
      reads this
    {
      Tidy(buckets)
    }

    constructor ()
      ensures Valid() && forall index, id {:trigger Get(buckets, index, id)} :: Get(buckets, index, id) == None
    {
      buckets := [];
    }

    /** The search for a bucket, common to the three operations. */
    method Seek(index: int) returns (b: nat)
      ensures b == FindBucket(buckets, index, 0)
    {
      b := 0;
      while b < |buckets|
        invariant b <= |buckets| && FindBucket(buckets, index, 0) == FindBucket(buckets, index, b)
      {
        if buckets[b].index == index { return; }
        b := b + 1;
      }
    }

    method SeekSlot(b: nat, id: int) returns (k: nat)
      requires b < |buckets|
      ensures k == FindSlot(buckets[b].slots, id, 0)
    {
      k := 0;
      while k < |buckets[b].slots|
        invariant k <= |buckets[b].slots| && FindSlot(buckets[b].slots, id, 0) == FindSlot(buckets[b].slots, id, k)
      {
        if buckets[b].slots[k].id == id { return; }
        k := k + 1;
      }
    }

    /** `vfs_cache_query_node`: needs the bucket, which exists while any node of it is cached. */
    method Query(index: int, id: int) returns (r: Option<nat>)
      requires Valid() && exists other :: Get(buckets, index, other).Some?
      ensures r == Get(buckets, index, id)
    {
      ghost var other :| Get(buckets, index, other).Some?;
      var b := Seek(index);
      var k := SeekSlot(b, id);
      if k < |buckets[b].slots| { return Some(buckets[b].slots[k].node); }
      return None;
    }

    /** `vfs_cache_put`. */
    method Put(index: int, id: int, node: nat) returns (fresh_: bool)
      requires Valid()
      modifies this
      ensures Valid() && fresh_ == (Get(old(buckets), index, id) == None)
      ensures forall i, d {:trigger Get(buckets, i, d)} ::
                Get(buckets, i, d) == if fresh_ && i == index && d == id then Some(node) else Get(old(buckets), i, d)
    {
      hide Tidy, Get;
      ghost var before := buckets;
      var b := Seek(index);
      GetSplit(buckets, index, id);
      if b == |buckets| {
        buckets := buckets + [Bucket(index, [Slot(id, node)])];
        forall i, d ensures Get(buckets, i, d) == if i == index && d == id then Some(node) else Get(before, i, d) {
          NewBucketGet(before, index, Slot(id, node), i, d);
        }
        NewBucketGet(before, index, Slot(id, node), index, id);
        return true;
      }
      var k := SeekSlot(b, id);
      if k < |buckets[b].slots| { return false; }
      buckets := PutSlot(buckets, b, Slot(id, node));
      forall i, d ensures Get(buckets, i, d) == if i == index && d == id then Some(node) else Get(before, i, d) {
        PutGet(before, b, Slot(id, node), i, d);
      }
      PutGet(before, b, Slot(id, node), index, id);
      return true;
    }

    /** The unlinking in `vfs_cache_try_evict`. */
    method Evict(index: int, id: int) returns (found: bool)
      requires Valid()
      modifies this
      ensures Valid() && found == Get(old(buckets), index, id).Some?
      ensures forall i, d {:trigger Get(buckets, i, d)} :: Get(buckets, i, d) == if i == index && d == id then None
              else Get(old(buckets), i, d)
    {
      hide Tidy, Get, Removed;
      ghost var before := buckets;
      var b := Seek(index);
      GetSplit(buckets, index, id);
      if b == |buckets| { return false; }
      var k := SeekSlot(b, id);
      if k == |buckets[b].slots| { return false; }
      forall i, d ensures Get(Removed(before, b, k), i, d) == if i == index && d == id then None
        else Get(before, i, d) {
        EvictGet(before, b, k, i, d);
      }
      EvictGet(before, b, k, index, id);
      buckets := Unlinked(b, k);
      return true;
    }

    method Unlinked(b: nat, k: nat) returns (r: seq<Bucket>)
      requires b < |buckets| && k < |buckets[b].slots|
      ensures r == Removed(buckets, b, k)
    {
      var left := buckets[b].slots[..k] + buckets[b].slots[k + 1..];
      r := buckets[b := buckets[b].(slots := left)];
      if r[b].slots == [] { r := buckets[..b] + buckets[b + 1..]; }
    }
  }

  lemma GetSplit(buckets: seq<Bucket>, index: int, id: int)
    ensures var b := FindBucket(buckets, index, 0);
            Get(buckets, index, id).Some? <==> b < |buckets| && FindSlot(buckets[b].slots, id, 0) < |buckets[b].slots|
  {}
}
