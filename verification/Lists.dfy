/** Duplicate-free queues: removal, positions and membership. */
module Lists {

  ghost predicate NoDup<T>(s: seq<T>) {
    forall i, j {:trigger s[i], s[j]} :: 0 <= i < j < |s| ==> s[i] != s[j]
  }

  /** `s` without the first occurrence of `t`. */
  function Remove<T(==)>(s: seq<T>, t: T): (r: seq<T>)
    ensures t !in s ==> r == s
    ensures |r| == if t in s then |s| - 1 else |s|
  {
    if s == [] then [] else if s[0] == t then s[1..] else [s[0]] + Remove(s[1..], t)
  }

  /** Position of `t`, or the length when it is absent. */
  function IndexOf<T(==)>(s: seq<T>, t: T): (i: nat)
    ensures i <= |s|
    ensures i < |s| <==> t in s
    ensures i < |s| ==> s[i] == t
    ensures forall j {:trigger s[j]} :: 0 <= j < i ==> s[j] != t
  {
    if s == [] then 0 else if s[0] == t then 0 else 1 + IndexOf(s[1..], t)
  }

  lemma {:induction false} RemoveAt<T>(s: seq<T>, i: nat)
    requires i < |s| && s[i] !in s[..i]
    ensures Remove(s, s[i]) == s[..i] + s[i + 1..]
  {
    if i > 0 {
      assert s[1..][..i - 1] == s[1..i] && s[..i] == [s[0]] + s[1..i];
      RemoveAt(s[1..], i - 1);
    }
  }

  lemma RemoveSplit<T>(s: seq<T>, t: T)
    requires t in s
    ensures var i := IndexOf(s, t); Remove(s, t) == s[..i] + s[i + 1..]
  {
    RemoveAt(s, IndexOf(s, t));
  }

  lemma RemoveSubset<T>(s: seq<T>, t: T)
    ensures forall x :: x in Remove(s, t) ==> x in s
  {
    if t in s { RemoveSplit(s, t); }
  }

  lemma RemoveNoDup<T>(s: seq<T>, t: T)
    requires NoDup(s)
    ensures NoDup(Remove(s, t))
  {
    if t in s { RemoveSplit(s, t); }
  }

  lemma RemoveMember<T>(s: seq<T>, t: T, x: T)
    requires NoDup(s)
    ensures x in Remove(s, t) <==> x in s && x != t
  {
    if t in s {
      var i := IndexOf(s, t);
      RemoveSplit(s, t);
      if x in s && x != t {
        var j :| 0 <= j < |s| && s[j] == x;
        assert Remove(s, t)[if j < i then j else j - 1] == x;
      }
    }
  }

  lemma AppendNoDup<T>(s: seq<T>, t: T)
    requires NoDup(s) && t !in s
    ensures NoDup(s + [t])
  {}

  /** Removing another element never moves an element back. */
  lemma {:induction false} RemoveIndex<T>(s: seq<T>, t: T, x: T)
    requires x in s && x != t
    ensures IndexOf(Remove(s, t), x) <= IndexOf(s, x)
  {
    if s[0] != t && s[0] != x {
      assert x in s[1..];
      RemoveIndex(s[1..], t, x);
      assert Remove(s, t)[1..] == Remove(s[1..], t);
    }
  }

  lemma AppendIndex<T>(s: seq<T>, r: seq<T>, x: T)
    requires x in s
    ensures IndexOf(s + r, x) == IndexOf(s, x)
  {
    assert (s + r)[IndexOf(s, x)] == x;
  }

  lemma TailIndex<T>(s: seq<T>, x: T)
    requires x in s && x != s[0]
    ensures x in s[1..] && IndexOf(s[1..], x) == IndexOf(s, x) - 1
  {}

  lemma TailNoDup<T>(s: seq<T>)
    requires NoDup(s) && s != []
    ensures NoDup(s[1..]) && s[0] !in s[1..]
  {}
}
