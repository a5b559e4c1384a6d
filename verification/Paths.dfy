/** Path strings: the components `vfs_resolve` walks through, and the split of `vfs_split_path`. */
module Paths {
  /** Length of the part of `path` before its first slash. */
  function Head(path: string): (k: nat)
    ensures k <= |path| && (k < |path| ==> path[k] == '/') && forall i :: 0 <= i < k ==> path[i] != '/'
  {
    if path == "" || path[0] == '/' then 0 else 1 + Head(path[1..])
  }

  /** The names between slashes; repeated slashes count once. */
  function Components(path: string): seq<string>
    decreases |path|
  {
    if path == "" then []
    else if path[0] == '/' then Components(path[1..])
    else [path[..Head(path)]] + Components(path[Head(path)..])
  }

  /** Position of the last slash, -1 if there is none. */
  function LastSlash(path: string): (k: int)
    ensures -1 <= k < |path| && (k >= 0 ==> path[k] == '/') && forall i :: k < i < |path| ==> path[i] != '/'
  {
    if path == "" then -1
    else if path[|path| - 1] == '/' then |path| - 1
    else LastSlash(path[..|path| - 1])
  }

  function ParentPath(path: string): string {
    var k := LastSlash(path);
    if k <= 0 then "/" else path[..k]
  }

  function LastName(path: string): string { path[LastSlash(path) + 1..] }

  lemma HeadAll(path: string)
    requires forall i :: 0 <= i < |path| ==> path[i] != '/'
    ensures Head(path) == |path|
  {}

  lemma PlainName(name: string)
    requires name != "" && forall i :: 0 <= i < |name| ==> name[i] != '/'
    ensures Components(name) == [name]
  {
    HeadAll(name);
    assert name[..|name|] == name && name[|name|..] == "";
  }

  /** A slash separates: the components on its left come before those on its right. */
  lemma {:induction false} ComponentsJoin(left: string, right: string)
    ensures Components(left + "/" + right) == Components(left) + Components(right)
    decreases |left|
  {
    var path := left + "/" + right;
    if left == "" {
      assert path[1..] == right;
    } else if left[0] == '/' {
      assert path[1..] == left[1..] + "/" + right;
      ComponentsJoin(left[1..], right);
    } else {
      var k := Head(left);
      HeadJoin(left, right);
      assert path[..k] == left[..k];
      if k < |left| {
        assert path[k..] == left[k..] + "/" + right;
        ComponentsJoin(left[k..], right);
      } else {
        assert left[k..] == "" && path[k..] == "/" + right;
        assert ("/" + right)[1..] == right;
      }
    }
  }

  lemma {:induction false} HeadJoin(left: string, right: string)
    ensures Head(left + "/" + right) == Head(left)
    decreases |left|
  {
    var path := left + "/" + right;
    if left != "" && left[0] != '/' {
      assert path[1..] == left[1..] + "/" + right;
      HeadJoin(left[1..], right);
    }
  }

  lemma RootPath()
    ensures Components("/") == [] && Components("") == []
  {
    assert "/"[1..] == "";
  }

  lemma CutAt(path: string, k: nat)
    requires k < |path| && path[k] == '/'
    ensures Components(path) == Components(path[..k]) + Components(path[k + 1..])
  {
    hide Components;
    assert path == path[..k] + "/" + path[k + 1..];
    ComponentsJoin(path[..k], path[k + 1..]);
  }

  /** The components of a path are those of the split-off parent and then the name. */
  lemma {:induction false} SplitComponents(path: string)
    requires LastName(path) != ""
    ensures Components(path) == Components(ParentPath(path)) + [LastName(path)]
  {
    hide Components, LastSlash;
    RootPath();
    var k := LastSlash(path);
    if k < 0 {
      assert path[0..] == path;
      PlainName(path);
    } else {
      PlainName(path[k + 1..]);
      CutAt(path, k);
      assert k == 0 ==> path[..k] == [];
    }
  }
}
