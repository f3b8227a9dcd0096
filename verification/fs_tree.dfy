/**
 The filesystem as the synchroniser sees it. A directory maps entry names to
 either a file (its data) or a subdirectory; a path is the sequence of names
 followed from a root directory. Metadata (modification time, permissions) is
 not part of a node.
 */
module FsTree {

  type Name = string

  type Content = seq<bv8>

  type Path = seq<Name>

  datatype Option<T> = None | Some(value: T)

  datatype Node = File(content: Content) | Dir(entries: map<Name, Node>)

  /** The node reached by following `p` from `t`, or None when a step is missing or crosses a file. */
  function Get(t: Node, p: Path): Option<Node>
    decreases |p|
  {
    if p == [] then Some(t)
    else if t.Dir? && p[0] in t.entries then Get(t.entries[p[0]], p[1..])
    else None
  }

  /**
   `p` names an existing directory (os.path.isdir). A path that exists crosses
   only directories, so the parent of a directory is a directory holding it.
   */
  function IsDirAt(t: Node, p: Path): (r: bool)
    ensures r && p != [] ==>
              var parent := Get(t, p[..|p| - 1]);
              parent.Some? && parent.value.Dir? && p[|p| - 1] in parent.value.entries
  {
    if p != [] then
      GetChild(t, p[..|p| - 1], p[|p| - 1]);
      assert p[..|p| - 1] + [p[|p| - 1]] == p;
      Get(t, p).Some? && Get(t, p).value.Dir?
    else
      Get(t, p).Some? && Get(t, p).value.Dir?
  }

  /**
   `name` is a plain file inside the directory `dir`: os.path.isfile on the
   path joined from `dir` and `name`.
   */
  function IsFileAt(t: Node, dir: Path, name: Name): (r: bool)
    ensures r <==> Get(t, dir + [name]).Some? && Get(t, dir + [name]).value.File?
  {
    GetChild(t, dir, name);
    IsDirAt(t, dir) && name in Get(t, dir).value.entries && Get(t, dir).value.entries[name].File?
  }

  /** The path one step below `p` reaches the entry `n` exactly when `p` is a directory holding `n`. */
  lemma {:induction false} GetChild(t: Node, p: Path, n: Name)
    ensures var g := Get(t, p);
            Get(t, p + [n]) == if g.Some? && g.value.Dir? && n in g.value.entries then Some(g.value.entries[n]) else None
    decreases |p|
  {
    if p == [] {
      assert [] + [n] == [n];
    } else {
      assert (p + [n])[0] == p[0] && (p + [n])[1..] == p[1..] + [n];
      if t.Dir? && p[0] in t.entries {
        GetChild(t.entries[p[0]], p[1..], n);
      }
    }
  }

  /** The listing of the directory at `p`. */
  function EntriesAt(t: Node, p: Path): map<Name, Node>
    requires IsDirAt(t, p)
  {
    Get(t, p).value.entries
  }

  /** `t` with the node at the existing path `p` replaced by `x`. */
  function Put(t: Node, p: Path, x: Node): (t': Node)
    requires Get(t, p).Some?
    ensures Get(t', p) == Some(x)
    ensures p != [] ==> t'.Dir? && t'.entries.Keys == t.entries.Keys
    decreases |p|
  {
    if p == [] then x
    else Dir(t.entries[p[0] := Put(t.entries[p[0]], p[1..], x)])
  }

  /** Replacing twice at the same path keeps only the second replacement. */
  lemma {:induction false} PutPut(t: Node, p: Path, x: Node, y: Node)
    requires Get(t, p).Some?
    ensures Put(Put(t, p, x), p, y) == Put(t, p, y)
    decreases |p|
  {
    if p != [] {
      PutPut(t.entries[p[0]], p[1..], x, y);
    }
  }

  /** Writing back what is already at `p` changes nothing. */
  lemma {:induction false} PutGet(t: Node, p: Path)
    requires Get(t, p).Some?
    ensures Put(t, p, Get(t, p).value) == t
    decreases |p|
  {
    if p != [] {
      PutGet(t.entries[p[0]], p[1..]);
    }
  }

  /**
   One step below a directory: the child path reaches the named entry, and
   replacing the child is the same as replacing that entry of its directory.
   */
  lemma {:induction false} PutChild(t: Node, p: Path, n: Name, x: Node)
    requires IsDirAt(t, p)
    ensures Get(t, p + [n]) == if n in EntriesAt(t, p) then Some(EntriesAt(t, p)[n]) else None
    ensures n in EntriesAt(t, p) ==> Put(t, p + [n], x) == Put(t, p, Dir(EntriesAt(t, p)[n := x]))
    decreases |p|
  {
    if p == [] {
      assert [] + [n] == [n];
    } else {
      assert (p + [n])[0] == p[0] && (p + [n])[1..] == p[1..] + [n];
      PutChild(t.entries[p[0]], p[1..], n, x);
    }
  }

  /** Neither path lies inside the other: they part at some common position. */
  predicate Apart(p: Path, q: Path) {
    exists i :: 0 <= i < |p| && i < |q| && p[i] != q[i]
  }

  /** Replacing the node at `p` leaves every path apart from `p` as it was. */
  lemma {:induction false} PutElsewhere(t: Node, p: Path, x: Node, q: Path)
    requires Get(t, p).Some?
    requires Apart(p, q)
    ensures Get(Put(t, p, x), q) == Get(t, q)
    decreases |p|
  {
    var i :| 0 <= i < |p| && i < |q| && p[i] != q[i];
    if p[0] == q[0] {
      assert p[1..][i - 1] != q[1..][i - 1];
      PutElsewhere(t.entries[p[0]], p[1..], x, q[1..]);
    }
  }
}
