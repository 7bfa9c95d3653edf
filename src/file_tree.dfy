/** The file system as the server sees it: a tree of named files and
    directories, each directory listing its children in the order
    `os.listdir` returns them. Paths are sequences of names from the root,
    so `os.path.join(p, name)` is `p + [name]`, `os.path.basename` is the
    last name and `os.path.dirname` drops it. A lookup follows the first
    child of each name. */
module FileTree {
  import opened Wrappers

  type Path = seq<string>

  datatype Node =
    /** `decodable`: the image library can open the file (the oracle for
        `Image.open`) */
    | File(name: string, ctime: Option<int>, decodable: bool)
    /** `ctime`: None when `os.path.getctime` fails; `listable`: false when
        `os.listdir` fails on it (missing permission) */
    | Dir(name: string, ctime: Option<int>, listable: bool, children: seq<Node>)

  /** The position of the first child called `name`, or -1. */
  function ChildIndex(children: seq<Node>, name: string): (r: int)
    ensures -1 <= r < |children|
    ensures r >= 0 ==> children[r].name == name
    ensures forall k :: 0 <= k < |children| && (r < 0 || k < r) ==> children[k].name != name
  {
    if children == [] then -1
    else if children[0].name == name then 0
    else
      var r := ChildIndex(children[1..], name);
      assert forall k :: 1 <= k < |children| ==> children[k] == children[1..][k - 1];
      if r < 0 then -1 else r + 1
  }

  function Child(n: Node, name: string): Option<Node> {
    if n.File? then None
    else
      var i := ChildIndex(n.children, name);
      if i < 0 then None else Some(n.children[i])
  }

  /** The node a path leads to, if any. */
  function Find(root: Node, p: Path): Option<Node>
    decreases |p|
  {
    if p == [] then Some(root)
    else match Child(root, p[0])
      case None => None
      case Some(c) => Find(c, p[1..])
  }

  /** `os.path.basename` */
  function Basename(p: Path): string { if p == [] then "" else p[|p| - 1] }

  /** `os.path.dirname` */
  function Dirname(p: Path): Path { if p == [] then [] else p[..|p| - 1] }

  /** `os.path.exists` */
  predicate Exists(root: Node, p: Path) { Find(root, p).Some? }

  /** `os.path.isdir` */
  predicate IsDir(root: Node, p: Path) { Find(root, p).Some? && Find(root, p).value.Dir? }

  /** `os.path.isfile` */
  predicate IsFile(root: Node, p: Path) { Find(root, p).Some? && Find(root, p).value.File? }

  /** `os.path.getctime`, None when it raises. */
  function GetCtime(root: Node, p: Path): Option<int> {
    match Find(root, p)
    case None => None
    case Some(n) => n.ctime
  }

  /** `Image.open(p)` succeeds. */
  predicate Decodes(root: Node, p: Path) { IsFile(root, p) && Find(root, p).value.decodable }

  function NamesOf(children: seq<Node>): (r: seq<string>)
    ensures |r| == |children| && forall k :: 0 <= k < |r| ==> r[k] == children[k].name
  {
    seq(|children|, k requires 0 <= k < |children| => children[k].name)
  }

  /** `os.listdir(p)`, None when it raises (missing, a file, or unreadable). */
  function ListDir(root: Node, p: Path): Option<seq<string>> {
    match Find(root, p)
    case Some(Dir(_, _, true, cs)) => Some(NamesOf(cs))
    case _ => None
  }

  /** Looking up one more name is looking it up among the children of the
      node reached so far. */
  lemma {:induction false} FindAppend(root: Node, p: Path, name: string)
    ensures Find(root, p + [name]) == match Find(root, p) case None => None case Some(d) => Child(d, name)
    decreases |p|
  {
    if p == [] {
      assert [name][1..] == [];
    } else {
      assert (p + [name])[0] == p[0] && (p + [name])[1..] == p[1..] + [name];
      match Child(root, p[0])
      case None =>
      case Some(c) => FindAppend(c, p[1..], name);
    }
  }

  /** Every name `os.listdir` returns can be looked up under the listed
      directory. */
  lemma ListedNameExists(root: Node, p: Path, name: string)
    requires ListDir(root, p).Some? && name in ListDir(root, p).value
    ensures Exists(root, p + [name])
  {
    FindAppend(root, p, name);
  }

  /** The tree after writing a new node `c` as the last child of the
      directory at `p` (nothing changes when `p` is not a directory). */
  function AddChild(root: Node, p: Path, c: Node): (r: Node)
    ensures r.name == root.name && r.Dir? == root.Dir?
    decreases |p|
  {
    if root.File? then root
    else if p == [] then root.(children := root.children + [c])
    else
      var i := ChildIndex(root.children, p[0]);
      if i < 0 then root
      else root.(children := root.children[i := AddChild(root.children[i], p[1..], c)])
  }

  /** Replacing a child by one with the same name changes no lookup of a name. */
  lemma {:induction false} ChildIndexSameNames(cs: seq<Node>, i: int, c: Node, name: string)
    requires 0 <= i < |cs| && c.name == cs[i].name
    ensures ChildIndex(cs[i := c], name) == ChildIndex(cs, name)
  {
    if cs[0].name != name {
      if i > 0 {
        assert cs[i := c][1..] == cs[1..][i - 1 := c];
        ChildIndexSameNames(cs[1..], i - 1, c, name);
      } else {
        assert cs[i := c][1..] == cs[1..];
      }
    }
  }

  /** Appending a child whose name is new changes no lookup of an old name. */
  lemma {:induction false} ChildIndexAppend(cs: seq<Node>, c: Node, name: string)
    ensures ChildIndex(cs + [c], name) == if ChildIndex(cs, name) >= 0 then ChildIndex(cs, name)
                                         else if c.name == name then |cs| else -1
  {
    if cs == [] {
      assert cs + [c] == [c] && [c][1..] == [];
    } else if cs[0].name != name {
      assert (cs + [c])[1..] == cs[1..] + [c];
      ChildIndexAppend(cs[1..], c, name);
    }
  }

  /** Writing `c` into the directory at `p`, where no entry of that name
      exists yet, makes `p + [c.name]` lead to `c` and keeps `p` a directory. */
  lemma {:induction false} AddChildWrites(root: Node, p: Path, c: Node)
    requires IsDir(root, p) && !Exists(root, p + [c.name])
    ensures Find(AddChild(root, p, c), p + [c.name]) == Some(c)
    ensures IsDir(AddChild(root, p, c), p)
    decreases |p|
  {
    var r := AddChild(root, p, c);
    FindAppend(root, p, c.name);
    FindAppend(r, p, c.name);
    if p == [] {
      ChildIndexAppend(root.children, c, c.name);
    } else {
      var i := ChildIndex(root.children, p[0]);
      var sub := root.children[i];
      assert Find(root, p) == Find(sub, p[1..]);
      FindAppend(sub, p[1..], c.name);
      AddChildWrites(sub, p[1..], c);
      ChildIndexSameNames(root.children, i, AddChild(sub, p[1..], c), p[0]);
      assert Find(r, p) == Find(AddChild(sub, p[1..], c), p[1..]);
      FindAppend(AddChild(sub, p[1..], c), p[1..], c.name);
    }
  }

  /** Writing `c` into the directory at `p` changes no lookup of another name
      in that directory. */
  lemma {:induction false} AddChildKeeps(root: Node, p: Path, c: Node, name: string)
    requires IsDir(root, p) && name != c.name
    ensures Find(AddChild(root, p, c), p + [name]) == Find(root, p + [name])
    decreases |p|
  {
    var r := AddChild(root, p, c);
    FindAppend(root, p, name);
    FindAppend(r, p, name);
    if p == [] {
      ChildIndexAppend(root.children, c, name);
    } else {
      var i := ChildIndex(root.children, p[0]);
      var sub := root.children[i];
      assert Find(root, p) == Find(sub, p[1..]);
      FindAppend(sub, p[1..], name);
      AddChildKeeps(sub, p[1..], c, name);
      ChildIndexSameNames(root.children, i, AddChild(sub, p[1..], c), p[0]);
      assert Find(r, p) == Find(AddChild(sub, p[1..], c), p[1..]);
      FindAppend(AddChild(sub, p[1..], c), p[1..], name);
    }
  }

  /** Only a directory has entries: whatever exists at `p + [name]` lies in a
      directory at `p`. */
  lemma ParentIsDir(root: Node, p: Path, name: string)
    requires Exists(root, p + [name])
    ensures IsDir(root, p)
  {
    FindAppend(root, p, name);
  }

  /** The chain of new directories `os.makedirs` creates for the missing
      names `p`, stamped with the current time. */
  function NewDirs(p: Path, now: int): (r: Node)
    requires p != []
    ensures r.Dir? && r.name == p[0]
    decreases |p|
  {
    Dir(p[0], Some(now), true, if |p| == 1 then [] else [NewDirs(p[1..], now)])
  }

  lemma {:induction false} NewDirsIsDir(p: Path, now: int)
    requires p != []
    ensures IsDir(NewDirs(p, now), p[1..])
    decreases |p|
  {
    if |p| > 1 {
      NewDirsIsDir(p[1..], now);
      assert ChildIndex([NewDirs(p[1..], now)], p[1]) == 0;
    }
  }

  /** `os.makedirs(p, exist_ok=True)` run from the directory `n`: the tree
      with every missing directory on `p` created, or None when a file stands
      where a directory is needed (the call raises). */
  function MakeDirs(n: Node, p: Path, now: int): (r: Option<Node>)
    ensures r.Some? ==> r.value.Dir? && r.value.name == n.name
    decreases |p|
  {
    if n.File? then None
    else if p == [] then Some(n)
    else
      var i := ChildIndex(n.children, p[0]);
      if i < 0 then Some(n.(children := n.children + [NewDirs(p, now)]))
      else match MakeDirs(n.children[i], p[1..], now)
        case None => None
        case Some(c) => Some(n.(children := n.children[i := c]))
  }

  /** `os.makedirs` leaves an existing directory unchanged. */
  lemma {:induction false} MakeDirsExisting(n: Node, p: Path, now: int)
    requires IsDir(n, p)
    ensures MakeDirs(n, p, now) == Some(n)
    decreases |p|
  {
    if p != [] {
      var i := ChildIndex(n.children, p[0]);
      MakeDirsExisting(n.children[i], p[1..], now);
      assert n.children[i := n.children[i]] == n.children;
    }
  }

  /** After a successful `os.makedirs`, the path is a directory. */
  lemma {:induction false} MakeDirsMakes(n: Node, p: Path, now: int)
    requires MakeDirs(n, p, now).Some?
    ensures IsDir(MakeDirs(n, p, now).value, p)
    decreases |p|
  {
    if p != [] {
      var m := MakeDirs(n, p, now).value;
      var i := ChildIndex(n.children, p[0]);
      if i < 0 {
        ChildIndexAppend(n.children, NewDirs(p, now), p[0]);
        NewDirsIsDir(p, now);
      } else {
        var c := MakeDirs(n.children[i], p[1..], now).value;
        MakeDirsMakes(n.children[i], p[1..], now);
        ChildIndexSameNames(n.children, i, c, p[0]);
      }
    }
  }

  /** `os.makedirs` only adds directories: every path that existed still
      leads somewhere, a file stays the same file, and a directory stays a
      directory with the same name, creation time and permissions. */
  lemma {:induction false} MakeDirsKeeps(n: Node, p: Path, now: int, q: Path)
    requires MakeDirs(n, p, now).Some? && Exists(n, q)
    ensures var m := MakeDirs(n, p, now).value;
      && Exists(m, q)
      && (IsFile(n, q) ==> Find(m, q) == Find(n, q))
      && (IsDir(n, q) ==> IsDir(m, q) && Find(m, q).value == Find(n, q).value.(children := Find(m, q).value.children))
    decreases |q|
  {
    var m := MakeDirs(n, p, now).value;
    if q != [] && p != [] {
      var i := ChildIndex(n.children, p[0]);
      var j := ChildIndex(n.children, q[0]);
      if i < 0 {
        ChildIndexAppend(n.children, NewDirs(p, now), q[0]);
      } else {
        var c := MakeDirs(n.children[i], p[1..], now).value;
        ChildIndexSameNames(n.children, i, c, q[0]);
        if j == i {
          MakeDirsKeeps(n.children[i], p[1..], now, q[1..]);
        }
      }
    }
  }

  /** `os.makedirs` raises exactly when some prefix of the path, the path
      itself included, is a file. */
  lemma {:induction false} MakeDirsFails(n: Node, p: Path, now: int)
    requires n.Dir?
    ensures MakeDirs(n, p, now).None? <==> exists k :: 0 <= k <= |p| && IsFile(n, p[..k])
    decreases |p|
  {
    if p == [] {
      assert forall k :: 0 <= k <= |p| ==> p[..k] == [];
    } else {
      var i := ChildIndex(n.children, p[0]);
      assert forall k :: 1 <= k <= |p| ==> p[..k][0] == p[0] && p[..k][1..] == p[1..][..k - 1];
      if i < 0 {
        assert forall k :: 1 <= k <= |p| ==> Find(n, p[..k]).None?;
        assert p[..0] == [];
      } else {
        var c := n.children[i];
        assert forall k :: 1 <= k <= |p| ==> Find(n, p[..k]) == Find(c, p[1..][..k - 1]);
        assert p[..0] == [];
        if c.File? {
          assert IsFile(n, p[..1]) by { assert p[1..][..0] == []; }
        } else {
          MakeDirsFails(c, p[1..], now);
          if exists k :: 0 <= k <= |p| - 1 && IsFile(c, p[1..][..k]) {
            var k :| 0 <= k <= |p| - 1 && IsFile(c, p[1..][..k]);
            assert IsFile(n, p[..k + 1]);
          }
        }
      }
    }
  }
}
