/** The filesystem as the mutable state behind the `fs` calls: one object whose
    tree each system call replaces by the call's outcome. */
module FileSystems {
  import opened Results
  import opened FsTree
  import opened FsOps
  import opened FsEdit

  /** The outcome of a mutating call: the new tree on success; the errno and
      the unchanged tree on failure. */
  function Commit(n: Node, res: Result<Node>): (Result<()>, Node) {
    match res
    case Ok(t) => (Ok(()), t)
    case Err(e) => (Err(e), n)
  }

  class FileSystem {
    var root: Node

    ghost predicate Valid()
      reads this
    {
      FsTree.Valid(root) && root.Dir?
    }

    constructor (n: Node)
      requires FsTree.Valid(n) && n.Dir?
      ensures Valid() && root == n
    {
      root := n;
    }

    /** `statSync(p)`: the kind is looked up again on every call. */
    function Stat(p: Path): Kind
      reads this
    {
      KindAt(root, p)
    }

    method Mkdir(p: Path) returns (r: Result<()>)
      requires Valid()
      modifies this
      ensures Valid()
      ensures (r, root) == Commit(old(root), MkdirP(old(root), p))
    {
      var res := MkdirP(root, p);
      if res.Ok? {
        MkdirPEffect(root, p);
      }
      r, root := Commit(root, res).0, Commit(root, res).1;
    }

    method WriteFile(p: Path, content: string, append: bool) returns (r: Result<()>)
      requires Valid()
      modifies this
      ensures Valid()
      ensures (r, root) == Commit(old(root), FsOps.WriteFile(old(root), p, content, append))
    {
      var res := FsOps.WriteFile(root, p, content, append);
      if res.Ok? {
        WriteFileEffect(root, p, content, append);
      }
      r, root := Commit(root, res).0, Commit(root, res).1;
    }

    method ReadFile(p: Path) returns (r: Result<string>)
      ensures r == FsOps.ReadFile(root, p)
    {
      r := FsOps.ReadFile(root, p);
    }

    method ReadDir(p: Path) returns (r: Result<seq<Segment>>)
      ensures r == FsOps.ReadDir(root, p)
    {
      r := FsOps.ReadDir(root, p);
    }

    method Unlink(p: Path) returns (r: Result<()>)
      requires Valid()
      modifies this
      ensures Valid()
      ensures (r, root) == Commit(old(root), FsOps.Unlink(old(root), p))
    {
      var res := FsOps.Unlink(root, p);
      UnlinkOutcome(root, p);
      if res.Ok? {
        assert p != [];
        ValidDelete(root, p);
      }
      r, root := Commit(root, res).0, Commit(root, res).1;
    }

    method RemoveTree(p: Path) returns (r: Result<()>)
      requires Valid()
      modifies this
      ensures Valid()
      ensures (r, root) == Commit(old(root), FsOps.RemoveTree(old(root), p))
    {
      var res := FsOps.RemoveTree(root, p);
      RemoveTreeOutcome(root, p);
      if res.Ok? {
        ValidDelete(root, p);
      }
      r, root := Commit(root, res).0, Commit(root, res).1;
    }

    method Rename(src: Path, dst: Path) returns (r: Result<()>)
      requires Valid()
      modifies this
      ensures Valid()
      ensures (r, root) == Commit(old(root), FsOps.Rename(old(root), src, dst))
    {
      var res := FsOps.Rename(root, src, dst);
      if res.Ok? {
        RenameEffect(root, src, dst);
      }
      r, root := Commit(root, res).0, Commit(root, res).1;
    }
  }
}
