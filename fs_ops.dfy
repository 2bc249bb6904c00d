/** The system calls the entity layer makes, as functions from the tree before
    the call to the tree after it (or the errno, with the tree unchanged). */
module FsOps {
  import opened Results
  import opened FsTree
  import opened FsEdit

  /** No prefix of `p`, `p` included, is a file. */
  ghost predicate OpenPath(n: Node, p: Path) {
    forall q :: q <= p ==> KindAt(n, q) != FileKind
  }

  /** `mkdirSync(p, {recursive: true})`: an existing directory is left alone,
      every missing directory on the way is created, and a file on the way
      stops it. */
  function MkdirP(n: Node, p: Path): Result<Node>
    decreases |p|
  {
    if p == [] then Ok(n)
    else match KindAt(n, p)
      case DirKind => Ok(n)
      case FileKind => Err(AlreadyExists)
      case Missing =>
        match MkdirP(n, Parent(p))
        case Err(e) => Err(if e == AlreadyExists then NotADirectory else e)
        case Ok(n') => Ok(Put(n', p, Dir([])))
  }

  /** `writeFileSync(p, content, {flag})`: flag "w" replaces, flag "a" appends;
      a missing file is created when its parent directory exists. */
  function WriteFile(n: Node, p: Path, content: string, append: bool): Result<Node> {
    match Walk(n, p)
    case Ok(Dir(_)) => Err(IsADirectory)
    case Ok(File(c)) => Ok(Put(n, p, File(if append then c + content else content)))
    case Err(e) =>
      if e == NotFound && p != [] && KindAt(n, Parent(p)) == DirKind then Ok(Put(n, p, File(content)))
      else Err(e)
  }

  /** `readFileSync(p)`. */
  function ReadFile(n: Node, p: Path): (r: Result<string>)
    ensures r.Ok? <==> KindAt(n, p) == FileKind
    ensures r.Ok? ==> Lookup(n, p) == Some(File(r.value))
  {
    match Walk(n, p)
    case Ok(File(c)) => Ok(c)
    case Ok(Dir(_)) => Err(IsADirectory)
    case Err(e) => Err(e)
  }

  /** `readdirSync(p)`: the entry names in directory order. */
  function ReadDir(n: Node, p: Path): (r: Result<seq<Segment>>)
    ensures r.Ok? <==> KindAt(n, p) == DirKind
    ensures r.Ok? ==> Lookup(n, p).value.Dir? && r.value == Names(Lookup(n, p).value.entries)
  {
    match Walk(n, p)
    case Ok(Dir(es)) => Ok(Names(es))
    case Ok(File(_)) => Err(NotADirectory)
    case Err(e) => Err(e)
  }

  /** `unlinkSync(p)`. */
  function Unlink(n: Node, p: Path): Result<Node> {
    match Walk(n, p)
    case Ok(File(_)) => Ok(Delete(n, p))
    case Ok(Dir(_)) => Err(IsADirectory)
    case Err(e) => Err(e)
  }

  /** `rmdirSync(p, {recursive: true})`: the whole subtree goes; a file or a
      missing path is an error, and the root cannot be removed. */
  function RemoveTree(n: Node, p: Path): Result<Node> {
    match Walk(n, p)
    case Ok(Dir(_)) => if p == [] then Err(Busy) else Ok(Delete(n, p))
    case Ok(File(_)) => Err(NotADirectory)
    case Err(e) => Err(e)
  }

  /** May the node `m` replace what `dst` currently names? */
  predicate Replaceable(m: Node, d: Option<Node>) {
    match d
    case None => true
    case Some(File(_)) => m.File?
    case Some(Dir(es)) => m.Dir? && es == []
  }

  /** `renameSync(src, dst)`, following rename(2). */
  function Rename(n: Node, src: Path, dst: Path): Result<Node> {
    match Walk(n, src)
    case Err(e) => Err(e)
    case Ok(m) =>
      if src == [] || dst == [] then Err(Busy)
      else match Walk(n, Parent(dst))
        case Err(e) => Err(e)
        case Ok(File(_)) => Err(NotADirectory)
        case Ok(Dir(_)) =>
          if src == dst then Ok(n)
          else if src < dst then Err(InvalidMove)
          else match Lookup(n, dst)
            case None => Ok(Put(Delete(n, src), dst, m))
            case Some(d) =>
              if m.File? && d.Dir? then Err(IsADirectory)
              else if m.Dir? && d.File? then Err(NotADirectory)
              else if m.Dir? && d.entries != [] then Err(NotEmpty)
              else Ok(Put(Delete(n, src), dst, m))
  }

  // ---- small tree facts ----

  lemma MissingBelow(n: Node, p: Path, q: Path)
    requires Lookup(n, p) == None && p <= q
    ensures Lookup(n, q) == None
  {
    assert q == p + q[|p|..];
    LookupConcat(n, p, q[|p|..]);
  }

  lemma AncestorNonEmpty(n: Node, p: Path, q: Path)
    requires Lookup(n, p).Some? && q < p
    ensures Lookup(n, q).Some? && Lookup(n, q).value.Dir? && Lookup(n, q).value.entries != []
  {
    AncestorIsDir(n, p, q);
    var x := p[|q|];
    assert q + [x] <= p;
    if Lookup(n, q + [x]) == None {
      MissingBelow(n, q + [x], p);
    }
    LookupChild(n, q, x);
  }

  // ---- mkdir -p ----

  lemma {:induction false} MkdirPOutcome(n: Node, p: Path)
    requires n.Dir?
    ensures MkdirP(n, p).Ok? <==> OpenPath(n, p)
    ensures MkdirP(n, p).Err? ==>
      MkdirP(n, p).error == (if KindAt(n, p) == FileKind then AlreadyExists else NotADirectory)
    decreases |p|
  {
    if p == [] {
      forall q | q <= p ensures KindAt(n, q) != FileKind {
        assert q == [];
      }
    } else {
      match KindAt(n, p)
      case DirKind =>
        forall q | q <= p ensures KindAt(n, q) != FileKind {
          if q != p { AncestorIsDir(n, p, q); }
        }
      case FileKind =>
      case Missing =>
        MkdirPOutcome(n, Parent(p));
        if OpenPath(n, Parent(p)) {
          forall q | q <= p ensures KindAt(n, q) != FileKind {
            if q != p { assert q <= Parent(p); }
          }
        } else {
          var q :| q <= Parent(p) && KindAt(n, q) == FileKind;
          assert q <= p;
        }
    }
  }

  lemma {:induction false} MkdirPEffect(n: Node, p: Path)
    requires Valid(n) && n.Dir? && MkdirP(n, p).Ok?
    ensures Valid(MkdirP(n, p).value) && MkdirP(n, p).value.Dir?
    ensures forall q :: q <= p ==> KindAt(MkdirP(n, p).value, q) == DirKind
    ensures forall q :: !(q <= p) ==> Lookup(MkdirP(n, p).value, q) == Lookup(n, q)
    decreases |p|
  {
    var r := MkdirP(n, p).value;
    if p == [] {
      forall q | q <= p ensures KindAt(r, q) == DirKind {
        assert q == [];
      }
    } else if KindAt(n, p) == DirKind {
      forall q | q <= p ensures KindAt(r, q) == DirKind {
        if q != p { AncestorIsDir(n, p, q); }
      }
    } else {
      var n' := MkdirP(n, Parent(p)).value;
      MkdirPEffect(n, Parent(p));
      assert KindAt(n', Parent(p)) == DirKind;
      ValidPut(n', p, Dir([]));
      forall q ensures q <= p ==> KindAt(r, q) == DirKind {
        LookupPut(n', p, Dir([]), q);
        if q == p {
          assert q[|p|..] == [];
        }
      }
      forall q | !(q <= p) ensures Lookup(r, q) == Lookup(n, q) {
        LookupPut(n', p, Dir([]), q);
        if p <= q {
          assert q[|p|..] != [];
          assert !(p <= Parent(p));
          MissingBelow(n, p, q);
        } else {
          assert !(q <= Parent(p));
        }
      }
    }
  }

  lemma MkdirPExisting(n: Node, p: Path)
    requires KindAt(n, p) == DirKind
    ensures MkdirP(n, p) == Ok(n)
  {
  }

  // ---- write, unlink, remove ----

  lemma WriteFileOutcome(n: Node, p: Path, content: string, append: bool)
    requires Valid(n) && n.Dir?
    ensures WriteFile(n, p, content, append).Ok? <==>
      KindAt(n, p) == FileKind || (KindAt(n, p) == Missing && p != [] && KindAt(n, Parent(p)) == DirKind)
    ensures WriteFile(n, p, content, append) == Err(IsADirectory) <==> KindAt(n, p) == DirKind
  {
    if p != [] && KindAt(n, p) == Missing && KindAt(n, Parent(p)) == DirKind {
      WalkMissingChild(n, p);
    }
  }

  lemma WriteFileEffect(n: Node, p: Path, content: string, append: bool)
    requires Valid(n) && n.Dir? && WriteFile(n, p, content, append).Ok?
    ensures Valid(WriteFile(n, p, content, append).value) && WriteFile(n, p, content, append).value.Dir?
    ensures Lookup(WriteFile(n, p, content, append).value, p) ==
      Some(File(if append && Lookup(n, p).Some? then Lookup(n, p).value.content + content else content))
    ensures forall q :: q < p ==> KindAt(WriteFile(n, p, content, append).value, q) == DirKind
    ensures forall q :: q != p && !(q < p) ==> Lookup(WriteFile(n, p, content, append).value, q) == Lookup(n, q)
  {
    var r := WriteFile(n, p, content, append).value;
    var m := File(if append && Lookup(n, p).Some? then Lookup(n, p).value.content + content else content);
    assert p != [];
    if Lookup(n, p).Some? {
      AncestorIsDir(n, p, Parent(p));
    }
    assert r == Put(n, p, m);
    ValidPut(n, p, m);
    forall q ensures q < p ==> KindAt(r, q) == DirKind {
      LookupPut(n, p, m, q);
    }
    forall q ensures q != p && !(q < p) ==> Lookup(r, q) == Lookup(n, q) {
      LookupPut(n, p, m, q);
      if p <= q && q != p {
        assert q[|p|..] != [];
        if Lookup(n, p) == None {
          MissingBelow(n, p, q);
        } else {
          LookupConcat(n, p, q[|p|..]);
          assert q == p + q[|p|..];
        }
      }
    }
    LookupPut(n, p, m, p);
    assert p[|p|..] == [];
  }

  lemma UnlinkOutcome(n: Node, p: Path)
    requires Valid(n) && n.Dir?
    ensures Unlink(n, p).Ok? <==> KindAt(n, p) == FileKind
    ensures Unlink(n, p).Ok? ==> Valid(Unlink(n, p).value) && KindAt(Unlink(n, p).value, p) == Missing
    ensures Unlink(n, p).Ok? ==> forall q :: q < p ==> KindAt(Unlink(n, p).value, q) == KindAt(n, q)
    ensures Unlink(n, p).Ok? ==> forall q :: q != p && !(q < p) ==> Lookup(Unlink(n, p).value, q) == Lookup(n, q)
  {
    if Unlink(n, p).Ok? {
      var r := Unlink(n, p).value;
      ValidDelete(n, p);
      LookupDelete(n, p, p);
      forall q ensures q != p && !(q < p) ==> Lookup(r, q) == Lookup(n, q) {
        LookupDelete(n, p, q);
        if p <= q && q != p {
          LookupConcat(n, p, q[|p|..]);
          assert q == p + q[|p|..];
        }
      }
      forall q ensures q < p ==> KindAt(r, q) == KindAt(n, q) {
        LookupDelete(n, p, q);
      }
    }
  }

  lemma RemoveTreeOutcome(n: Node, p: Path)
    requires Valid(n) && n.Dir?
    ensures RemoveTree(n, p).Ok? <==> p != [] && KindAt(n, p) == DirKind
    ensures RemoveTree(n, p).Ok? ==> Valid(RemoveTree(n, p).value)
    ensures RemoveTree(n, p).Ok? ==> forall q :: p <= q ==> Lookup(RemoveTree(n, p).value, q) == None
    ensures RemoveTree(n, p).Ok? ==> forall q :: q < p ==> KindAt(RemoveTree(n, p).value, q) == KindAt(n, q)
    ensures RemoveTree(n, p).Ok? ==> forall q :: !(p <= q) && !(q < p) ==> Lookup(RemoveTree(n, p).value, q) == Lookup(n, q)
  {
    if RemoveTree(n, p).Ok? {
      var r := RemoveTree(n, p).value;
      ValidDelete(n, p);
      forall q ensures p <= q ==> Lookup(r, q) == None {
        LookupDelete(n, p, q);
      }
      forall q ensures q < p ==> KindAt(r, q) == KindAt(n, q) {
        LookupDelete(n, p, q);
      }
      forall q ensures !(p <= q) && !(q < p) ==> Lookup(r, q) == Lookup(n, q) {
        LookupDelete(n, p, q);
      }
    }
  }

  // ---- rename ----

  /** When a rename succeeds: the call is a no-op for `src == dst`; otherwise
      `src` is gone, `dst` holds the very subtree `src` held, the ancestors of
      both are directories, and everything else is untouched. */
  lemma RenameEffect(n: Node, src: Path, dst: Path)
    requires Valid(n) && Rename(n, src, dst).Ok?
    ensures src == dst ==> Rename(n, src, dst).value == n
    ensures Valid(Rename(n, src, dst).value)
    ensures src != dst ==> KindAt(Rename(n, src, dst).value, src) == Missing
    ensures forall s :: Lookup(Rename(n, src, dst).value, dst + s) == Lookup(n, src + s)
    ensures forall q :: q < dst ==> KindAt(Rename(n, src, dst).value, q) == DirKind
    ensures forall q :: q < src ==> KindAt(Rename(n, src, dst).value, q) == DirKind
    ensures forall q :: !(src <= q) && !(dst <= q) && !(q < src) && !(q < dst) ==>
      Lookup(Rename(n, src, dst).value, q) == Lookup(n, q)
  {
    var r := Rename(n, src, dst).value;
    var m := Lookup(n, src).value;
    if src == dst {
      forall q | q < dst ensures KindAt(r, q) == DirKind {
        AncestorIsDir(n, src, q);
      }
    } else {
      var d0 := Delete(n, src);
      assert r == Put(d0, dst, m);
      assert !(src <= Parent(dst));
      LookupDelete(n, src, Parent(dst));
      ValidDelete(n, src);
      LookupValid(n, src);
      ValidPut(d0, dst, m);
      if dst < src {
        AncestorNonEmpty(n, src, dst);
        assert false;
      }
      LookupPut(d0, dst, m, src);
      LookupDelete(n, src, src);
      forall s ensures Lookup(r, dst + s) == Lookup(n, src + s) {
        LookupPut(d0, dst, m, dst + s);
        assert (dst + s)[|dst|..] == s;
        LookupConcat(n, src, s);
      }
      forall q | q < dst ensures KindAt(r, q) == DirKind {
        LookupPut(d0, dst, m, q);
      }
      forall q | q < src ensures KindAt(r, q) == DirKind {
        AncestorIsDir(n, src, q);
        LookupPut(d0, dst, m, q);
        LookupDelete(n, src, q);
      }
      forall q | !(src <= q) && !(dst <= q) && !(q < src) && !(q < dst)
        ensures Lookup(r, q) == Lookup(n, q)
      {
        LookupPut(d0, dst, m, q);
        LookupDelete(n, src, q);
      }
    }
  }

  /** Exactly when a rename succeeds. */
  lemma RenameOutcome(n: Node, src: Path, dst: Path)
    requires Valid(n)
    ensures Rename(n, src, dst).Ok? <==>
      Lookup(n, src).Some? && src != [] && dst != [] && KindAt(n, Parent(dst)) == DirKind
      && (src == dst || (!(src < dst) && Replaceable(Lookup(n, src).value, Lookup(n, dst))))
  {
  }
}
