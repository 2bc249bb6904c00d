/** The entity layer: `Base`, `File`, `Json` and `Dir` over a `FileSystem`.
    An entity keeps only the path parts it was built from; every kind test,
    listing and read asks the filesystem again. The methods of the compiled
    snapshot and of the legacy entry point that differ from the current ones
    sit beside them. */
module Entities {
  import opened Results
  import opened SeqFacts
  import opened FsTree
  import opened FsOps
  import opened FileSystems
  import opened Listing
  import opened Paths
  import opened JsonExport
  import opened LineVisitors
  import opened Utils
  import opened DistUtils
  import opened EntityOps

  class Base {
    var originData: seq<PathArg>

    constructor (paths: seq<PathArg>)
      ensures originData == paths
    {
      originData := paths;
    }

    /** `path`: the stored parts, resolved. */
    function FullPath(): Path
      reads this
    {
      Resolve(originData)
    }

    predicate IsFile(sys: FileSystem)
      reads this, sys
    {
      sys.Stat(FullPath()) == FileKind
    }

    predicate IsDir(sys: FileSystem)
      reads this, sys
    {
      sys.Stat(FullPath()) == DirKind
    }

    /** `parent`: an entity for the directory part of the path. */
    method Parent() returns (b: Base)
      ensures b.originData == [Abs(Dirname(FullPath()))]
      ensures b.FullPath() == Dirname(FullPath()) && (FullPath() != [] ==> b.FullPath() < FullPath())
    {
      ResolveSingle(Dirname(FullPath()));
      b := new Base([Abs(Dirname(FullPath()))]);
    }

    /** `childOf(...names)`: the path extended by the names. */
    method ChildOf(names: seq<Segment>) returns (b: Base)
      ensures b.originData == [Abs(Join(FullPath(), names))]
      ensures FullPath() <= b.FullPath() && b.FullPath()[|FullPath()|..] == names
    {
      ResolveSingle(Join(FullPath(), names));
      b := new Base([Abs(Join(FullPath(), names))]);
    }

    /** `siblingOf(...names)`: the directory part extended by the names. */
    method SiblingOf(names: seq<Segment>) returns (b: Base)
      ensures b.originData == [Abs(Join(Dirname(FullPath()), names))]
      ensures b.FullPath() == Dirname(FullPath()) + names
    {
      ResolveSingle(Join(Dirname(FullPath()), names));
      b := new Base([Abs(Join(Dirname(FullPath()), names))]);
    }

    /** `sibling(name)` of the compiled snapshot: one name only. */
    method Sibling(name: Segment) returns (b: Base)
      ensures b.originData == [Abs(Join(Dirname(FullPath()), [name]))]
      ensures FullPath() != [] ==> Dirname(b.FullPath()) == Dirname(FullPath()) && Basename(b.FullPath()) == name
    {
      b := SiblingOf([name]);
    }

    /** `asFile()`: guarded by the `File` constructor. */
    method AsFile(sys: FileSystem) returns (r: Result<File>)
      ensures r.Ok? <==> IsFile(sys)
      ensures r.Ok? ==> r.value.originData == [Abs(FullPath())] && r.value.FullPath() == FullPath()
      ensures r.Err? ==> r.error == KindMismatch
    {
      ResolveSingle(FullPath());
      r := File.New(sys, [Abs(FullPath())]);
    }

    /** `asDir()`: guarded by the `Dir` constructor. */
    method AsDir(sys: FileSystem) returns (r: Result<Dir>)
      ensures r.Ok? <==> IsDir(sys)
      ensures r.Ok? ==> r.value.originData == [Abs(FullPath())] && r.value.FullPath() == FullPath()
      ensures r.Err? ==> r.error == KindMismatch
    {
      ResolveSingle(FullPath());
      r := Dir.New(sys, [Abs(FullPath())]);
    }

    /** `createAsDir()`: `mkdir -p` unless the path is already a directory,
        then a `Dir` for it. */
    method CreateAsDir(sys: FileSystem) returns (r: Result<Dir>)
      requires sys.Valid()
      modifies sys
      ensures sys.Valid()
      ensures (Status(r), sys.root) == Commit(old(sys.root), MkdirP(old(sys.root), FullPath()))
      ensures r.Ok? ==> r.value.FullPath() == FullPath()
    {
      var p := FullPath();
      if !IsDir(sys) {
        ghost var n0 := sys.root;
        var m := sys.Mkdir(p);
        if m.Err? {
          return Err(m.error);
        }
        MkdirPEffect(n0, p);
      } else {
        MkdirPExisting(sys.root, p);
      }
      ResolveSingle(p);
      r := Dir.New(sys, [Abs(p)]);
    }

    /** `createAsFile()`: the parent chain as directories, then an append of
        nothing, then a `File` for the path. */
    method CreateAsFile(sys: FileSystem) returns (r: Result<File>)
      requires sys.Valid()
      modifies sys
      ensures sys.Valid()
      ensures (Status(r), sys.root) == CreateFileSteps(old(sys.root), FullPath())
      ensures r.Ok? ==> r.value.FullPath() == FullPath()
    {
      var p := FullPath();
      ghost var n0 := sys.root;
      var par := Parent();
      var d := par.CreateAsDir(sys);
      if d.Err? {
        return Err(d.error);
      }
      ghost var n1 := sys.root;
      var w := sys.WriteFile(p, "", true);
      if w.Err? {
        return Err(w.error);
      }
      WriteFileEffect(n1, p, "", true);
      ResolveSingle(p);
      r := File.New(sys, [Abs(p)]);
    }
  }

  class File {
    var originData: seq<PathArg>

    /** The `File` constructor: its `assert` is the precondition. */
    constructor (sys: FileSystem, paths: seq<PathArg>)
      requires sys.Stat(Resolve(paths)) == FileKind
      ensures originData == paths
    {
      originData := paths;
    }

    /** `new File(...paths)` where the failed `assert` is an error value: a
        `File` exists only over a path that is a file right now. */
    static method New(sys: FileSystem, paths: seq<PathArg>) returns (r: Result<File>)
      ensures r.Ok? <==> sys.Stat(Resolve(paths)) == FileKind
      ensures r.Ok? ==> r.value.originData == paths
      ensures r.Err? ==> r.error == KindMismatch
    {
      if sys.Stat(Resolve(paths)) == FileKind {
        var f := new File(sys, paths);
        return Ok(f);
      }
      return Err(KindMismatch);
    }

    function FullPath(): Path
      reads this
    {
      Resolve(originData)
    }

    /** `parent`: a `Dir` for the directory part. */
    method Parent(sys: FileSystem) returns (r: Result<Dir>)
      ensures r.Ok? <==> sys.Stat(Dirname(FullPath())) == DirKind
      ensures r.Ok? ==> r.value.FullPath() == Dirname(FullPath())
    {
      ResolveSingle(Dirname(FullPath()));
      r := Dir.New(sys, [Abs(Dirname(FullPath()))]);
    }

    /** `read()`. */
    method Read(sys: FileSystem) returns (r: Result<string>)
      ensures r == FsOps.ReadFile(sys.root, FullPath())
    {
      r := sys.ReadFile(FullPath());
    }

    /** `write(content)`: flag "w". */
    method Write(sys: FileSystem, content: string) returns (r: Result<File>)
      requires sys.Valid()
      modifies sys
      ensures sys.Valid()
      ensures (Status(r), sys.root) == Commit(old(sys.root), FsOps.WriteFile(old(sys.root), FullPath(), content, false))
      ensures r.Ok? ==> r.value == this
    {
      var w := sys.WriteFile(FullPath(), content, false);
      if w.Err? {
        return Err(w.error);
      }
      return Ok(this);
    }

    /** `aWrite(content)`: flag "a". */
    method AWrite(sys: FileSystem, content: string) returns (r: Result<File>)
      requires sys.Valid()
      modifies sys
      ensures sys.Valid()
      ensures (Status(r), sys.root) == Commit(old(sys.root), FsOps.WriteFile(old(sys.root), FullPath(), content, true))
      ensures r.Ok? ==> r.value == this
    {
      var w := sys.WriteFile(FullPath(), content, true);
      if w.Err? {
        return Err(w.error);
      }
      return Ok(this);
    }

    /** `handleLineByLine(func)`: the file's lines, visited until `close`. A
        file that cannot be read rejects the promise. */
    method HandleLineByLine(sys: FileSystem, visit: (string, nat) -> Visit) returns (r: Result<Run>)
      ensures FsOps.ReadFile(sys.root, FullPath()).Err? ==> r == Err(FsOps.ReadFile(sys.root, FullPath()).error)
      ensures FsOps.ReadFile(sys.root, FullPath()).Ok? ==>
        r.Ok? && IsLineByLineRun(SplitLines(FsOps.ReadFile(sys.root, FullPath()).value), visit, r.value)
    {
      var content := sys.ReadFile(FullPath());
      if content.Err? {
        return Err(content.error);
      }
      var run := VisitLines(SplitLines(content.value), visit);
      return Ok(run);
    }

    /** `handleEveryLine(func)`: every line of the file. */
    method HandleEveryLine(sys: FileSystem, visit: (string, nat) -> Option<string>) returns (r: Result<Run>)
      ensures FsOps.ReadFile(sys.root, FullPath()).Err? ==> r == Err(FsOps.ReadFile(sys.root, FullPath()).error)
      ensures FsOps.ReadFile(sys.root, FullPath()).Ok? ==>
        r.Ok? && IsEveryLineRun(SplitLines(FsOps.ReadFile(sys.root, FullPath()).value), visit, r.value)
    {
      var content := sys.ReadFile(FullPath());
      if content.Err? {
        return Err(content.error);
      }
      var run := VisitEveryLine(SplitLines(content.value), visit);
      return Ok(run);
    }

    /** `moveTo(...paths)`: the destination's parent chain, the rename, and
        then the entity's own parts, which only a successful move replaces. */
    method MoveTo(sys: FileSystem, paths: seq<PathArg>) returns (r: Result<File>)
      requires sys.Valid()
      modifies this, sys
      ensures sys.Valid()
      ensures (Status(r), sys.root) == MoveSteps(old(sys.root), old(FullPath()), Resolve(paths))
      ensures originData == if r.Ok? then paths else old(originData)
      ensures r.Ok? ==> r.value == this
    {
      var newBase := new Base(paths);
      var par := newBase.Parent();
      var d := par.CreateAsDir(sys);
      if d.Err? {
        return Err(d.error);
      }
      var m := sys.Rename(FullPath(), newBase.FullPath());
      if m.Err? {
        return Err(m.error);
      }
      originData := paths;
      return Ok(this);
    }

    /** `moveTo(newPath)` of the compiled snapshot: one destination path, whose
        parent chain is created first. */
    method MoveToPath(sys: FileSystem, newPath: Path) returns (r: Result<File>)
      requires sys.Valid()
      modifies this, sys
      ensures sys.Valid()
      ensures (Status(r), sys.root) == MoveSteps(old(sys.root), old(FullPath()), newPath)
      ensures originData == if r.Ok? then [Abs(newPath)] else old(originData)
    {
      ResolveSingle(newPath);
      r := MoveTo(sys, [Abs(newPath)]);
    }

    /** `moveTo(newPath)` of the legacy entry point: a plain rename, so the
        destination's parent must already be a directory. */
    method MoveToWithoutParent(sys: FileSystem, newPath: Path) returns (r: Result<File>)
      requires sys.Valid()
      modifies this, sys
      ensures sys.Valid()
      ensures (Status(r), sys.root) == Commit(old(sys.root), Rename(old(sys.root), old(FullPath()), newPath))
      ensures originData == if r.Ok? then [Abs(newPath)] else old(originData)
    {
      var m := sys.Rename(FullPath(), newPath);
      if m.Err? {
        return Err(m.error);
      }
      originData := [Abs(newPath)];
      return Ok(this);
    }

    /** `remove()`: unlink, and a `Base` for the path that was removed. */
    method Remove(sys: FileSystem) returns (r: Result<Base>)
      requires sys.Valid()
      modifies sys
      ensures sys.Valid()
      ensures (Status(r), sys.root) == Commit(old(sys.root), Unlink(old(sys.root), FullPath()))
      ensures r.Ok? ==> r.value.originData == [Abs(FullPath())]
    {
      var u := sys.Unlink(FullPath());
      if u.Err? {
        return Err(u.error);
      }
      var b := new Base([Abs(FullPath())]);
      return Ok(b);
    }

    /** `toJsonData()`: a leaf whose name is the last segment. */
    function ToJsonData(): (j: JsonNode)
      reads this
      ensures j.FileJson? && ListedAt(j, Dirname(FullPath()), DirKind) == []
      ensures FullPath() != [] ==> ListedAt(j, Dirname(FullPath()), FileKind) == [FullPath()]
    {
      FileLeaf(FullPath())
    }
  }

  class Json {
    var originData: seq<PathArg>

    constructor (sys: FileSystem, paths: seq<PathArg>)
      requires sys.Stat(Resolve(paths)) == FileKind
      ensures originData == paths
    {
      originData := paths;
    }

    static method New(sys: FileSystem, paths: seq<PathArg>) returns (r: Result<Json>)
      ensures r.Ok? <==> sys.Stat(Resolve(paths)) == FileKind
      ensures r.Ok? ==> r.value.originData == paths
      ensures r.Err? ==> r.error == KindMismatch
    {
      if sys.Stat(Resolve(paths)) == FileKind {
        var j := new Json(sys, paths);
        return Ok(j);
      }
      return Err(KindMismatch);
    }

    function FullPath(): Path
      reads this
    {
      Resolve(originData)
    }

    /** `readSync()`: blank content is `null`, other content is decoded. */
    method ReadSync<V>(sys: FileSystem, parse: string -> Result<V>) returns (r: Result<Option<V>>)
      ensures FsOps.ReadFile(sys.root, FullPath()).Err? ==> r == Err(FsOps.ReadFile(sys.root, FullPath()).error)
      ensures FsOps.ReadFile(sys.root, FullPath()).Ok? ==> r == JsonDecode(FsOps.ReadFile(sys.root, FullPath()).value, parse)
    {
      var data := sys.ReadFile(FullPath());
      if data.Err? {
        return Err(data.error);
      }
      if IsBlank(data.value) {
        return Ok(None);
      }
      var v := parse(data.value);
      if v.Err? {
        return Err(v.error);
      }
      return Ok(Some(v.value));
    }

    /** `readSync()` of the legacy entry point: no blank check. */
    method ReadSyncStrict<V>(sys: FileSystem, parse: string -> Result<V>) returns (r: Result<V>)
      ensures FsOps.ReadFile(sys.root, FullPath()).Err? ==> r == Err(FsOps.ReadFile(sys.root, FullPath()).error)
      ensures FsOps.ReadFile(sys.root, FullPath()).Ok? ==> r == parse(FsOps.ReadFile(sys.root, FullPath()).value)
    {
      var data := sys.ReadFile(FullPath());
      if data.Err? {
        return Err(data.error);
      }
      r := parse(data.value);
    }

    /** `writeSync(data, space)`: text verbatim, any other value stringified;
        the file is replaced. */
    method WriteSync<V>(sys: FileSystem, data: JsonData<V>, stringify: (V, nat) -> string, space: nat) returns (r: Result<Json>)
      requires sys.Valid()
      modifies sys
      ensures sys.Valid()
      ensures (Status(r), sys.root) ==
        Commit(old(sys.root), FsOps.WriteFile(old(sys.root), FullPath(), Rendered(data, stringify, space), false))
      ensures r.Ok? ==> r.value == this
    {
      var str := "";
      match data {
        case Text(s) => str := s;
        case Value(v) => str := stringify(v, space);
      }
      var w := sys.WriteFile(FullPath(), str, false);
      if w.Err? {
        return Err(w.error);
      }
      return Ok(this);
    }
  }

  class Dir {
    var originData: seq<PathArg>

    /** The `Dir` constructor: its `assert` is the precondition. */
    constructor (sys: FileSystem, paths: seq<PathArg>)
      requires sys.Stat(Resolve(paths)) == DirKind
      ensures originData == paths
    {
      originData := paths;
    }

    /** `new Dir(...paths)`: a `Dir` exists only over a path that is a
        directory right now. */
    static method New(sys: FileSystem, paths: seq<PathArg>) returns (r: Result<Dir>)
      ensures r.Ok? <==> sys.Stat(Resolve(paths)) == DirKind
      ensures r.Ok? ==> r.value.originData == paths
      ensures r.Err? ==> r.error == KindMismatch
    {
      if sys.Stat(Resolve(paths)) == DirKind {
        var d := new Dir(sys, paths);
        return Ok(d);
      }
      return Err(KindMismatch);
    }

    function FullPath(): Path
      reads this
    {
      Resolve(originData)
    }

    /** `parent`: a `Dir` for the directory part. */
    method Parent(sys: FileSystem) returns (r: Result<Dir>)
      ensures r.Ok? <==> sys.Stat(Dirname(FullPath())) == DirKind
      ensures r.Ok? ==> r.value.FullPath() == Dirname(FullPath())
    {
      ResolveSingle(Dirname(FullPath()));
      r := Dir.New(sys, [Abs(Dirname(FullPath()))]);
    }

    /** `rawChildren`: the names in directory order. */
    method RawChildren(sys: FileSystem) returns (r: Result<seq<Segment>>)
      ensures r == FsOps.ReadDir(sys.root, FullPath())
    {
      r := sys.ReadDir(FullPath());
    }

    /** `files`: one `File` per name whose path is a file, in directory order;
        the other names are dropped. */
    method Files(sys: FileSystem) returns (r: Result<seq<File>>)
      ensures r.Ok? <==> sys.Stat(FullPath()) == DirKind
      ensures r.Ok? ==> FilePaths(r.value) == KindChildren(sys.root, FullPath(), FileKind)
    {
      var p := FullPath();
      var names := sys.ReadDir(p);
      if names.Err? {
        return Err(names.error);
      }
      var ns := names.value;
      var fs: seq<File> := [];
      var i := 0;
      while i < |ns|
        invariant 0 <= i <= |ns|
        invariant FilePaths(fs) == ChildrenOfKind(sys.root, p, ns[..i], FileKind)
      {
        ChildrenOfKindStep(sys.root, p, ns, i, FileKind);
        ResolvePair(p, [ns[i]]);
        var f := File.New(sys, [Abs(p), Rel([ns[i]])]);
        if f.Ok? {
          FilePathsAppend(fs, [f.value]);
          fs := fs + [f.value];
        }
        i := i + 1;
      }
      assert ns[..i] == ns;
      return Ok(fs);
    }

    /** `dirs`: one `Dir` per name whose path is a directory, in directory
        order. */
    method Dirs(sys: FileSystem) returns (r: Result<seq<Dir>>)
      ensures r.Ok? <==> sys.Stat(FullPath()) == DirKind
      ensures r.Ok? ==> DirPaths(r.value) == KindChildren(sys.root, FullPath(), DirKind)
    {
      var p := FullPath();
      var names := sys.ReadDir(p);
      if names.Err? {
        return Err(names.error);
      }
      var ns := names.value;
      var ds: seq<Dir> := [];
      var i := 0;
      while i < |ns|
        invariant 0 <= i <= |ns|
        invariant DirPaths(ds) == ChildrenOfKind(sys.root, p, ns[..i], DirKind)
      {
        ChildrenOfKindStep(sys.root, p, ns, i, DirKind);
        ResolvePair(p, [ns[i]]);
        var d := Dir.New(sys, [Abs(p), Rel([ns[i]])]);
        if d.Ok? {
          DirPathsAppend(ds, [d.value]);
          ds := ds + [d.value];
        }
        i := i + 1;
      }
      assert ns[..i] == ns;
      return Ok(ds);
    }

    /** `allDirs`: a worklist that starts with `dirs` and appends, entry by
        entry, each entry's own `dirs`, the cursor chasing the growing end. It
        is the breadth-first listing of every directory below. */
    method AllDirs(sys: FileSystem) returns (r: Result<seq<Dir>>)
      requires sys.Valid()
      ensures r.Ok? <==> sys.Stat(FullPath()) == DirKind
      ensures r.Ok? ==> DirPaths(r.value) == BfsDirs(sys.root, FullPath())
    {
      var p := FullPath();
      var first := Dirs(sys);
      if first.Err? {
        return Err(first.error);
      }
      var dirs := first.value;
      var curIdx := 0;
      ghost var n := sys.root;
      ghost var ps := DirPaths(dirs);
      BfsInit(n, p);
      while curIdx < |dirs|
        invariant DirPaths(dirs) == ps
        invariant BfsInvariant(n, p, ps, curIdx)
        invariant BfsFrom(n, p, ps, curIdx) == BfsDirs(n, p)
        decreases |RecAll(n, p, DirKind)| - curIdx
      {
        BfsFromStep(n, p, ps, curIdx);
        var sub := dirs[curIdx].Dirs(sys);
        assert DirPaths(sub.value) == KindChildren(n, ps[curIdx], DirKind);
        DirPathsAppend(dirs, sub.value);
        dirs := dirs + sub.value;
        ps := ps + KindChildren(n, ps[curIdx], DirKind);
        curIdx := curIdx + 1;
      }
      return Ok(dirs);
    }

    /** `allFiles`: `files`, then the `files` of every entry of `allDirs`. */
    method AllFiles(sys: FileSystem) returns (r: Result<seq<File>>)
      requires sys.Valid()
      ensures r.Ok? <==> sys.Stat(FullPath()) == DirKind
      ensures r.Ok? ==> FilePaths(r.value) == AllFilesOf(sys.root, FullPath())
    {
      var p := FullPath();
      var first := Files(sys);
      if first.Err? {
        return Err(first.error);
      }
      var all := AllDirs(sys);
      BfsDirsAllDirs(sys.root, p);
      var rest := FilesOfEach(sys, all.value);
      FilePathsAppend(first.value, rest);
      var files := first.value + rest;
      return Ok(files);
    }

    /** `moveTo(...paths)`, as for a file. */
    method MoveTo(sys: FileSystem, paths: seq<PathArg>) returns (r: Result<Dir>)
      requires sys.Valid()
      modifies this, sys
      ensures sys.Valid()
      ensures (Status(r), sys.root) == MoveSteps(old(sys.root), old(FullPath()), Resolve(paths))
      ensures originData == if r.Ok? then paths else old(originData)
      ensures r.Ok? ==> r.value == this
    {
      var newBase := new Base(paths);
      var par := newBase.Parent();
      var d := par.CreateAsDir(sys);
      if d.Err? {
        return Err(d.error);
      }
      var m := sys.Rename(FullPath(), newBase.FullPath());
      if m.Err? {
        return Err(m.error);
      }
      originData := paths;
      return Ok(this);
    }

    /** `moveTo(newPath)` of the compiled snapshot: one destination path, whose
        parent chain is created first. */
    method MoveToPath(sys: FileSystem, newPath: Path) returns (r: Result<Dir>)
      requires sys.Valid()
      modifies this, sys
      ensures sys.Valid()
      ensures (Status(r), sys.root) == MoveSteps(old(sys.root), old(FullPath()), newPath)
      ensures originData == if r.Ok? then [Abs(newPath)] else old(originData)
    {
      ResolveSingle(newPath);
      r := MoveTo(sys, [Abs(newPath)]);
    }

    /** `moveTo(newPath)` of the legacy entry point: a plain rename. */
    method MoveToWithoutParent(sys: FileSystem, newPath: Path) returns (r: Result<Dir>)
      requires sys.Valid()
      modifies this, sys
      ensures sys.Valid()
      ensures (Status(r), sys.root) == Commit(old(sys.root), Rename(old(sys.root), old(FullPath()), newPath))
      ensures originData == if r.Ok? then [Abs(newPath)] else old(originData)
    {
      var m := sys.Rename(FullPath(), newPath);
      if m.Err? {
        return Err(m.error);
      }
      originData := [Abs(newPath)];
      return Ok(this);
    }

    /** `remove(defaultInput)`: ask with `questionBoolean`; on yes remove the
        whole subtree and resolve, on no reject and change nothing. `None` is a
        promise that never settles: the script ran out, or the removal threw
        inside the callback, where nothing settles the outer promise. */
    method Remove(sys: FileSystem, answers: seq<string>, from: nat, defaultInput: Option<bool>) returns (r: Option<Result<Base>>)
      requires sys.Valid()
      modifies sys
      ensures sys.Valid()
      ensures match FirstAccepted(answers, BooleanDefault(defaultInput), IsYesNo, from)
        case RanOut => r == None && sys.root == old(sys.root)
        case Asked(v, _) =>
          if IsYes(v) then
            (r.Some? <==> RemoveTree(old(sys.root), FullPath()).Ok?)
            && (r.Some? ==> r.value.Ok?)
            && sys.root == Commit(old(sys.root), RemoveTree(old(sys.root), FullPath())).1
          else r == Some(Err(Cancelled)) && sys.root == old(sys.root)
      ensures r.Some? && r.value.Ok? ==> r.value.value.originData == [Abs(FullPath())]
    {
      var ans := QuestionBoolean(answers, from, defaultInput);
      if ans.RanOut? {
        return None;
      }
      if ans.value {
        var d := sys.RemoveTree(FullPath());
        if d.Err? {
          return None;
        }
        var b := new Base([Abs(FullPath())]);
        return Some(Ok(b));
      }
      return Some(Err(Cancelled));
    }

    /** `remove(defaultPrompt)` of the compiled snapshot and the legacy entry
        point: the recursive `question`, and removal when the answer lowercases
        to "y". */
    method RemoveAsked(sys: FileSystem, answers: seq<string>, from: nat, defaultPrompt: Option<string>) returns (r: Option<Result<Base>>)
      requires sys.Valid()
      modifies sys
      ensures sys.Valid()
      ensures match QuestionRec(answers, from, defaultPrompt)
        case RanOut => r == None && sys.root == old(sys.root)
        case Asked(v, _) =>
          if IsYes(v) then
            (r.Some? <==> RemoveTree(old(sys.root), FullPath()).Ok?)
            && (r.Some? ==> r.value.Ok?)
            && sys.root == Commit(old(sys.root), RemoveTree(old(sys.root), FullPath())).1
          else r == Some(Err(Cancelled)) && sys.root == old(sys.root)
      ensures r.Some? && r.value.Ok? ==> r.value.value.originData == [Abs(FullPath())]
    {
      var ans := QuestionRec(answers, from, defaultPrompt);
      if ans.RanOut? {
        return None;
      }
      if IsYes(ans.value) {
        var d := sys.RemoveTree(FullPath());
        if d.Err? {
          return None;
        }
        var b := new Base([Abs(FullPath())]);
        return Some(Ok(b));
      }
      return Some(Err(Cancelled));
    }

    /** `dangerousRemoveWithoutEnsure()`: remove the subtree without asking. */
    method DangerousRemoveWithoutEnsure(sys: FileSystem) returns (r: Result<Base>)
      requires sys.Valid()
      modifies sys
      ensures sys.Valid()
      ensures (Status(r), sys.root) == Commit(old(sys.root), RemoveTree(old(sys.root), FullPath()))
      ensures r.Ok? ==> r.value.originData == [Abs(FullPath())]
    {
      var d := sys.RemoveTree(FullPath());
      if d.Err? {
        return Err(d.error);
      }
      var b := new Base([Abs(FullPath())]);
      return Ok(b);
    }

    /** `toJsonData(filter)`: the admitted files' leaves, then the admitted
        directories' trees, each built with the same filter. */
    method ToJsonData(sys: FileSystem, filter: Option<Item -> bool>) returns (r: Result<JsonNode>)
      requires sys.Valid()
      ensures r.Ok? <==> sys.Stat(FullPath()) == DirKind
      ensures r.Ok? ==> r.value == Export(sys.root, FullPath(), filter)
      decreases HeightAt(sys.root, FullPath()), 1
    {
      var p := FullPath();
      var fr := Files(sys);
      if fr.Err? {
        return Err(fr.error);
      }
      ghost var n := sys.root;
      var children := FileNodes(fr.value, filter);
      var dr := Dirs(sys);
      KindChildrenAll(n, p, DirKind);
      var trees := DirNodes(sys, p, dr.value, filter);
      children := children + trees;
      return Ok(DirJson(Basename(p), children));
    }
  }

  /** The paths of a list of files. */
  function FilePaths(fs: seq<File>): (ps: seq<Path>)
    reads fs
    ensures |ps| == |fs| && forall i :: 0 <= i < |fs| ==> ps[i] == fs[i].FullPath()
  {
    if fs == [] then [] else FilePaths(fs[..|fs| - 1]) + [fs[|fs| - 1].FullPath()]
  }

  /** The paths of a list of directories. */
  function DirPaths(ds: seq<Dir>): (ps: seq<Path>)
    reads ds
    ensures |ps| == |ds| && forall i :: 0 <= i < |ds| ==> ps[i] == ds[i].FullPath()
  {
    if ds == [] then [] else DirPaths(ds[..|ds| - 1]) + [ds[|ds| - 1].FullPath()]
  }

  lemma FilePathsAppend(a: seq<File>, b: seq<File>)
    ensures FilePaths(a + b) == FilePaths(a) + FilePaths(b)
  {
    var l, r := FilePaths(a + b), FilePaths(a) + FilePaths(b);
    forall i | 0 <= i < |l| ensures l[i] == r[i] {
      if i < |a| {
        assert (a + b)[i] == a[i];
      } else {
        assert (a + b)[i] == b[i - |a|];
      }
    }
  }

  lemma DirPathsAppend(a: seq<Dir>, b: seq<Dir>)
    ensures DirPaths(a + b) == DirPaths(a) + DirPaths(b)
  {
    var l, r := DirPaths(a + b), DirPaths(a) + DirPaths(b);
    forall i | 0 <= i < |l| ensures l[i] == r[i] {
      if i < |a| {
        assert (a + b)[i] == a[i];
      } else {
        assert (a + b)[i] == b[i - |a|];
      }
    }
  }

  /** The first loop of `toJsonData`: a leaf for every admitted file. */
  method FileNodes(files: seq<File>, filter: Option<Item -> bool>) returns (children: seq<JsonNode>)
    ensures children == FileLeaves(FilePaths(files), filter)
  {
    ghost var fps := FilePaths(files);
    children := [];
    var i := 0;
    while i < |files|
      invariant 0 <= i <= |files|
      invariant children == FileLeaves(fps[..i], filter)
    {
      FileLeavesStep(fps, i, filter);
      if Admits(filter, FileItem(files[i].FullPath())) {
        children := children + [files[i].ToJsonData()];
      }
      i := i + 1;
    }
    assert fps[..i] == fps;
  }

  /** The second loop of `toJsonData`: the tree of every admitted directory
      below `p`. */
  method DirNodes(sys: FileSystem, p: Path, dirs: seq<Dir>, filter: Option<Item -> bool>) returns (trees: seq<JsonNode>)
    requires sys.Valid()
    requires forall d :: d in DirPaths(dirs) ==> IsChild(d, p) && KindAt(sys.root, d) == DirKind
    ensures trees == DirTrees(sys.root, p, DirPaths(dirs), filter)
    decreases HeightAt(sys.root, p), 0
  {
    ghost var n := sys.root;
    ghost var dps := DirPaths(dirs);
    assert dps[..0] == [];
    trees := [];
    var j := 0;
    while j < |dirs|
      invariant 0 <= j <= |dirs|
      invariant DirPaths(dirs) == dps
      invariant trees == DirTrees(n, p, dps[..j], filter)
    {
      DirTreesPush(n, p, dps, j, filter);
      if Admits(filter, DirItem(dirs[j].FullPath())) {
        ChildHeightOf(n, p, dps[j]);
        var sub := dirs[j].ToJsonData(sys, filter);
        trees := trees + [sub.value];
      }
      j := j + 1;
    }
    assert dps[..j] == dps;
  }

  /** The loop of `allFiles` over the directories: each one's `files`, one
      list after the other. */
  method FilesOfEach(sys: FileSystem, ds: seq<Dir>) returns (files: seq<File>)
    requires forall d :: d in DirPaths(ds) ==> KindAt(sys.root, d) == DirKind
    ensures FilePaths(files) == ChildrenOfEach(sys.root, DirPaths(ds), FileKind)
  {
    ghost var qs := DirPaths(ds);
    assert qs[..0] == [];
    files := [];
    var i := 0;
    while i < |ds|
      invariant 0 <= i <= |ds|
      invariant DirPaths(ds) == qs
      invariant FilePaths(files) == ChildrenOfEach(sys.root, qs[..i], FileKind)
    {
      ChildrenOfEachStep(sys.root, qs, i, FileKind);
      assert qs[i] in qs;
      var sub := ds[i].Files(sys);
      FilePathsAppend(files, sub.value);
      files := files + sub.value;
      i := i + 1;
    }
    assert qs[..i] == qs;
  }

  /** One argument of `getInputFiles`: the file itself, the `allFiles` of a
      directory, or nothing for a path that does not exist. */
  method ArgumentFiles(sys: FileSystem, a: Path) returns (files: seq<File>)
    requires sys.Valid()
    ensures FilePaths(files) == Contribution(sys.root, a)
  {
    var base := new Base([Abs(a)]);
    ResolveSingle(a);
    if base.IsFile(sys) {
      var f := base.AsFile(sys);
      files := [f.value];
    } else if base.IsDir(sys) {
      var d := base.AsDir(sys);
      var all := d.value.AllFiles(sys);
      files := all.value;
    } else {
      files := [];
    }
  }

  /** `getInputFiles()` over the command line `argv`: for each argument in
      order, the file itself, a directory's `allFiles`, or nothing. */
  method GetInputFiles(sys: FileSystem, argv: seq<Path>) returns (files: seq<File>)
    requires sys.Valid()
    ensures FilePaths(files) == InputFiles(sys.root, Args(argv))
  {
    var args := Args(argv);
    ghost var n := sys.root;
    files := [];
    var i := 0;
    while i < |args|
      invariant 0 <= i <= |args|
      invariant FilePaths(files) == InputFiles(n, args[..i])
    {
      InputFilesStep(n, args, i);
      var found := ArgumentFiles(sys, args[i]);
      FilePathsAppend(files, found);
      files := files + found;
      i := i + 1;
    }
    assert args[..i] == args;
  }
}
