/** What the entity methods do to the tree, composed from the system calls, with
    the laws each composite obeys: creating a file, moving an entry, reading and
    writing a structured value, and collecting the input files named on the
    command line. */
module EntityOps {
  import opened Results
  import opened SeqFacts
  import opened FsTree
  import opened FsEdit
  import opened FsOps
  import opened FileSystems
  import opened Listing
  import opened Paths

  /** A call's outcome with its value dropped. */
  function Status<T>(r: Result<T>): Result<()> {
    match r
    case Ok(_) => Ok(())
    case Err(e) => Err(e)
  }

  // ---- createAsFile ----

  /** `createAsFile`: `mkdir -p` of the parent, then an append of nothing. */
  function CreateFileSteps(n: Node, p: Path): (Result<()>, Node) {
    match MkdirP(n, Dirname(p))
    case Err(e) => (Err(e), n)
    case Ok(t) => Commit(t, WriteFile(t, p, "", true))
  }

  /** `createAsFile` succeeds exactly when the parent chain can be made and the
      path is not a directory. It then leaves a file there without touching an
      existing file's content, makes every ancestor a directory and changes
      nothing outside the path's own chain; when it fails, nothing changed. */
  lemma CreateFileOutcome(n: Node, p: Path)
    requires Valid(n) && n.Dir?
    ensures var (r, t) := CreateFileSteps(n, p);
      (r.Ok? <==> p != [] && OpenPath(n, Dirname(p)) && KindAt(n, p) != DirKind)
      && Valid(t) && t.Dir?
      && (r.Err? ==> t == n)
      && (r.Ok? ==> Lookup(t, p) == Some(if Lookup(n, p).Some? then Lookup(n, p).value else Node.File("")))
      && (r.Ok? ==> forall q :: q < p ==> KindAt(t, q) == DirKind)
      && (r.Ok? ==> forall q :: !(q <= p) ==> Lookup(t, q) == Lookup(n, q))
  {
    var d := Dirname(p);
    MkdirPOutcome(n, d);
    if p == [] {
      assert MkdirP(n, d) == Ok(n);
    } else if MkdirP(n, d).Ok? {
      var t1 := MkdirP(n, d).value;
      MkdirPEffect(n, d);
      assert !(p <= d);
      assert Lookup(t1, p) == Lookup(n, p);
      assert Parent(p) == d;
      WriteFileOutcome(t1, p, "", true);
      if KindAt(n, p) == DirKind {
        AncestorIsDir(n, p, d);
        MkdirPExisting(n, d);
      } else {
        WriteFileEffect(t1, p, "", true);
        if Lookup(n, p).Some? {
          assert Lookup(n, p).value.content + "" == Lookup(n, p).value.content;
        }
      }
    }
  }

  // ---- moveTo ----

  /** `moveTo`: `mkdir -p` of the destination's parent, then the rename. */
  function MoveSteps(n: Node, src: Path, dst: Path): (Result<()>, Node) {
    match MkdirP(n, Dirname(dst))
    case Err(e) => (Err(e), n)
    case Ok(t) => Commit(t, Rename(t, src, dst))
  }

  /** After a successful move the destination holds the very subtree the
      source held, the source is gone, every ancestor of the destination is a
      directory, and every path off both chains is untouched. */
  lemma MoveEffect(n: Node, src: Path, dst: Path)
    requires Valid(n) && n.Dir? && MoveSteps(n, src, dst).0.Ok?
    ensures var t := MoveSteps(n, src, dst).1;
      Valid(t) && t.Dir?
      && (forall s :: Lookup(t, dst + s) == Lookup(n, src + s))
      && (src != dst ==> KindAt(t, src) == Missing)
      && (forall q :: q < dst ==> KindAt(t, q) == DirKind)
      && (forall q :: !(src <= q) && !(dst <= q) && !(q < src) && !(q < dst) ==> Lookup(t, q) == Lookup(n, q))
  {
    var d := Dirname(dst);
    var t1 := MkdirP(n, d).value;
    MkdirPEffect(n, d);
    MoveSourceOffChain(n, src, dst);
    MoveRename(t1, src, dst);
    var t := MoveSteps(n, src, dst).1;
    forall s ensures Lookup(t, dst + s) == Lookup(n, src + s) {
      assert !(src + s <= d);
    }
    forall q | !(src <= q) && !(dst <= q) && !(q < src) && !(q < dst) ensures Lookup(t, q) == Lookup(n, q) {
      assert !(q <= d);
    }
  }

  /** A move that succeeds never has its source on the destination's parent
      chain: the rename refuses to put a directory inside itself. */
  lemma MoveSourceOffChain(n: Node, src: Path, dst: Path)
    requires Valid(n) && n.Dir? && MoveSteps(n, src, dst).0.Ok?
    ensures !(src <= Dirname(dst))
  {
    var d := Dirname(dst);
    var t1 := MkdirP(n, d).value;
    MkdirPEffect(n, d);
    RenameOutcome(t1, src, dst);
  }

  /** The rename step, under the directory chain the first step made. */
  lemma MoveRename(t1: Node, src: Path, dst: Path)
    requires Valid(t1) && t1.Dir? && Rename(t1, src, dst).Ok?
    ensures var t := Rename(t1, src, dst).value;
      Valid(t) && t.Dir?
      && (forall s :: Lookup(t, dst + s) == Lookup(t1, src + s))
      && (src != dst ==> KindAt(t, src) == Missing)
      && (forall q :: q < dst ==> KindAt(t, q) == DirKind)
      && (forall q :: !(src <= q) && !(dst <= q) && !(q < src) && !(q < dst) ==> Lookup(t, q) == Lookup(t1, q))
  {
    RenameEffect(t1, src, dst);
    RenameOutcome(t1, src, dst);
    var t := Rename(t1, src, dst).value;
    assert dst + [] == dst && src + [] == src;
    assert Lookup(t, dst) == Lookup(t1, src);
    AncestorIsDir(t, dst, []);
  }

  /** A failed move changes at most the destination's parent chain, which the
      `mkdir -p` before the rename may already have created. */
  lemma MoveFailure(n: Node, src: Path, dst: Path)
    requires Valid(n) && n.Dir? && MoveSteps(n, src, dst).0.Err?
    ensures var t := MoveSteps(n, src, dst).1;
      Valid(t) && t.Dir? && forall q :: !(q <= Dirname(dst)) ==> Lookup(t, q) == Lookup(n, q)
  {
    if MkdirP(n, Dirname(dst)).Ok? {
      MkdirPEffect(n, Dirname(dst));
    }
  }

  /** The legacy `moveTo` (`MoveToWithoutParent`) renames without creating the
      destination's parent first. Where that parent is missing but can be
      made, and the source is a file off its chain, the legacy move fails and
      the current one succeeds. */
  lemma MoveWithoutParentDiffers(n: Node, src: Path, dst: Path)
    requires Valid(n) && n.Dir? && dst != []
    requires KindAt(n, src) == FileKind && !(src <= Dirname(dst))
    requires KindAt(n, Dirname(dst)) == Missing && OpenPath(n, Dirname(dst))
    ensures Rename(n, src, dst).Err?
    ensures MoveSteps(n, src, dst).0.Ok?
  {
    var d := Dirname(dst);
    RenameOutcome(n, src, dst);
    MkdirPOutcome(n, d);
    var t := MkdirP(n, d).value;
    MkdirPEffect(n, d);
    MissingBelow(n, d, dst);
    assert !(dst <= d);
    assert Lookup(t, dst) == None;
    assert Lookup(t, src) == Lookup(n, src);
    assert KindAt(t, Parent(dst)) == DirKind;
    RenameOutcome(t, src, dst);
  }

  // ---- structured values ----

  /** What `String.prototype.trim` strips: white space and line terminators. */
  predicate IsJsSpace(c: char) {
    ('\U{9}' <= c <= '\U{D}') || c == ' ' || c == '\U{A0}' || c == '\U{1680}'
    || ('\U{2000}' <= c <= '\U{200A}') || c == '\U{2028}' || c == '\U{2029}'
    || c == '\U{202F}' || c == '\U{205F}' || c == '\U{3000}' || c == '\U{FEFF}'
  }

  /** `data.trim() === ""`. */
  predicate IsBlank(s: string) {
    forall i :: 0 <= i < |s| ==> IsJsSpace(s[i])
  }

  /** `readSync` on the text read: blank text is `null` (here `None`),
      anything else goes to the codec. */
  function JsonDecode<V>(content: string, parse: string -> Result<V>): Result<Option<V>> {
    if IsBlank(content) then Ok(None)
    else match parse(content)
      case Ok(v) => Ok(Some(v))
      case Err(e) => Err(e)
  }

  /** Blank text, and only blank text, reads as `null`; the rest is decoded. */
  lemma JsonDecodeCases<V>(content: string, parse: string -> Result<V>)
    ensures JsonDecode(content, parse) == Ok(None) <==> IsBlank(content)
    ensures !IsBlank(content) ==> (JsonDecode(content, parse).Ok? <==> parse(content).Ok?)
    ensures !IsBlank(content) && parse(content).Ok? ==> JsonDecode(content, parse) == Ok(Some(parse(content).value))
  {
  }

  /** What `writeSync` is given: text, written as is, or a value to stringify. */
  datatype JsonData<V> = Text(text: string) | Value(value: V)

  function Rendered<V>(data: JsonData<V>, stringify: (V, nat) -> string, space: nat): string {
    match data
    case Text(s) => s
    case Value(v) => stringify(v, space)
  }

  /** Writing a value and reading it back gives the value, for a codec that
      round-trips it and never renders it blank. */
  lemma JsonRoundTrip<V>(n: Node, p: Path, v: V, stringify: (V, nat) -> string, parse: string -> Result<V>, space: nat)
    requires Valid(n) && n.Dir?
    requires WriteFile(n, p, Rendered(Value(v), stringify, space), false).Ok?
    requires parse(stringify(v, space)) == Ok(v) && !IsBlank(stringify(v, space))
    ensures var t := WriteFile(n, p, Rendered(Value(v), stringify, space), false).value;
      ReadFile(t, p).Ok? && JsonDecode(ReadFile(t, p).value, parse) == Ok(Some(v))
  {
    WriteFileEffect(n, p, Rendered(Value(v), stringify, space), false);
  }

  /** Text written verbatim reads back as `null` exactly when it is blank. */
  lemma JsonTextRoundTrip<V>(n: Node, p: Path, s: string, stringify: (V, nat) -> string, parse: string -> Result<V>, space: nat)
    requires Valid(n) && n.Dir?
    requires WriteFile(n, p, Rendered(Text(s), stringify, space), false).Ok?
    ensures var t := WriteFile(n, p, Rendered(Text(s), stringify, space), false).value;
      ReadFile(t, p) == Ok(s) && (JsonDecode(s, parse) == Ok(None) <==> IsBlank(s))
  {
    WriteFileEffect(n, p, Rendered(Text(s), stringify, space), false);
  }

  /** The older `readSync`, which hands even blank text to the codec. With a
      codec that refuses blank text (as `JSON.parse` does) an empty file is an
      error there and `null` in the current version. */
  lemma StrictReadDiffers<V>(content: string, parse: string -> Result<V>)
    requires forall s :: IsBlank(s) ==> parse(s).Err?
    ensures IsBlank(content) ==> parse(content).Err? && JsonDecode(content, parse) == Ok(None)
    ensures !IsBlank(content) ==> (parse(content).Ok? <==> JsonDecode(content, parse).Ok?)
  {
  }

  // ---- getInputFiles ----

  /** `process.argv.slice(2)`. */
  function Args<T>(argv: seq<T>): (args: seq<T>)
    ensures |argv| >= 2 ==> argv == argv[..2] + args
    ensures |argv| < 2 ==> args == []
  {
    if |argv| < 2 then [] else argv[2..]
  }

  /** One argument's share: the file itself, a directory's `allFiles`, or
      nothing for a missing path. */
  function Contribution(n: Node, a: Path): seq<Path>
    requires Valid(n)
  {
    match KindAt(n, a)
    case FileKind => [a]
    case DirKind => AllFilesOf(n, a)
    case Missing => []
  }

  /** The paths `getInputFiles` collects, argument after argument. */
  function InputFiles(n: Node, args: seq<Path>): seq<Path>
    requires Valid(n)
  {
    if args == [] then []
    else InputFiles(n, args[..|args| - 1]) + Contribution(n, args[|args| - 1])
  }

  lemma InputFilesStep(n: Node, args: seq<Path>, i: nat)
    requires Valid(n) && i < |args|
    ensures InputFiles(n, args[..i + 1]) == InputFiles(n, args[..i]) + Contribution(n, args[i])
  {
    assert args[..i + 1][..i] == args[..i];
  }

  /** An argument contributes exactly the files at or below it. */
  lemma ContributionMember(n: Node, a: Path, q: Path)
    requires Valid(n)
    ensures q in Contribution(n, a) <==> KindAt(n, q) == FileKind && a <= q
  {
    if KindAt(n, q) == FileKind && a <= q && a != q {
      assert |a| < |q| && a < q && Lookup(n, q).Some?;
      AncestorIsDir(n, q, a);
    }
    match KindAt(n, a)
    case FileKind =>
    case Missing =>
    case DirKind => AllFilesSpec(n, a);
  }

  /** Some argument lies at or above `q`. */
  predicate SomeAbove(args: seq<Path>, q: Path) {
    exists i :: 0 <= i < |args| && args[i] <= q
  }

  lemma SomeAboveSplit(args: seq<Path>, q: Path)
    requires args != []
    ensures SomeAbove(args, q) <==> SomeAbove(args[..|args| - 1], q) || args[|args| - 1] <= q
  {
    var init := args[..|args| - 1];
    if SomeAbove(init, q) {
      var i :| 0 <= i < |init| && init[i] <= q;
      assert args[i] == init[i];
    }
    if SomeAbove(args, q) {
      var i :| 0 <= i < |args| && args[i] <= q;
      if i < |init| {
        assert init[i] == args[i];
      }
    }
  }

  /** A path is collected exactly when it is a file at or below some argument. */
  lemma {:induction false} InputFilesMember(n: Node, args: seq<Path>, q: Path)
    requires Valid(n)
    ensures q in InputFiles(n, args) <==> KindAt(n, q) == FileKind && exists i :: 0 <= i < |args| && args[i] <= q
    decreases |args|
  {
    if args != [] {
      InputFilesMember(n, args[..|args| - 1], q);
      ContributionMember(n, args[|args| - 1], q);
      SomeAboveSplit(args, q);
    }
  }
}
