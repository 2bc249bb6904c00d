/** The abstract filesystem that the entity layer probes and mutates: a tree of
    named entries. A directory's entries are kept in the order a directory read
    returns them. A path is a sequence of clean segments from the root. */
module FsTree {
  import opened Results
  import opened SeqFacts

  /** One path segment: what `path.resolve` leaves between two separators. */
  predicate IsSegment(s: string) {
    |s| > 0 && s != "." && s != ".." && forall i :: 0 <= i < |s| ==> s[i] != '/'
  }

  type Segment = s: string | IsSegment(s) witness "a"

  /** An absolute, normalised path; `[]` is the root. */
  type Path = seq<Segment>

  datatype Node = File(content: string) | Dir(entries: seq<Entry>)

  datatype Entry = Entry(name: Segment, node: Node)

  /** What `stat` reports: a missing path is the `null` case. */
  datatype Kind = Missing | FileKind | DirKind

  predicate DistinctNames(es: seq<Entry>) {
    forall i, j :: 0 <= i < j < |es| ==> es[i].name != es[j].name
  }

  /** A well-formed tree: no directory holds two entries with the same name. */
  predicate Valid(n: Node) {
    match n
    case File(_) => true
    case Dir(es) => DistinctNames(es) && forall i :: 0 <= i < |es| ==> Valid(es[i].node)
  }

  function Names(es: seq<Entry>): (ns: seq<Segment>)
    ensures |ns| == |es| && forall i :: 0 <= i < |es| ==> ns[i] == es[i].name
  {
    if es == [] then [] else [es[0].name] + Names(es[1..])
  }

  /** Position of the first entry called `x`, or -1. */
  function IndexOf(es: seq<Entry>, x: Segment): (i: int)
    ensures -1 <= i < |es|
    ensures 0 <= i ==> es[i].name == x && forall j :: 0 <= j < i ==> es[j].name != x
    ensures i == -1 ==> forall j :: 0 <= j < |es| ==> es[j].name != x
  {
    if es == [] then -1
    else if es[0].name == x then 0
    else
      var k := IndexOf(es[1..], x);
      if k < 0 then -1 else k + 1
  }

  lemma IndexOfDistinct(es: seq<Entry>, i: nat)
    requires DistinctNames(es) && i < |es|
    ensures IndexOf(es, es[i].name) == i
  {
  }

  function Find(es: seq<Entry>, x: Segment): Option<Node> {
    var i := IndexOf(es, x);
    if i < 0 then None else Some(es[i].node)
  }

  /** The node a path names, if any. */
  function Lookup(n: Node, p: Path): Option<Node>
    decreases |p|
  {
    if p == [] then Some(n)
    else match n
      case File(_) => None
      case Dir(es) =>
        var i := IndexOf(es, p[0]);
        if i < 0 then None else Lookup(es[i].node, p[1..])
  }

  /** Path resolution as a system call performs it: the node, or the errno of
      the first component that fails (a missing entry, or a file used as a
      directory). */
  function Walk(n: Node, p: Path): (r: Result<Node>)
    ensures r.Ok? <==> Lookup(n, p).Some?
    ensures r.Ok? ==> r.value == Lookup(n, p).value
    ensures r.Err? ==> r.error == NotFound || r.error == NotADirectory
    decreases |p|
  {
    if p == [] then Ok(n)
    else match n
      case File(_) => Err(NotADirectory)
      case Dir(es) =>
        var i := IndexOf(es, p[0]);
        if i < 0 then Err(NotFound) else Walk(es[i].node, p[1..])
  }

  lemma {:induction false} WalkConcat(n: Node, p: Path, q: Path)
    ensures Walk(n, p + q) == match Walk(n, p) case Err(e) => Err(e) case Ok(m) => Walk(m, q)
    decreases |p|
  {
    if p == [] {
      assert p + q == q;
    } else {
      assert (p + q)[0] == p[0] && (p + q)[1..] == p[1..] + q;
      match n
      case File(_) =>
      case Dir(es) =>
        var i := IndexOf(es, p[0]);
        if i >= 0 {
          WalkConcat(es[i].node, p[1..], q);
        }
    }
  }

  /** A missing entry of an existing directory is reported as "not found". */
  lemma WalkMissingChild(n: Node, p: Path)
    requires p != [] && KindAt(n, Parent(p)) == DirKind && KindAt(n, p) == Missing
    ensures Walk(n, p) == Err(NotFound)
  {
    assert p == Parent(p) + [p[|p| - 1]];
    WalkConcat(n, Parent(p), [p[|p| - 1]]);
  }

  /** A walk fails with "not a directory" exactly when some proper prefix of the
      path is a file. */
  lemma {:induction false} WalkNotADirectory(n: Node, p: Path, q: Path)
    requires q < p && KindAt(n, q) == FileKind
    ensures Walk(n, p) == Err(NotADirectory)
    decreases |q|
  {
    if q != [] {
      assert p[0] == q[0];
      var i := IndexOf(n.entries, p[0]);
      WalkNotADirectory(n.entries[i].node, p[1..], q[1..]);
    }
  }

  function KindOfNode(n: Node): Kind {
    if n.File? then FileKind else DirKind
  }

  /** `stat(p)`: re-evaluated against the current tree on every call. */
  function KindAt(n: Node, p: Path): Kind {
    match Lookup(n, p)
    case None => Missing
    case Some(m) => KindOfNode(m)
  }

  function Parent(p: Path): Path
    requires p != []
  {
    p[..|p| - 1]
  }

  function Height(n: Node): nat {
    match n
    case File(_) => 0
    case Dir(es) => 1 + MaxHeight(es)
  }

  function MaxHeight(es: seq<Entry>): nat {
    if es == [] then 0
    else
      var h, t := Height(es[0].node), MaxHeight(es[1..]);
      if h < t then t else h
  }

  /** Height of the subtree a path names (0 when missing). */
  function HeightAt(n: Node, p: Path): nat {
    match Lookup(n, p)
    case None => 0
    case Some(m) => Height(m)
  }

  lemma {:induction false} EntryHeight(es: seq<Entry>, i: nat)
    requires i < |es|
    ensures Height(es[i].node) < Height(Dir(es))
  {
    if i > 0 {
      EntryHeight(es[1..], i - 1);
      assert es[1..][i - 1] == es[i];
    }
  }

  lemma {:induction false} LookupConcat(n: Node, p: Path, q: Path)
    ensures Lookup(n, p + q) == match Lookup(n, p) case None => None case Some(m) => Lookup(m, q)
    decreases |p|
  {
    if p == [] {
      assert p + q == q;
    } else {
      assert (p + q)[0] == p[0] && (p + q)[1..] == p[1..] + q;
      match n
      case File(_) =>
      case Dir(es) =>
        var i := IndexOf(es, p[0]);
        if i >= 0 {
          LookupConcat(es[i].node, p[1..], q);
        }
    }
  }

  /** Looking up one more segment under a directory is a `Find` among its entries. */
  lemma LookupChild(n: Node, p: Path, x: Segment)
    requires Lookup(n, p).Some? && Lookup(n, p).value.Dir?
    ensures Lookup(n, p + [x]) == Find(Lookup(n, p).value.entries, x)
  {
    LookupConcat(n, p, [x]);
  }

  lemma {:induction false} LookupValid(n: Node, p: Path)
    requires Valid(n) && Lookup(n, p).Some?
    ensures Valid(Lookup(n, p).value)
    decreases |p|
  {
    if p != [] {
      var i := IndexOf(n.entries, p[0]);
      LookupValid(n.entries[i].node, p[1..]);
    }
  }

  /** Every proper prefix of an existing path is a directory. */
  lemma {:induction false} AncestorIsDir(n: Node, p: Path, q: Path)
    requires Lookup(n, p).Some? && q < p
    ensures KindAt(n, q) == DirKind
    decreases |q|
  {
    if q == [] {
      assert p != [];
    } else {
      assert p[0] == q[0];
      var i := IndexOf(n.entries, p[0]);
      AncestorIsDir(n.entries[i].node, p[1..], q[1..]);
    }
  }

  /** A child directory's subtree is strictly lower: the recursion measure of
      the recursive tree walks. */
  lemma ChildHeight(n: Node, p: Path, x: Segment)
    requires KindAt(n, p) == DirKind && KindAt(n, p + [x]) != Missing
    ensures HeightAt(n, p + [x]) < HeightAt(n, p)
  {
    LookupChild(n, p, x);
    var es := Lookup(n, p).value.entries;
    EntryHeight(es, IndexOf(es, x));
  }
}
