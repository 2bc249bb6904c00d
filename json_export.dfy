/** The JSON picture of a directory tree that `toJsonData` builds, as a
    function of the filesystem tree, and what it lists. */
module JsonExport {
  import opened Results
  import opened FsTree
  import opened Listing
  import opened Paths
  import opened FsOps

  /** `FileJson` (children `null`) and `DirJson`. */
  datatype JsonNode = FileJson(basename: string) | DirJson(basename: string, children: seq<JsonNode>)

  /** What the filter callback is given: a file or a directory entity. */
  datatype Item = FileItem(path: Path) | DirItem(path: Path)

  /** A missing filter admits everything. */
  predicate Admits(filter: Option<Item -> bool>, it: Item) {
    filter.None? || filter.value(it)
  }

  /** The node of one admitted file. */
  function FileLeaf(p: Path): (j: JsonNode)
    ensures j.FileJson? && ListedAt(j, Dirname(p), DirKind) == []
    ensures p != [] ==> ListedAt(j, Dirname(p), FileKind) == [p]
  {
    if p != [] then DirnameBasename(p); FileJson(Basename(p)) else FileJson(Basename(p))
  }

  /** The leaves pushed for the files, in order, skipping the rejected ones. */
  function FileLeaves(fs: seq<Path>, filter: Option<Item -> bool>): seq<JsonNode> {
    if fs == [] then []
    else
      var f := fs[|fs| - 1];
      FileLeaves(fs[..|fs| - 1], filter) + (if Admits(filter, FileItem(f)) then [FileLeaf(f)] else [])
  }

  /** `toJsonData(filter)` of the directory `p`: its files first, then its
      admitted directories, each exported with the same filter. */
  function Export(n: Node, p: Path, filter: Option<Item -> bool>): JsonNode
    decreases HeightAt(n, p), 1
  {
    KindChildrenAll(n, p, DirKind);
    DirJson(Basename(p), FileLeaves(KindChildren(n, p, FileKind), filter)
                         + DirTrees(n, p, KindChildren(n, p, DirKind), filter))
  }

  function DirTrees(n: Node, p: Path, ds: seq<Path>, filter: Option<Item -> bool>): seq<JsonNode>
    requires forall d :: d in ds ==> IsChild(d, p) && KindAt(n, d) == DirKind
    decreases HeightAt(n, p), 0, |ds|
  {
    if ds == [] then []
    else
      var d := ds[|ds| - 1];
      ChildHeightOf(n, p, d);
      DirTrees(n, p, ds[..|ds| - 1], filter) + (if Admits(filter, DirItem(d)) then [Export(n, d, filter)] else [])
  }

  lemma FileLeavesStep(fs: seq<Path>, i: nat, filter: Option<Item -> bool>)
    requires i < |fs|
    ensures FileLeaves(fs[..i + 1], filter) ==
      FileLeaves(fs[..i], filter) + (if Admits(filter, FileItem(fs[i])) then [FileLeaf(fs[i])] else [])
  {
    assert fs[..i + 1][..i] == fs[..i];
  }

  lemma DirTreesPush(n: Node, p: Path, ds: seq<Path>, j: nat, filter: Option<Item -> bool>)
    requires j < |ds|
    requires forall d :: d in ds ==> IsChild(d, p) && KindAt(n, d) == DirKind
    ensures IsChild(ds[j], p) && KindAt(n, ds[j]) == DirKind
    ensures forall d :: d in ds[..j + 1] ==> d in ds
    ensures DirTrees(n, p, ds[..j + 1], filter) ==
      DirTrees(n, p, ds[..j], filter) + (if Admits(filter, DirItem(ds[j])) then [Export(n, ds[j], filter)] else [])
  {
    assert ds[j] in ds;
    assert ds[..j + 1][..j] == ds[..j];
  }

  // ---- reading a JSON tree back as paths ----

  /** The paths of the nodes of kind `k` (leaves for files, inner nodes for
      directories) in a list of JSON children hung below `base`. */
  function Listed(cs: seq<JsonNode>, base: seq<string>, k: Kind): seq<seq<string>>
    decreases cs
  {
    if cs == [] then []
    else Listed(cs[..|cs| - 1], base, k) + ListedAt(cs[|cs| - 1], base, k)
  }

  function ListedAt(c: JsonNode, base: seq<string>, k: Kind): seq<seq<string>>
    decreases c
  {
    match c
    case FileJson(b) => if k == FileKind then [base + [b]] else []
    case DirJson(b, ks) => (if k == DirKind then [base + [b]] else []) + Listed(ks, base + [b], k)
  }

  lemma {:induction false} ListedConcat(a: seq<JsonNode>, b: seq<JsonNode>, base: seq<string>, k: Kind)
    ensures Listed(a + b, base, k) == Listed(a, base, k) + Listed(b, base, k)
    decreases |b|
  {
    if b == [] {
      assert a + b == a;
    } else {
      var b' := b[..|b| - 1];
      assert (a + b)[..|a + b| - 1] == a + b';
      assert (a + b)[|a + b| - 1] == b[|b| - 1];
      ListedConcat(a, b', base, k);
    }
  }

  /** The path a listed entry stands for, with every directory from just below
      `p` down to it admitted by the filter, and the entry itself too. */
  ghost predicate AdmittedChain(filter: Option<Item -> bool>, p: Path, q: Path, k: Kind)
    requires p < q
  {
    Admits(filter, if k == FileKind then FileItem(q) else DirItem(q))
    && forall i :: |p| < i < |q| ==> Admits(filter, DirItem(q[..i]))
  }

  lemma ListedSingle(c: JsonNode, base: seq<string>, k: Kind)
    ensures Listed([c], base, k) == ListedAt(c, base, k)
  {
    assert [c][..0] == [];
  }

  /** The last file's leaf lists that file alone, when admitted. */
  lemma FileLeavesListedLast(fs: seq<Path>, filter: Option<Item -> bool>, p: Path, k: Kind)
    requires fs != [] && IsChild(fs[|fs| - 1], p)
    ensures var f := fs[|fs| - 1];
      Listed(FileLeaves(fs, filter), p, k) ==
      Listed(FileLeaves(fs[..|fs| - 1], filter), p, k) + (if k == FileKind && Admits(filter, FileItem(f)) then [f] else [])
  {
    var f := fs[|fs| - 1];
    var tail := if Admits(filter, FileItem(f)) then [FileLeaf(f)] else [];
    ListedConcat(FileLeaves(fs[..|fs| - 1], filter), tail, p, k);
    ChildPath(f, p);
    if Admits(filter, FileItem(f)) {
      ListedSingle(FileLeaf(f), p, k);
      assert p + [Basename(f)] == f;
    }
  }

  lemma {:induction false} FileLeavesListed(fs: seq<Path>, filter: Option<Item -> bool>, p: Path, k: Kind, q: Path)
    requires forall f :: f in fs ==> IsChild(f, p)
    ensures q in Listed(FileLeaves(fs, filter), p, k) <==>
      k == FileKind && q in fs && Admits(filter, FileItem(q))
    decreases |fs|
  {
    if fs != [] {
      var f := fs[|fs| - 1];
      var init := fs[..|fs| - 1];
      assert fs == init + [f];
      FileLeavesListed(init, filter, p, k, q);
      FileLeavesListedLast(fs, filter, p, k);
    }
  }

  /** `q` is listed through the admitted directory `d`: it is `d` itself or
      something listed in `d`'s own export. */
  predicate ListedVia(n: Node, d: Path, filter: Option<Item -> bool>, k: Kind, q: Path) {
    Admits(filter, DirItem(d))
    && ((k == DirKind && q == d) || q in Listed(Export(n, d, filter).children, d, k))
  }

  lemma DirTreeListed(n: Node, p: Path, d: Path, filter: Option<Item -> bool>, k: Kind, q: Path)
    requires IsChild(d, p) && Admits(filter, DirItem(d))
    ensures q in Listed([Export(n, d, filter)], p, k) <==> ListedVia(n, d, filter, k, q)
  {
    ChildPath(d, p);
    ListedSingle(Export(n, d, filter), p, k);
    assert p + [Basename(d)] == d;
  }

  lemma DirTreesStep(n: Node, p: Path, ds: seq<Path>, filter: Option<Item -> bool>, k: Kind, q: Path)
    requires ds != []
    requires forall d :: d in ds ==> IsChild(d, p) && KindAt(n, d) == DirKind
    ensures forall e :: e in ds[..|ds| - 1] ==> e in ds
    ensures q in Listed(DirTrees(n, p, ds, filter), p, k) <==>
      q in Listed(DirTrees(n, p, ds[..|ds| - 1], filter), p, k) || ListedVia(n, ds[|ds| - 1], filter, k, q)
  {
    var d := ds[|ds| - 1];
    var init := ds[..|ds| - 1];
    assert d in ds;
    assert forall e :: e in init ==> e in ds;
    var tail := if Admits(filter, DirItem(d)) then [Export(n, d, filter)] else [];
    ListedConcat(DirTrees(n, p, init, filter), tail, p, k);
    if Admits(filter, DirItem(d)) {
      DirTreeListed(n, p, d, filter, k, q);
    }
  }

  lemma {:induction false} DirTreesListed(n: Node, p: Path, ds: seq<Path>, filter: Option<Item -> bool>, k: Kind, q: Path)
    requires forall d :: d in ds ==> IsChild(d, p) && KindAt(n, d) == DirKind
    ensures q in Listed(DirTrees(n, p, ds, filter), p, k) <==>
      exists d :: d in ds && ListedVia(n, d, filter, k, q)
    decreases |ds|
  {
    if ds != [] {
      var d := ds[|ds| - 1];
      var init := ds[..|ds| - 1];
      DirTreesStep(n, p, ds, filter, k, q);
      DirTreesListed(n, p, init, filter, k, q);
      assert forall e :: e in ds <==> e in init || e == d;
    }
  }

  function ItemOf(k: Kind, q: Path): Item {
    if k == FileKind then FileItem(q) else DirItem(q)
  }

  /** For a child of `p` the chain is the child alone. */
  lemma ChainChild(filter: Option<Item -> bool>, p: Path, q: Path, k: Kind)
    requires IsChild(q, p)
    ensures p < q
    ensures AdmittedChain(filter, p, q, k) <==> Admits(filter, ItemOf(k, q))
  {
    ChildPath(q, p);
  }

  /** Below a child directory `d` of `p`, the chain from `p` is `d` followed by
      the chain from `d`. */
  lemma ChainStep(filter: Option<Item -> bool>, p: Path, d: Path, q: Path, k: Kind)
    requires IsChild(d, p) && d < q
    ensures p < q
    ensures AdmittedChain(filter, p, q, k) <==> Admits(filter, DirItem(d)) && AdmittedChain(filter, d, q, k)
  {
    ChildPath(d, p);
    assert q[..|d|] == d;
  }

  /** `q` is `d` or below it, of kind `k`, with `d` and the chain from `d`
      admitted: what the export of the child `d` contributes. */
  ghost predicate ListedBelow(n: Node, d: Path, filter: Option<Item -> bool>, k: Kind, q: Path) {
    Admits(filter, DirItem(d)) && d <= q && KindAt(n, q) == k && (d < q ==> AdmittedChain(filter, d, q, k))
  }

  /** One level of the export: its own files, then what each admitted child
      directory lists. */
  lemma ExportUnfold(n: Node, p: Path, filter: Option<Item -> bool>, k: Kind, q: Path)
    requires k != Missing
    requires forall d :: d in KindChildren(n, p, DirKind) ==>
      (ListedVia(n, d, filter, k, q) <==> ListedBelow(n, d, filter, k, q))
    ensures q in Listed(Export(n, p, filter).children, p, k) <==>
      (k == FileKind && q in KindChildren(n, p, FileKind) && Admits(filter, FileItem(q)))
      || exists d :: d in KindChildren(n, p, DirKind) && ListedBelow(n, d, filter, k, q)
  {
    var fs := KindChildren(n, p, FileKind);
    var ds := KindChildren(n, p, DirKind);
    KindChildrenAll(n, p, FileKind);
    KindChildrenAll(n, p, DirKind);
    ListedConcat(FileLeaves(fs, filter), DirTrees(n, p, ds, filter), p, k);
    FileLeavesListed(fs, filter, p, k, q);
    DirTreesListed(n, p, ds, filter, k, q);
  }

  /** The same cases read as paths: a child, or something below a child
      directory. */
  lemma ExportCases(n: Node, p: Path, filter: Option<Item -> bool>, k: Kind, q: Path)
    requires k != Missing
    ensures ((k == FileKind && q in KindChildren(n, p, FileKind) && Admits(filter, FileItem(q)))
      || exists d :: d in KindChildren(n, p, DirKind) && ListedBelow(n, d, filter, k, q))
      <==> p < q && KindAt(n, q) == k && AdmittedChain(filter, p, q, k)
  {
    var ds := KindChildren(n, p, DirKind);
    KindChildrenMember(n, p, FileKind, q);
    if p < q && KindAt(n, q) == k && AdmittedChain(filter, p, q, k) {
      var d := q[..|p| + 1];
      assert IsChild(d, p);
      if d == q {
        ChainChild(filter, p, q, k);
        if k == DirKind {
          KindChildrenMember(n, p, DirKind, q);
          assert ListedBelow(n, q, filter, k, q);
        }
      } else {
        AncestorIsDir(n, q, d);
        KindChildrenMember(n, p, DirKind, d);
        ChainStep(filter, p, d, q, k);
        assert ListedBelow(n, d, filter, k, q);
      }
    }
    if exists d :: d in ds && ListedBelow(n, d, filter, k, q) {
      var d :| d in ds && ListedBelow(n, d, filter, k, q);
      KindChildrenMember(n, p, DirKind, d);
      ChildPath(d, p);
      if d == q {
        ChainChild(filter, p, q, k);
      } else {
        ChainStep(filter, p, d, q, k);
      }
    }
    if k == FileKind && q in KindChildren(n, p, FileKind) && Admits(filter, FileItem(q)) {
      ChainChild(filter, p, q, k);
    }
  }

  /** What the export of `p` lists: exactly the entries of kind `k` below `p`
      that the filter admits together with every directory on the way down. */
  lemma {:induction false} ExportListed(n: Node, p: Path, filter: Option<Item -> bool>, k: Kind, q: Path)
    requires k != Missing
    ensures q in Listed(Export(n, p, filter).children, p, k) <==>
      p < q && KindAt(n, q) == k && AdmittedChain(filter, p, q, k)
    decreases HeightAt(n, p)
  {
    KindChildrenAll(n, p, DirKind);
    forall d | d in KindChildren(n, p, DirKind)
      ensures ListedVia(n, d, filter, k, q) <==> ListedBelow(n, d, filter, k, q)
    {
      ChildHeightOf(n, p, d);
      ExportListed(n, d, filter, k, q);
      assert KindAt(n, d) == DirKind;
      if d <= q && |d| == |q| {
        assert d == q;
      }
    }
    ExportUnfold(n, p, filter, k, q);
    ExportCases(n, p, filter, k, q);
  }

  /** Without a filter the export lists every entry below the directory. */
  lemma ExportUnfiltered(n: Node, p: Path, k: Kind, q: Path)
    requires k != Missing
    ensures q in Listed(Export(n, p, None).children, p, k) <==> q in RecAll(n, p, k)
  {
    ExportListed(n, p, None, k, q);
    RecAllMember(n, p, k, q);
  }

  /** The filter of the repository's own test: skip `node_modules` and
      `.git` by basename. */
  function SkipIgnored(): Item -> bool {
    (it: Item) => Basename(it.path) != "node_modules" && Basename(it.path) != ".git"
  }

  predicate Ignored(x: string) {
    x == "node_modules" || x == ".git"
  }

  /** With that filter the export lists an entry of the tree exactly when no
      segment of its path is `node_modules` or `.git`: both directories are
      dropped with everything below them. */
  lemma SkipIgnoredListed(n: Node, k: Kind, q: Path)
    requires k != Missing
    ensures q in Listed(Export(n, [], Some(SkipIgnored())).children, [], k) <==>
      q != [] && KindAt(n, q) == k && forall i :: 0 <= i < |q| ==> !Ignored(q[i])
  {
    ExportListed(n, [], Some(SkipIgnored()), k, q);
    if q != [] {
      SkipIgnoredChain(q, k);
    }
  }

  /** Below the root, the filter admits the whole chain down to `q` exactly
      when no segment of `q` is ignored. */
  lemma SkipIgnoredChain(q: Path, k: Kind)
    requires q != []
    ensures var root: Path := [];
      root < q && (AdmittedChain(Some(SkipIgnored()), root, q, k) <==> forall i :: 0 <= i < |q| ==> !Ignored(q[i]))
  {
    var f := Some(SkipIgnored());
    var root: Path := [];
    assert root < q;
    assert Admits(f, ItemOf(k, q)) <==> !Ignored(q[|q| - 1]);
    forall i | 0 < i < |q| ensures Admits(f, DirItem(q[..i])) <==> !Ignored(q[i - 1]) {
      assert Basename(q[..i]) == q[i - 1];
    }
    if forall i :: 0 <= i < |q| ==> !Ignored(q[i]) {
      forall i | 0 < i < |q| ensures Admits(f, DirItem(q[..i])) {
        assert !Ignored(q[i - 1]);
      }
    }
    if AdmittedChain(f, root, q, k) {
      forall i | 0 <= i < |q| ensures !Ignored(q[i]) {
        if i < |q| - 1 {
          assert Admits(f, DirItem(q[..i + 1]));
        }
      }
    }
  }
}
