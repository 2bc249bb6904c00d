/** Directory listings as the entity layer computes them: read the names, then
    keep the paths whose fresh `stat` has the wanted kind. Also the recursive
    listing that the comments beside the breadth-first walks describe, which is
    the reference those walks are proved against. */
module Listing {
  import opened Results
  import opened SeqFacts
  import opened FsTree
  import opened FsOps

  /** `q` is an entry directly inside `p`. */
  predicate IsChild(q: Path, p: Path) {
    q != [] && Parent(q) == p
  }

  /** `p + [x]` for every name `x` whose path has kind `k`, in name order: the
      map-then-filter that `files` and `dirs` apply to a directory read. */
  function ChildrenOfKind(n: Node, p: Path, names: seq<Segment>, k: Kind): seq<Path> {
    if names == [] then []
    else
      var x := names[|names| - 1];
      ChildrenOfKind(n, p, names[..|names| - 1], k) + (if KindAt(n, p + [x]) == k then [p + [x]] else [])
  }

  /** One more name of the listing. */
  lemma ChildrenOfKindStep(n: Node, p: Path, names: seq<Segment>, i: nat, k: Kind)
    requires i < |names|
    ensures ChildrenOfKind(n, p, names[..i + 1], k) ==
      ChildrenOfKind(n, p, names[..i], k) + (if KindAt(n, p + [names[i]]) == k then [p + [names[i]]] else [])
  {
    assert names[..i + 1][..i] == names[..i];
  }

  /** The children of kind `k` of the directory `p`, in directory order (nothing
      when `p` is not a directory). */
  function KindChildren(n: Node, p: Path, k: Kind): seq<Path> {
    match ReadDir(n, p)
    case Ok(names) => ChildrenOfKind(n, p, names, k)
    case Err(_) => []
  }

  /** The children of kind `k` of every directory in `ps`, one after the other. */
  function ChildrenOfEach(n: Node, ps: seq<Path>, k: Kind): seq<Path> {
    if ps == [] then []
    else ChildrenOfEach(n, ps[..|ps| - 1], k) + KindChildren(n, ps[|ps| - 1], k)
  }

  lemma ChildrenOfEachStep(n: Node, ps: seq<Path>, i: nat, k: Kind)
    requires i < |ps|
    ensures ChildrenOfEach(n, ps[..i + 1], k) == ChildrenOfEach(n, ps[..i], k) + KindChildren(n, ps[i], k)
  {
    assert ps[..i + 1][..i] == ps[..i];
  }

  // ---- one level ----

  lemma ChildPath(q: Path, p: Path)
    requires IsChild(q, p)
    ensures q == p + [q[|q| - 1]] && p < q
  {
  }

  lemma {:induction false} ChildrenOfKindMember(n: Node, p: Path, names: seq<Segment>, k: Kind, q: Path)
    ensures q in ChildrenOfKind(n, p, names, k) <==>
      IsChild(q, p) && q[|q| - 1] in names && KindAt(n, q) == k
  {
    if names != [] {
      var init, x := names[..|names| - 1], names[|names| - 1];
      assert names == init + [x];
      ChildrenOfKindMember(n, p, init, k, q);
      assert Parent(p + [x]) == p;
      if IsChild(q, p) {
        ChildPath(q, p);
      }
    }
  }

  lemma {:induction false} ChildrenOfKindNoDup(n: Node, p: Path, names: seq<Segment>, k: Kind)
    requires NoDup(names)
    ensures NoDup(ChildrenOfKind(n, p, names, k))
  {
    if names != [] {
      var init, x := names[..|names| - 1], names[|names| - 1];
      assert names == init + [x];
      NoDupConcat(init, [x]);
      ChildrenOfKindNoDup(n, p, init, k);
      ChildrenOfKindMember(n, p, init, k, p + [x]);
      NoDupConcat(ChildrenOfKind(n, p, init, k), if KindAt(n, p + [x]) == k then [p + [x]] else []);
    }
  }

  /** `files` (k = file) and `dirs` (k = directory) hold exactly the children of
      that kind. */
  lemma KindChildrenMember(n: Node, p: Path, k: Kind, q: Path)
    requires k != Missing
    ensures q in KindChildren(n, p, k) <==> IsChild(q, p) && KindAt(n, q) == k
  {
    match ReadDir(n, p)
    case Ok(names) =>
      var es := Lookup(n, p).value.entries;
      ChildrenOfKindMember(n, p, names, k, q);
      if IsChild(q, p) && KindAt(n, q) == k {
        var x := q[|q| - 1];
        ChildPath(q, p);
        LookupChild(n, p, x);
        var i := IndexOf(es, x);
        assert Names(es)[i] == x;
      }
    case Err(_) =>
      if IsChild(q, p) && KindAt(n, q) == k {
        AncestorIsDir(n, q, p);
        assert false;
      }
  }

  lemma KindChildrenAll(n: Node, p: Path, k: Kind)
    requires k != Missing
    ensures forall q :: q in KindChildren(n, p, k) ==> IsChild(q, p) && KindAt(n, q) == k
  {
    forall q | q in KindChildren(n, p, k) ensures IsChild(q, p) && KindAt(n, q) == k {
      KindChildrenMember(n, p, k, q);
    }
  }

  lemma KindChildrenNoDup(n: Node, p: Path, k: Kind)
    requires Valid(n)
    ensures NoDup(KindChildren(n, p, k))
  {
    if ReadDir(n, p).Ok? {
      LookupValid(n, p);
      ChildrenOfKindNoDup(n, p, ReadDir(n, p).value, k);
    }
  }

  lemma {:induction false} ChildrenOfEachMember(n: Node, ps: seq<Path>, k: Kind, q: Path)
    requires k != Missing
    ensures q in ChildrenOfEach(n, ps, k) <==> q != [] && Parent(q) in ps && KindAt(n, q) == k
  {
    if ps != [] {
      var init, d := ps[..|ps| - 1], ps[|ps| - 1];
      assert ps == init + [d];
      ChildrenOfEachMember(n, init, k, q);
      KindChildrenMember(n, d, k, q);
    }
  }

  lemma {:induction false} ChildrenOfEachNoDup(n: Node, ps: seq<Path>, k: Kind)
    requires Valid(n) && NoDup(ps) && k != Missing
    ensures NoDup(ChildrenOfEach(n, ps, k))
  {
    if ps != [] {
      var init, d := ps[..|ps| - 1], ps[|ps| - 1];
      assert ps == init + [d];
      NoDupConcat(init, [d]);
      ChildrenOfEachNoDup(n, init, k);
      KindChildrenNoDup(n, d, k);
      forall q | q in ChildrenOfEach(n, init, k) ensures q !in KindChildren(n, d, k) {
        ChildrenOfEachMember(n, init, k, q);
        KindChildrenMember(n, d, k, q);
      }
      NoDupConcat(ChildrenOfEach(n, init, k), KindChildren(n, d, k));
    }
  }

  // ---- the recursive reference listing ----

  lemma ChildHeightOf(n: Node, p: Path, d: Path)
    requires IsChild(d, p) && KindAt(n, d) != Missing
    ensures HeightAt(n, d) < HeightAt(n, p)
  {
    ChildPath(d, p);
    AncestorIsDir(n, d, p);
    ChildHeight(n, p, d[|d| - 1]);
  }

  /** The recursion in the comments beside `allDirs` (k = directory) and
      `allFiles` (k = file): the children of kind `k`, then the recursive
      listing of each child directory in turn. */
  function RecAll(n: Node, p: Path, k: Kind): seq<Path>
    decreases HeightAt(n, p), 1
  {
    KindChildrenAll(n, p, DirKind);
    KindChildren(n, p, k) + RecAllOf(n, p, KindChildren(n, p, DirKind), k)
  }

  function RecAllOf(n: Node, p: Path, ds: seq<Path>, k: Kind): seq<Path>
    requires forall d :: d in ds ==> IsChild(d, p) && KindAt(n, d) == DirKind
    decreases HeightAt(n, p), 0, |ds|
  {
    if ds == [] then []
    else
      var d := ds[|ds| - 1];
      ChildHeightOf(n, p, d);
      RecAllOf(n, p, ds[..|ds| - 1], k) + RecAll(n, d, k)
  }

  /** The recursive listing holds exactly the strict descendants of kind `k`. */
  lemma {:induction false} RecAllMember(n: Node, p: Path, k: Kind, q: Path)
    requires k != Missing
    ensures q in RecAll(n, p, k) <==> p < q && KindAt(n, q) == k
    decreases HeightAt(n, p), 1
  {
    KindChildrenAll(n, p, DirKind);
    KindChildrenMember(n, p, k, q);
    RecAllOfMember(n, p, KindChildren(n, p, DirKind), k, q);
    if p < q && |q| > |p| + 1 && KindAt(n, q) == k {
      var d := q[..|p| + 1];
      AncestorIsDir(n, q, d);
      assert Parent(d) == p;
      KindChildrenMember(n, p, DirKind, d);
    }
  }

  lemma {:induction false} RecAllOfMember(n: Node, p: Path, ds: seq<Path>, k: Kind, q: Path)
    requires k != Missing
    requires forall d :: d in ds ==> IsChild(d, p) && KindAt(n, d) == DirKind
    ensures q in RecAllOf(n, p, ds, k) <==>
      p < q && |q| > |p| + 1 && q[..|p| + 1] in ds && KindAt(n, q) == k
    decreases HeightAt(n, p), 0, |ds|
  {
    if ds != [] {
      var init, d := ds[..|ds| - 1], ds[|ds| - 1];
      assert ds == init + [d];
      ChildHeightOf(n, p, d);
      RecAllOfMember(n, p, init, k, q);
      RecAllMember(n, d, k, q);
      ChildPath(d, p);
      if d < q {
        assert q[..|p| + 1] == d;
      }
      if p < q && |q| > |p| + 1 && q[..|p| + 1] == d {
        assert q[..|d|] == d;
      }
    }
  }

  lemma {:induction false} RecAllNoDup(n: Node, p: Path, k: Kind)
    requires Valid(n) && k != Missing
    ensures NoDup(RecAll(n, p, k))
    decreases HeightAt(n, p), 1
  {
    var ds := KindChildren(n, p, DirKind);
    KindChildrenAll(n, p, DirKind);
    KindChildrenNoDup(n, p, k);
    KindChildrenNoDup(n, p, DirKind);
    RecAllOfNoDup(n, p, ds, k);
    forall q | q in KindChildren(n, p, k) ensures q !in RecAllOf(n, p, ds, k) {
      KindChildrenMember(n, p, k, q);
      RecAllOfMember(n, p, ds, k, q);
    }
    NoDupConcat(KindChildren(n, p, k), RecAllOf(n, p, ds, k));
  }

  lemma {:induction false} RecAllOfNoDup(n: Node, p: Path, ds: seq<Path>, k: Kind)
    requires Valid(n) && k != Missing && NoDup(ds)
    requires forall d :: d in ds ==> IsChild(d, p) && KindAt(n, d) == DirKind
    ensures NoDup(RecAllOf(n, p, ds, k))
    decreases HeightAt(n, p), 0, |ds|
  {
    if ds != [] {
      var init, d := ds[..|ds| - 1], ds[|ds| - 1];
      assert ds == init + [d];
      NoDupConcat(init, [d]);
      ChildHeightOf(n, p, d);
      RecAllOfNoDup(n, p, init, k);
      RecAllNoDup(n, d, k);
      ChildPath(d, p);
      forall q | q in RecAll(n, d, k) ensures q !in RecAllOf(n, p, init, k) {
        RecAllOfMember(n, p, init, k, q);
        RecAllMember(n, d, k, q);
        assert q[..|d|] == d;
      }
      NoDupConcat(RecAllOf(n, p, init, k), RecAll(n, d, k));
    }
  }

  // ---- the breadth-first closure ----

  /** A list that holds the directory children of `p` followed by the directory
      children of each of its own elements holds every directory below `p`:
      the state the `allDirs` worklist ends in. */
  lemma {:induction false} ClosureComplete(n: Node, p: Path, ps: seq<Path>, q: Path)
    requires ps == KindChildren(n, p, DirKind) + ChildrenOfEach(n, ps, DirKind)
    requires p < q && KindAt(n, q) == DirKind
    ensures q in ps
    decreases |q|
  {
    KindChildrenMember(n, p, DirKind, q);
    if |q| > |p| + 1 {
      var r := Parent(q);
      AncestorIsDir(n, q, r);
      ClosureComplete(n, p, ps, r);
      ChildrenOfEachMember(n, ps, DirKind, q);
    }
  }

  /** The state of the `allDirs` worklist after `cur` steps: the directory
      children of `p`, then those of the first `cur` entries, every entry a
      directory below `p`, no entry twice, and each entry listed after its
      parent. */
  ghost predicate BfsInvariant(n: Node, p: Path, ps: seq<Path>, cur: int) {
    0 <= cur <= |ps|
    && ps == KindChildren(n, p, DirKind) + ChildrenOfEach(n, ps[..cur], DirKind)
    && NoDup(ps)
    && (forall q :: q in ps ==> p < q && KindAt(n, q) == DirKind)
    && (forall k :: 0 <= k < |ps| ==> ps[k] != [] && (Parent(ps[k]) == p || Parent(ps[k]) in ps[..k]))
  }

  lemma BfsInit(n: Node, p: Path)
    requires Valid(n)
    ensures BfsInvariant(n, p, KindChildren(n, p, DirKind), 0)
  {
    var ps := KindChildren(n, p, DirKind);
    KindChildrenNoDup(n, p, DirKind);
    KindChildrenAll(n, p, DirKind);
    assert ps[..0] == [];
    forall q | q in ps ensures p < q {
      ChildPath(q, p);
    }
    forall k | 0 <= k < |ps| ensures ps[k] != [] && Parent(ps[k]) == p {
      assert ps[k] in ps;
    }
  }

  lemma BfsBound(n: Node, p: Path, ps: seq<Path>, cur: int)
    requires BfsInvariant(n, p, ps, cur)
    ensures |ps| <= |RecAll(n, p, DirKind)|
  {
    forall q | q in ps ensures q in RecAll(n, p, DirKind) {
      RecAllMember(n, p, DirKind, q);
    }
    NoDupLength(ps, RecAll(n, p, DirKind));
  }

  /** A new child of entry `cur` is not yet on the worklist: every listed
      entry hangs off `p` or off an entry before `cur`. */
  lemma BfsFresh(n: Node, p: Path, ps: seq<Path>, cur: int, q: Path)
    requires BfsInvariant(n, p, ps, cur) && cur < |ps|
    requires q in KindChildren(n, ps[cur], DirKind)
    ensures q !in ps
  {
    var d := ps[cur];
    KindChildrenMember(n, d, DirKind, q);
    KindChildrenMember(n, p, DirKind, q);
    ChildrenOfEachMember(n, ps[..cur], DirKind, q);
    assert d in ps;
  }

  lemma BfsStepShape(n: Node, p: Path, ps: seq<Path>, cur: int)
    requires 0 <= cur < |ps|
    requires ps == KindChildren(n, p, DirKind) + ChildrenOfEach(n, ps[..cur], DirKind)
    ensures var ps' := ps + KindChildren(n, ps[cur], DirKind);
      ps' == KindChildren(n, p, DirKind) + ChildrenOfEach(n, ps'[..cur + 1], DirKind)
  {
    var cs := KindChildren(n, ps[cur], DirKind);
    PrefixOfAppend(ps, cs, cur + 1);
    ChildrenOfEachStep(n, ps, cur, DirKind);
    AppendShape(ps, KindChildren(n, p, DirKind), ChildrenOfEach(n, ps[..cur], DirKind), cs,
                ChildrenOfEach(n, (ps + cs)[..cur + 1], DirKind));
  }

  /** One step of the worklist: append the directory children of entry `cur`. */
  lemma BfsStep(n: Node, p: Path, ps: seq<Path>, cur: int)
    requires Valid(n) && BfsInvariant(n, p, ps, cur) && cur < |ps|
    ensures BfsInvariant(n, p, ps + KindChildren(n, ps[cur], DirKind), cur + 1)
  {
    var d := ps[cur];
    var cs := KindChildren(n, d, DirKind);
    var ps' := ps + cs;
    BfsStepShape(n, p, ps, cur);
    KindChildrenNoDup(n, d, DirKind);
    forall q | q in cs ensures q !in ps {
      BfsFresh(n, p, ps, cur, q);
    }
    NoDupConcat(ps, cs);
    assert d in ps;
    forall q | q in ps' ensures p < q && KindAt(n, q) == DirKind {
      if q in cs {
        KindChildrenMember(n, d, DirKind, q);
        ChildPath(q, d);
      }
    }
    forall k | 0 <= k < |ps'| ensures ps'[k] != [] && (Parent(ps'[k]) == p || Parent(ps'[k]) in ps'[..k]) {
      if k < |ps| {
        assert ps'[..k] == ps[..k];
      } else {
        assert ps'[k] in cs;
        KindChildrenMember(n, d, DirKind, ps'[k]);
        assert ps'[..k][cur] == d;
      }
    }
  }

  /** A step keeps the invariant and the cursor below the bound. */
  lemma BfsAdvance(n: Node, p: Path, ps: seq<Path>, cur: int)
    requires Valid(n) && BfsInvariant(n, p, ps, cur) && cur < |ps|
    ensures BfsInvariant(n, p, ps + KindChildren(n, ps[cur], DirKind), cur + 1)
    ensures cur < |RecAll(n, p, DirKind)|
  {
    BfsStep(n, p, ps, cur);
    BfsBound(n, p, ps, cur);
  }

  /** The breadth-first walk `allDirs` performs, as a function of the tree. */
  function BfsFrom(n: Node, p: Path, ps: seq<Path>, cur: int): seq<Path>
    requires Valid(n) && BfsInvariant(n, p, ps, cur)
    decreases |RecAll(n, p, DirKind)| - cur
  {
    if cur == |ps| then ps
    else
      BfsAdvance(n, p, ps, cur);
      BfsFrom(n, p, ps + KindChildren(n, ps[cur], DirKind), cur + 1)
  }

  /** One turn of the worklist loop: the listing it leads to is unchanged,
      the invariant is kept, and the cursor stays within the bound. */
  lemma BfsFromStep(n: Node, p: Path, ps: seq<Path>, cur: int)
    requires Valid(n) && BfsInvariant(n, p, ps, cur) && cur < |ps|
    ensures KindAt(n, ps[cur]) == DirKind
    ensures BfsInvariant(n, p, ps + KindChildren(n, ps[cur], DirKind), cur + 1)
    ensures BfsFrom(n, p, ps + KindChildren(n, ps[cur], DirKind), cur + 1) == BfsFrom(n, p, ps, cur)
    ensures cur < |RecAll(n, p, DirKind)|
  {
    assert ps[cur] in ps;
    BfsAdvance(n, p, ps, cur);
  }

  lemma {:induction false} BfsFromDone(n: Node, p: Path, ps: seq<Path>, cur: int)
    requires Valid(n) && BfsInvariant(n, p, ps, cur)
    ensures BfsInvariant(n, p, BfsFrom(n, p, ps, cur), |BfsFrom(n, p, ps, cur)|)
    decreases |RecAll(n, p, DirKind)| - cur
  {
    if cur < |ps| {
      BfsAdvance(n, p, ps, cur);
      BfsFromDone(n, p, ps + KindChildren(n, ps[cur], DirKind), cur + 1);
    }
  }

  function BfsDirs(n: Node, p: Path): seq<Path>
    requires Valid(n)
  {
    BfsInit(n, p);
    BfsFrom(n, p, KindChildren(n, p, DirKind), 0)
  }

  /** Every entry of the breadth-first listing is a directory, in membership
      form. */
  lemma BfsDirsAllDirs(n: Node, p: Path)
    requires Valid(n)
    ensures forall d :: d in BfsDirs(n, p) ==> KindAt(n, d) == DirKind
  {
    BfsInit(n, p);
    BfsFromDone(n, p, KindChildren(n, p, DirKind), 0);
  }

  /** What `allDirs` returns: every directory below `p` exactly once, each one
      after its parent, and as a multiset the same as the recursive listing. */
  lemma BfsDirsSpec(n: Node, p: Path)
    requires Valid(n)
    ensures var ps := BfsDirs(n, p);
      ps == KindChildren(n, p, DirKind) + ChildrenOfEach(n, ps, DirKind)
      && NoDup(ps)
      && (forall q :: q in ps <==> p < q && KindAt(n, q) == DirKind)
      && (forall k :: 0 <= k < |ps| ==> ps[k] != [] && (Parent(ps[k]) == p || Parent(ps[k]) in ps[..k]))
      && multiset(ps) == multiset(RecAll(n, p, DirKind))
  {
    var ps := BfsDirs(n, p);
    BfsInit(n, p);
    BfsFromDone(n, p, KindChildren(n, p, DirKind), 0);
    assert ps[..|ps|] == ps;
    forall q | p < q && KindAt(n, q) == DirKind ensures q in ps {
      ClosureComplete(n, p, ps, q);
    }
    forall q ensures q in RecAll(n, p, DirKind) <==> q in ps {
      RecAllMember(n, p, DirKind, q);
    }
    RecAllNoDup(n, p, DirKind);
    SameMembersMultiset(ps, RecAll(n, p, DirKind));
  }

  /** What `allFiles` returns: the files of `p`, then the files of each entry of
      `allDirs` in turn. */
  function AllFilesOf(n: Node, p: Path): seq<Path>
    requires Valid(n)
  {
    KindChildren(n, p, FileKind) + ChildrenOfEach(n, BfsDirs(n, p), FileKind)
  }

  /** Every file below `p` exactly once; as a multiset, the recursive listing. */
  lemma AllFilesSpec(n: Node, p: Path)
    requires Valid(n)
    ensures NoDup(AllFilesOf(n, p))
    ensures forall q :: q in AllFilesOf(n, p) <==> p < q && KindAt(n, q) == FileKind
    ensures multiset(AllFilesOf(n, p)) == multiset(RecAll(n, p, FileKind))
  {
    var ds := BfsDirs(n, p);
    var fs := AllFilesOf(n, p);
    BfsDirsSpec(n, p);
    KindChildrenNoDup(n, p, FileKind);
    ChildrenOfEachNoDup(n, ds, FileKind);
    forall q ensures q in fs <==> p < q && KindAt(n, q) == FileKind {
      KindChildrenMember(n, p, FileKind, q);
      ChildrenOfEachMember(n, ds, FileKind, q);
      if p < q && KindAt(n, q) == FileKind && Parent(q) != p {
        AncestorIsDir(n, q, Parent(q));
      }
      if IsChild(q, p) {
        ChildPath(q, p);
      }
      if q != [] && Parent(q) in ds {
        assert p < Parent(q) && Parent(q) < q;
      }
    }
    forall q | q in KindChildren(n, p, FileKind) ensures q !in ChildrenOfEach(n, ds, FileKind) {
      KindChildrenMember(n, p, FileKind, q);
      ChildrenOfEachMember(n, ds, FileKind, q);
    }
    NoDupConcat(KindChildren(n, p, FileKind), ChildrenOfEach(n, ds, FileKind));
    forall q ensures q in RecAll(n, p, FileKind) <==> q in fs {
      RecAllMember(n, p, FileKind, q);
    }
    RecAllNoDup(n, p, FileKind);
    SameMembersMultiset(fs, RecAll(n, p, FileKind));
  }
}
