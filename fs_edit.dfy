/** The two tree edits every filesystem mutation is made of: put a node at a
    path, and delete the entry at a path. Each comes with the law that says what
    a later lookup sees. */
module FsEdit {
  import opened Results
  import opened FsTree

  /** Put `m` at `p`: an existing entry is replaced where it stands among its
      siblings; a missing one is appended to its parent directory (a new entry
      is listed last). Nothing happens when the parent is not a directory. */
  function Put(n: Node, p: Path, m: Node): Node
    decreases |p|
  {
    if p == [] then m
    else match n
      case File(_) => n
      case Dir(es) =>
        var i := IndexOf(es, p[0]);
        if i >= 0 then Dir(es[i := Entry(p[0], Put(es[i].node, p[1..], m))])
        else if |p| == 1 then Dir(es + [Entry(p[0], m)])
        else n
  }

  /** Remove the entry at `p`, with its whole subtree. */
  function Delete(n: Node, p: Path): Node
    decreases |p|
  {
    if p == [] then n
    else match n
      case File(_) => n
      case Dir(es) =>
        var i := IndexOf(es, p[0]);
        if i < 0 then n
        else if |p| == 1 then Dir(es[..i] + es[i + 1..])
        else Dir(es[i := Entry(p[0], Delete(es[i].node, p[1..]))])
  }

  // ---- entry-list facts ----

  lemma IndexOfUnique(es: seq<Entry>, x: Segment, i: int)
    requires -1 <= i < |es|
    requires 0 <= i ==> es[i].name == x && forall j :: 0 <= j < i ==> es[j].name != x
    requires i == -1 ==> forall j :: 0 <= j < |es| ==> es[j].name != x
    ensures IndexOf(es, x) == i
  {
  }

  lemma FindReplace(es: seq<Entry>, i: nat, c: Node, y: Segment)
    requires DistinctNames(es) && i < |es|
    ensures DistinctNames(es[i := Entry(es[i].name, c)])
    ensures Find(es[i := Entry(es[i].name, c)], y) == if y == es[i].name then Some(c) else Find(es, y)
  {
    var es' := es[i := Entry(es[i].name, c)];
    assert forall j :: 0 <= j < |es| ==> es'[j].name == es[j].name;
    IndexOfUnique(es', y, IndexOf(es, y));
    IndexOfDistinct(es, i);
  }

  lemma FindAppend(es: seq<Entry>, x: Segment, m: Node, y: Segment)
    requires IndexOf(es, x) < 0
    ensures Find(es + [Entry(x, m)], y) == if y == x then Some(m) else Find(es, y)
  {
    var es' := es + [Entry(x, m)];
    var k := IndexOf(es, y);
    if k >= 0 {
      IndexOfUnique(es', y, k);
    } else if y == x {
      IndexOfUnique(es', y, |es|);
    } else {
      IndexOfUnique(es', y, -1);
    }
  }

  /** The entries left after removing entry `i`, position by position. */
  lemma RemoveAtEntries(es: seq<Entry>, i: nat)
    requires i < |es|
    ensures |es[..i] + es[i + 1..]| == |es| - 1
    ensures forall j :: 0 <= j < |es| - 1 ==> (es[..i] + es[i + 1..])[j] == if j < i then es[j] else es[j + 1]
  {
  }

  lemma RemoveAtDistinct(es: seq<Entry>, i: nat)
    requires DistinctNames(es) && i < |es|
    ensures DistinctNames(es[..i] + es[i + 1..])
  {
    RemoveAtEntries(es, i);
  }

  lemma FindRemove(es: seq<Entry>, i: nat, y: Segment)
    requires DistinctNames(es) && i < |es|
    ensures DistinctNames(es[..i] + es[i + 1..])
    ensures Find(es[..i] + es[i + 1..], y) == if y == es[i].name then None else Find(es, y)
  {
    RemoveAtDistinct(es, i);
    var es' := es[..i] + es[i + 1..];
    RemoveAtEntries(es, i);
    var k := IndexOf(es, y);
    IndexOfDistinct(es, i);
    if y == es[i].name {
      IndexOfUnique(es', y, -1);
    } else if k < 0 {
      IndexOfUnique(es', y, -1);
    } else if k < i {
      IndexOfUnique(es', y, k);
    } else {
      IndexOfUnique(es', y, k - 1);
    }
  }

  // ---- the lookup laws ----

  /** One level of `Put`: under a directory whose entry `p[0]` exists (or is
      the last segment), the entry list changes only at `p[0]`. */
  lemma PutStep(n: Node, p: Path, m: Node, y: Segment)
    requires Valid(n) && n.Dir? && p != []
    requires IndexOf(n.entries, p[0]) >= 0 || |p| == 1
    ensures Put(n, p, m).Dir?
    ensures y != p[0] ==> Find(Put(n, p, m).entries, y) == Find(n.entries, y)
    ensures y == p[0] ==> Find(Put(n, p, m).entries, y) == Some(Put(ChildOrEmpty(n, p[0]), p[1..], m))
  {
    var es := n.entries;
    var i := IndexOf(es, p[0]);
    if i >= 0 {
      assert [p[0]][1..] == [];
      assert Lookup(n, [p[0]]) == Some(es[i].node);
      FindReplace(es, i, Put(es[i].node, p[1..], m), y);
    } else {
      FindAppend(es, p[0], m, y);
    }
  }

  /** The entry `x` of a directory, or an empty directory when there is none. */
  function ChildOrEmpty(n: Node, x: Segment): Node {
    match Lookup(n, [x])
    case None => Dir([])
    case Some(c) => c
  }

  /** The parent of `p` being a directory, so is every node on the way. */
  lemma PutPathOpen(n: Node, p: Path)
    requires p != [] && KindAt(n, Parent(p)) == DirKind
    ensures n.Dir? && (IndexOf(n.entries, p[0]) >= 0 || |p| == 1)
    ensures |p| > 1 ==> KindAt(ChildOrEmpty(n, p[0]), Parent(p[1..])) == DirKind
  {
    if Parent(p) != [] {
      AncestorIsDir(n, Parent(p), []);
      assert Parent(p) == [p[0]] + Parent(p[1..]);
      LookupConcat(n, [p[0]], Parent(p[1..]));
    }
  }

  /** After `Put(n, p, m)` (parent of `p` a directory): below `p` one sees `m`,
      above `p` directories, and everywhere else the old tree. */
  lemma {:induction false} LookupPut(n: Node, p: Path, m: Node, q: Path)
    requires Valid(n) && p != [] && KindAt(n, Parent(p)) == DirKind
    ensures p <= q ==> Lookup(Put(n, p, m), q) == Lookup(m, q[|p|..])
    ensures q < p ==> KindAt(Put(n, p, m), q) == DirKind
    ensures !(p <= q) && !(q < p) ==> Lookup(Put(n, p, m), q) == Lookup(n, q)
    decreases |p|
  {
    PutPathOpen(n, p);
    if q != [] {
      var y := q[0];
      PutStep(n, p, m, y);
      if y == p[0] {
        var c := ChildOrEmpty(n, p[0]);
        var rest := p[1..];
        if rest == [] {
          assert Put(c, rest, m) == m;
        } else {
          LookupValid(n, [p[0]]);
          LookupPut(c, rest, m, q[1..]);
          assert p <= q <==> rest <= q[1..];
          assert q < p <==> q[1..] < rest;
          if p <= q {
            assert q[1..][|rest|..] == q[|p|..];
          }
        }
      }
    }
  }

  /** After `Delete(n, p)`: nothing at or below `p`, the same kinds above `p`, and
      the old tree everywhere else. */
  lemma {:induction false} LookupDelete(n: Node, p: Path, q: Path)
    requires Valid(n) && p != []
    ensures p <= q ==> Lookup(Delete(n, p), q) == None || Lookup(n, p) == None
    ensures p <= q && Lookup(n, p) == None ==> Lookup(Delete(n, p), q) == None
    ensures q < p ==> KindAt(Delete(n, p), q) == KindAt(n, q)
    ensures !(p <= q) && !(q < p) ==> Lookup(Delete(n, p), q) == Lookup(n, q)
    decreases |p|
  {
    match n
    case File(_) =>
    case Dir(es) =>
      var x, rest := p[0], p[1..];
      var i := IndexOf(es, x);
      if i >= 0 && q != [] {
        var y := q[0];
        if |p| == 1 {
          FindRemove(es, i, y);
        } else {
          FindReplace(es, i, Delete(es[i].node, rest), y);
          if y == x {
            LookupDelete(es[i].node, rest, q[1..]);
            assert p <= q <==> rest <= q[1..];
            assert q < p <==> q[1..] < rest;
          }
        }
      }
  }

  lemma {:induction false} DeleteMissing(n: Node, p: Path)
    requires Valid(n) && Lookup(n, p) == None
    ensures Delete(n, p) == n
    decreases |p|
  {
    if p != [] && n.Dir? {
      var i := IndexOf(n.entries, p[0]);
      if i >= 0 {
        DeleteMissing(n.entries[i].node, p[1..]);
        assert n.entries[i := Entry(p[0], n.entries[i].node)] == n.entries;
      }
    }
  }

  lemma {:induction false} ValidPut(n: Node, p: Path, m: Node)
    requires Valid(n) && Valid(m)
    ensures Valid(Put(n, p, m))
    decreases |p|
  {
    if p != [] && n.Dir? {
      var es := n.entries;
      var i := IndexOf(es, p[0]);
      if i >= 0 {
        ValidPut(es[i].node, p[1..], m);
        FindReplace(es, i, Put(es[i].node, p[1..], m), p[0]);
      } else if |p| == 1 {
        var es' := es + [Entry(p[0], m)];
        assert forall j :: 0 <= j < |es| ==> es'[j] == es[j];
      }
    }
  }

  lemma {:induction false} ValidDelete(n: Node, p: Path)
    requires Valid(n)
    ensures Valid(Delete(n, p))
    decreases |p|
  {
    if p != [] && n.Dir? {
      var es := n.entries;
      var i := IndexOf(es, p[0]);
      if i >= 0 {
        if |p| == 1 {
          FindRemove(es, i, p[0]);
          var es' := es[..i] + es[i + 1..];
          assert forall j :: 0 <= j < |es'| ==> es'[j] == if j < i then es[j] else es[j + 1];
        } else {
          ValidDelete(es[i].node, p[1..]);
          FindReplace(es, i, Delete(es[i].node, p[1..]), p[0]);
        }
      }
    }
  }
}
