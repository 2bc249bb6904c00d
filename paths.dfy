/** The path arithmetic the entities use: `path.resolve` over the stored parts,
    `path.dirname` and `path.basename`. A path is a sequence of segments from
    the root, and the working directory is the root. */
module Paths {
  import opened FsTree

  /** One argument of `path.resolve`: an absolute path, or a relative one
      read against what stands to its left. */
  datatype PathArg = Abs(segs: Path) | Rel(segs: Path)

  /** `path.resolve(...parts)`, read from the right: a relative part extends
      what the parts to its left resolve to, and an absolute part discards
      them. With no absolute part the start is the working directory, which
      is the root here. */
  function Resolve(parts: seq<PathArg>): Path
  {
    if parts == [] then []
    else
      var last := parts[|parts| - 1];
      if last.Abs? then last.segs else Resolve(parts[..|parts| - 1]) + last.segs
  }

  /** The segments of the parts, one after another. */
  function Concat(parts: seq<PathArg>): Path
  {
    if parts == [] then [] else Concat(parts[..|parts| - 1]) + parts[|parts| - 1].segs
  }

  predicate AllRelative(parts: seq<PathArg>)
  {
    forall i :: 0 <= i < |parts| ==> parts[i].Rel?
  }

  /** Relative parts only: they are joined in order onto the root. */
  lemma {:induction false} ResolveRelative(parts: seq<PathArg>)
    requires AllRelative(parts)
    ensures Resolve(parts) == Concat(parts)
  {
    if parts != [] {
      var init := parts[..|parts| - 1];
      assert AllRelative(init) by {
        forall i | 0 <= i < |init| ensures init[i].Rel? {
          assert init[i] == parts[i];
        }
      }
      ResolveRelative(init);
    }
  }

  /** One more part on the right: an absolute one replaces the result, a
      relative one extends it. */
  lemma ResolveSnoc(parts: seq<PathArg>, a: PathArg)
    ensures Resolve(parts + [a]) == if a.Abs? then a.segs else Resolve(parts) + a.segs
    ensures Concat(parts + [a]) == Concat(parts) + a.segs
  {
    assert (parts + [a])[..|parts|] == parts;
  }

  /** The last absolute part resets the result: what stands before it is
      discarded, and the relative parts after it are joined onto it. */
  lemma {:induction false} ResolveReset(pre: seq<PathArg>, q: Path, post: seq<PathArg>)
    requires AllRelative(post)
    ensures Resolve(pre + [Abs(q)] + post) == q + Concat(post)
    decreases |post|
  {
    if post == [] {
      assert pre + [Abs(q)] + post == pre + [Abs(q)];
      ResolveSnoc(pre, Abs(q));
    } else {
      var init, last := post[..|post| - 1], post[|post| - 1];
      assert post == init + [last];
      assert pre + [Abs(q)] + post == (pre + [Abs(q)] + init) + [last];
      assert AllRelative(init) by {
        forall i | 0 <= i < |init| ensures init[i].Rel? {
          assert init[i] == post[i];
        }
      }
      ResolveReset(pre, q, init);
      ResolveSnoc(pre + [Abs(q)] + init, last);
      ResolveSnoc(init, last);
    }
  }

  /** `new Base("/a/b", "/c").path` is "/c". */
  lemma ResolveLaterAbsolute(a: Path, c: Path)
    ensures Resolve([Abs(a), Abs(c)]) == c
  {
    ResolveReset([Abs(a)], c, []);
    assert [Abs(a)] + [Abs(c)] + [] == [Abs(a), Abs(c)];
  }

  /** `path.dirname`: the root is its own parent. */
  function Dirname(p: Path): (d: Path)
    ensures d <= p
    ensures p != [] ==> |d| == |p| - 1
  {
    if p == [] then [] else Parent(p)
  }

  /** `path.basename`: the last segment, and "" for the root. */
  function Basename(p: Path): (b: string)
    ensures p != [] ==> IsSegment(b)
  {
    if p == [] then "" else p[|p| - 1]
  }

  /** Dirname and basename split a path: joined again they give it back. */
  lemma DirnameBasename(p: Path)
    requires p != []
    ensures Dirname(p) + [Basename(p)] == p
    ensures Dirname(p) < p
  {
  }

  lemma ResolveSingle(a: Path)
    ensures Resolve([Abs(a)]) == a
  {
  }

  /** A child built as `new X(dir, name)` resolves to the directory plus the name. */
  lemma ResolvePair(a: Path, b: Path)
    ensures Resolve([Abs(a), Rel(b)]) == a + b
  {
    assert [Abs(a), Rel(b)][..1] == [Abs(a)];
  }

  /** `path.join(base, ...names)` of clean names. */
  function Join(base: Path, names: seq<Segment>): (p: Path)
    ensures base <= p && p[|base|..] == names
  {
    base + names
  }
}
