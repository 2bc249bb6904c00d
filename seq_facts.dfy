/** Facts about duplicate-free sequences: the shape of every listing here. */
module SeqFacts {

  predicate NoDup<T(==)>(s: seq<T>) {
    forall i, j :: 0 <= i < j < |s| ==> s[i] != s[j]
  }

  lemma NoDupConcat<T>(a: seq<T>, b: seq<T>)
    ensures NoDup(a + b) <==> NoDup(a) && NoDup(b) && forall x :: x in a ==> x !in b
  {
    var c := a + b;
    assert forall i :: 0 <= i < |a| ==> c[i] == a[i];
    assert forall i :: 0 <= i < |b| ==> c[|a| + i] == b[i];
    if NoDup(a) && NoDup(b) && forall x :: x in a ==> x !in b {
      forall i, j | 0 <= i < j < |c| ensures c[i] != c[j] {
        if j < |a| {
        } else if i >= |a| {
          assert c[i] == b[i - |a|] && c[j] == b[j - |a|];
        } else {
          assert c[i] in a && c[j] == b[j - |a|];
        }
      }
    }
    if NoDup(c) {
      forall i, j | 0 <= i < j < |b| ensures b[i] != b[j] {
        assert c[|a| + i] == b[i] && c[|a| + j] == b[j];
      }
      forall i, j | 0 <= i < |a| && 0 <= j < |b| ensures a[i] != b[j] {
        assert c[i] == a[i] && c[|a| + j] == b[j];
      }
    }
  }

  lemma {:induction false} NoDupMultiset<T>(a: seq<T>, x: T)
    requires NoDup(a)
    ensures multiset(a)[x] == if x in a then 1 else 0
  {
    if a != [] {
      var a', y := a[..|a| - 1], a[|a| - 1];
      assert a == a' + [y];
      NoDupConcat(a', [y]);
      NoDupMultiset(a', x);
    }
  }

  /** Two duplicate-free sequences with the same members hold the same multiset. */
  lemma SameMembersMultiset<T>(a: seq<T>, b: seq<T>)
    requires NoDup(a) && NoDup(b)
    requires forall x :: x in a <==> x in b
    ensures multiset(a) == multiset(b)
  {
    forall x ensures multiset(a)[x] == multiset(b)[x] {
      NoDupMultiset(a, x);
      NoDupMultiset(b, x);
    }
  }

  lemma {:induction false} NoDupLength<T>(a: seq<T>, b: seq<T>)
    requires NoDup(a) && forall x :: x in a ==> x in b
    ensures |a| <= |b|
  {
    if a != [] {
      var a', x := a[..|a| - 1], a[|a| - 1];
      assert a == a' + [x];
      NoDupConcat(a', [x]);
      assert x in a && x in b;
      var i :| 0 <= i < |b| && b[i] == x;
      var b' := b[..i] + b[i + 1..];
      forall y | y in a' ensures y in b' {
        assert y in b && y != x;
        var j :| 0 <= j < |b| && b[j] == y;
        if j < i { assert b'[j] == y; } else { assert b'[j - 1] == y; }
      }
      NoDupLength(a', b');
    }
  }

  /** A prefix of `a + b` no longer than `a` is a prefix of `a`. */
  lemma PrefixOfAppend<T>(a: seq<T>, b: seq<T>, i: nat)
    requires i <= |a|
    ensures (a + b)[..i] == a[..i]
  {
  }

  /** Appending `cs` to `ks + before` gives `ks` followed by `before + cs`. */
  lemma AppendShape<T>(ps: seq<T>, ks: seq<T>, before: seq<T>, cs: seq<T>, after: seq<T>)
    requires ps == ks + before && after == before + cs
    ensures ps + cs == ks + after
  {
  }
}
