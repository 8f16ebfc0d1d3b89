/**
 Facts about the sizes of finite sets, used to turn per-call handler counts
 into the per-differentiator counts the reuse manager promises.
 */
module SetCounting {

  /** A subset is no larger than its superset, and one of the same size is the
      whole superset. */
  lemma SubsetCard<T>(a: set<T>, b: set<T>)
    requires a <= b
    ensures |a| <= |b|
    ensures |a| == |b| ==> a == b
  {
    assert b == a + (b - a);
    assert a * (b - a) == {};
    if |a| == |b| {
      assert |b - a| == 0;
    }
  }

  /** An image of a set of indices under a function that is one-to-one on it
      has as many elements as the index set. */
  lemma {:induction false} InjectiveImageCard<T>(indices: set<int>, f: int --> T)
    requires forall i :: i in indices ==> f.requires(i)
    requires forall i, j :: i in indices && j in indices && f(i) == f(j) ==> i == j
    ensures |set i | i in indices :: f(i)| == |indices|
    decreases |indices|
  {
    if indices != {} {
      if forall i :: i !in indices { assert false; }
      var k :| k in indices;
      var rest := indices - {k};
      InjectiveImageCard(rest, f);
      var image := set i | i in indices :: f(i);
      var restImage := set i | i in rest :: f(i);
      assert image == restImage + {f(k)};
      assert f(k) !in restImage;
    }
  }

  /** How many elements of `s` satisfy `p`. */
  function CountWhere<T>(s: seq<T>, p: T -> bool): nat
  {
    if s == [] then 0
    else CountWhere(s[..|s| - 1], p) + (if p(s[|s| - 1]) then 1 else 0)
  }

  /** Counting a prefix one element longer adds that element's verdict. */
  lemma CountWherePrefix<T>(s: seq<T>, p: T -> bool, k: nat)
    requires k < |s|
    ensures CountWhere(s[..k + 1], p) == CountWhere(s[..k], p) + (if p(s[k]) then 1 else 0)
  {
    assert s[..k + 1][..k] == s[..k];
  }

  /** The positions of `s` whose element satisfies `p`. */
  ghost function IndicesWhere<T>(s: seq<T>, p: T -> bool): set<int>
  {
    set i | 0 <= i < |s| && p(s[i])
  }

  /** Counting the elements that satisfy `p` counts their positions. */
  lemma {:induction false} CountWhereIsCard<T>(s: seq<T>, p: T -> bool)
    ensures CountWhere(s, p) == |IndicesWhere(s, p)|
  {
    if s != [] {
      var n := |s| - 1;
      CountWhereIsCard(s[..n], p);
      if p(s[n]) {
        assert IndicesWhere(s, p) == IndicesWhere(s[..n], p) + {n};
      } else {
        assert IndicesWhere(s, p) == IndicesWhere(s[..n], p);
      }
    }
  }

  /** A count of zero means no element satisfies `p`. */
  lemma {:induction false} CountWhereZero<T>(s: seq<T>, p: T -> bool)
    requires CountWhere(s, p) == 0
    ensures forall i :: 0 <= i < |s| ==> !p(s[i])
  {
    if s != [] {
      var n := |s| - 1;
      CountWhereZero(s[..n], p);
      assert forall i :: 0 <= i < n ==> s[..n][i] == s[i];
    }
  }
}
