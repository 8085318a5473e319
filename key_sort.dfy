/**
 * Sorting by an integer key, generic in the element type: the properties the
 * file sort relies on, proved once without unfolding how a key is computed.
 */
module KeySort {

  predicate SortedBy<T>(s: seq<T>, key: T -> int) {
    forall i, j :: 0 <= i < j < |s| ==> key(s[i]) <= key(s[j])
  }

  /** The keys of `s`, position by position. */
  function KeysOf<T>(s: seq<T>, key: T -> int): seq<int> {
    seq(|s|, i requires 0 <= i < |s| => key(s[i]))
  }

  function Insert<T>(x: T, s: seq<T>, key: T -> int): (r: seq<T>)
    requires SortedBy(s, key)
    ensures SortedBy(r, key)
    ensures multiset(r) == multiset(s) + multiset{x}
    decreases |s|
  {
    if s == [] then [x]
    else if key(x) <= key(s[0]) then
      assert forall i :: 0 <= i < |s| ==> key(x) <= key(s[i]) by {
        forall i | 0 <= i < |s| ensures key(x) <= key(s[i]) {
          if i > 0 { assert key(s[0]) <= key(s[i]); }
        }
      }
      SortedCons(x, s, key);
      [x] + s
    else
      var rest := Insert(x, s[1..], key);
      assert s == [s[0]] + s[1..];
      LowerBound(s[0], x, s[1..], rest, key);
      SortedCons(s[0], rest, key);
      [s[0]] + rest
  }

  lemma SortedCons<T>(y: T, s: seq<T>, key: T -> int)
    requires SortedBy(s, key)
    requires forall i :: 0 <= i < |s| ==> key(y) <= key(s[i])
    ensures SortedBy([y] + s, key)
  {
    var r := [y] + s;
    forall i, j | 0 <= i < j < |r| ensures key(r[i]) <= key(r[j]) {
      assert r[j] == s[j - 1];
      if i > 0 { assert r[i] == s[i - 1]; }
    }
  }

  /** An element no larger than `x` and than all of `s` is no larger than any of their permutations. */
  lemma LowerBound<T>(y: T, x: T, s: seq<T>, r: seq<T>, key: T -> int)
    requires key(y) <= key(x)
    requires forall i :: 0 <= i < |s| ==> key(y) <= key(s[i])
    requires multiset(r) == multiset(s) + multiset{x}
    ensures forall i :: 0 <= i < |r| ==> key(y) <= key(r[i])
  {
    forall i | 0 <= i < |r| ensures key(y) <= key(r[i]) {
      assert r[i] in multiset(r);
      if r[i] != x {
        assert r[i] in multiset(s);
        var j :| 0 <= j < |s| && s[j] == r[i];
      }
    }
  }

  function InsertionSort<T>(s: seq<T>, key: T -> int): (r: seq<T>)
    ensures SortedBy(r, key)
    ensures multiset(r) == multiset(s)
    ensures |r| == |s|
    decreases |s|
  {
    if s == [] then []
    else
      assert s == [s[0]] + s[1..];
      var r := Insert(s[0], InsertionSort(s[1..], key), key);
      assert |r| == |multiset(r)| == |multiset(s)| == |s|;
      r
  }

  lemma {:induction false} KeysOfAppend<T>(a: seq<T>, b: seq<T>, key: T -> int)
    ensures KeysOf(a + b, key) == KeysOf(a, key) + KeysOf(b, key)
  {
    assert forall i :: 0 <= i < |a + b| ==> (a + b)[i] == if i < |a| then a[i] else b[i - |a|];
  }

  /** Permuting the elements permutes their keys. */
  lemma {:induction false} PermutedKeys<T>(a: seq<T>, b: seq<T>, key: T -> int)
    requires multiset(a) == multiset(b)
    ensures multiset(KeysOf(a, key)) == multiset(KeysOf(b, key))
    decreases |a|
  {
    if a != [] {
      var x := a[0];
      assert x in multiset(b);
      var j :| 0 <= j < |b| && b[j] == x;
      var pre, post := b[..j], b[j + 1..];
      assert b == pre + [x] + post;
      assert a == [x] + a[1..];
      assert multiset(b) == multiset(pre) + multiset{x} + multiset(post);
      assert multiset(a) == multiset{x} + multiset(a[1..]);
      assert multiset(pre + post) == multiset(pre) + multiset(post);
      assert multiset(a[1..]) == multiset(a) - multiset{x};
      assert multiset(pre + post) == multiset(b) - multiset{x};
      PermutedKeys(a[1..], pre + post, key);
      KeysOfAppend(pre, post, key);
      KeysOfAppend(pre, [x], key);
      KeysOfAppend(pre + [x], post, key);
      KeysOfAppend([x], a[1..], key);
    }
  }

  lemma {:induction false} SortedIntsUnique(p: seq<int>, q: seq<int>)
    requires multiset(p) == multiset(q)
    requires forall i, j :: 0 <= i < j < |p| ==> p[i] <= p[j]
    requires forall i, j :: 0 <= i < j < |q| ==> q[i] <= q[j]
    ensures p == q
    decreases |p|
  {
    assert |p| == |multiset(p)| == |multiset(q)| == |q|;
    if p != [] {
      SortedHeadIsLeast(p, q);
      SortedHeadIsLeast(q, p);
      TailsPermuted(p, q);
      SortedIntsUnique(p[1..], q[1..]);
      assert p == [p[0]] + p[1..] && q == [q[0]] + q[1..];
    }
  }

  lemma SortedHeadIsLeast(p: seq<int>, q: seq<int>)
    requires p != [] && multiset(p) == multiset(q)
    requires forall i, j :: 0 <= i < j < |q| ==> q[i] <= q[j]
    ensures q != [] && q[0] <= p[0]
  {
    assert p[0] in multiset(q);
    var j :| 0 <= j < |q| && q[j] == p[0];
    if j > 0 { assert q[0] <= q[j]; }
  }

  lemma TailsPermuted<T>(p: seq<T>, q: seq<T>)
    requires p != [] && q != [] && p[0] == q[0]
    requires multiset(p) == multiset(q)
    ensures multiset(p[1..]) == multiset(q[1..])
  {
    assert p == [p[0]] + p[1..] && q == [q[0]] + q[1..];
    assert multiset(p[1..]) == multiset(p) - multiset{p[0]};
    assert multiset(q[1..]) == multiset(q) - multiset{q[0]};
  }

  /** Two key-sorted permutations of the same elements list the same keys in the same order. */
  lemma SortedKeysUnique<T>(a: seq<T>, b: seq<T>, key: T -> int)
    requires multiset(a) == multiset(b)
    requires SortedBy(a, key) && SortedBy(b, key)
    ensures KeysOf(a, key) == KeysOf(b, key)
  {
    PermutedKeys(a, b, key);
    SortedIntsUnique(KeysOf(a, key), KeysOf(b, key));
  }

  /** When the keys are pairwise different there is only one sorted arrangement. */
  lemma StrictlySortedUnique<T>(r: seq<T>, target: seq<T>, key: T -> int)
    requires multiset(r) == multiset(target)
    requires SortedBy(r, key)
    requires forall i, j :: 0 <= i < j < |target| ==> key(target[i]) < key(target[j])
    ensures r == target
  {
    assert |r| == |multiset(r)| == |multiset(target)| == |target|;
    SortedKeysUnique(r, target, key);
    forall i | 0 <= i < |r| ensures r[i] == target[i] {
      assert r[i] in multiset(target);
      var j :| 0 <= j < |target| && target[j] == r[i];
      assert KeysOf(r, key)[i] == KeysOf(target, key)[i];
    }
  }
}
