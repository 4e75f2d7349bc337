/** Python's ordering of sort keys and its stable `sorted`.

    Every sort key of the indexer is a tuple whose parts are an integer
    and a string, and Python compares both tuples and strings
    element by element, a proper prefix first. Keys are therefore
    modelled as sequences of integers (a string contributes its code
    points), compared lexicographically. */
module Ordering {

  /** `a < b` for Python sequences: the first difference decides, and a
      proper prefix is smaller. */
  predicate LexLt(a: seq<int>, b: seq<int>)
    decreases |a|
  {
    b != [] && (a == [] || a[0] < b[0] || (a[0] == b[0] && LexLt(a[1..], b[1..])))
  }

  lemma {:induction false} LexLtIrreflexive(a: seq<int>)
    ensures !LexLt(a, a)
    decreases |a|
  {
    if a != [] {
      LexLtIrreflexive(a[1..]);
    }
  }

  lemma {:induction false} LexLtTransitive(a: seq<int>, b: seq<int>, c: seq<int>)
    requires LexLt(a, b) && LexLt(b, c)
    ensures LexLt(a, c)
    decreases |a|
  {
    if a != [] && a[0] == b[0] && b[0] == c[0] {
      LexLtTransitive(a[1..], b[1..], c[1..]);
    }
  }

  /** Any two different keys are ordered one way or the other. */
  lemma {:induction false} LexLtTotal(a: seq<int>, b: seq<int>)
    ensures a == b || LexLt(a, b) || LexLt(b, a)
    decreases |a|
  {
    if a != [] && b != [] && a[0] == b[0] {
      LexLtTotal(a[1..], b[1..]);
      if a[1..] == b[1..] {
        assert a == [a[0]] + a[1..] && b == [b[0]] + b[1..];
      }
    }
  }

  lemma LexLtAsymmetric(a: seq<int>, b: seq<int>)
    ensures !(LexLt(a, b) && LexLt(b, a))
  {
    if LexLt(a, b) && LexLt(b, a) {
      LexLtTransitive(a, b, a);
      LexLtIrreflexive(a);
    }
  }

  /** The key part a string contributes: its code points. */
  function Codes(s: string): (r: seq<int>)
    ensures |r| == |s|
  {
    seq(|s|, i requires 0 <= i < |s| => s[i] as int)
  }

  /** Strings with the same key are the same string. */
  lemma CodesInjective(s: string, t: string)
    requires Codes(s) == Codes(t)
    ensures s == t
  {
    assert forall i | 0 <= i < |s| :: Codes(s)[i] == s[i] as int && Codes(t)[i] == t[i] as int;
  }

  /** Keys never decrease along `xs`. */
  predicate SortedBy<T>(xs: seq<T>, key: T -> seq<int>) {
    forall i, j | 0 <= i < j < |xs| :: !LexLt(key(xs[j]), key(xs[i]))
  }

  /** Places `x` in front of the first element whose key is not smaller
      than its own. */
  function Insert<T>(x: T, ys: seq<T>, key: T -> seq<int>): (r: seq<T>)
    decreases |ys|
  {
    if ys == [] || !LexLt(key(ys[0]), key(x)) then [x] + ys
    else [ys[0]] + Insert(x, ys[1..], key)
  }

  /** `sorted(xs, key=key)`: ascending by key, and stable, so that elements
      with equal keys keep their order in `xs`. */
  function SortBy<T>(xs: seq<T>, key: T -> seq<int>): seq<T>
    decreases |xs|
  {
    if xs == [] then [] else Insert(xs[0], SortBy(xs[1..], key), key)
  }

  /** The elements of `xs` whose key is `k`, in their order in `xs`. */
  function WithKey<T>(xs: seq<T>, key: T -> seq<int>, k: seq<int>): seq<T>
    decreases |xs|
  {
    if xs == [] then []
    else (if key(xs[0]) == k then [xs[0]] else []) + WithKey(xs[1..], key, k)
  }

  lemma {:induction false} InsertPermutes<T>(x: T, ys: seq<T>, key: T -> seq<int>)
    ensures multiset(Insert(x, ys, key)) == multiset(ys) + multiset{x}
    decreases |ys|
  {
    if !(ys == [] || !LexLt(key(ys[0]), key(x))) {
      InsertPermutes(x, ys[1..], key);
      assert ys == [ys[0]] + ys[1..];
    }
  }

  lemma {:induction false} InsertSorted<T>(x: T, ys: seq<T>, key: T -> seq<int>)
    requires SortedBy(ys, key)
    ensures SortedBy(Insert(x, ys, key), key)
    decreases |ys|
  {
    var r := Insert(x, ys, key);
    if ys == [] || !LexLt(key(ys[0]), key(x)) {
      forall i, j | 0 <= i < j < |r| ensures !LexLt(key(r[j]), key(r[i])) {
        if i == 0 {
          var y := ys[j - 1];
          LexLtTotal(key(ys[0]), key(y));
          if LexLt(key(ys[0]), key(y)) && LexLt(key(y), key(x)) {
            LexLtTransitive(key(ys[0]), key(y), key(x));
          }
        }
      }
    } else {
      var rest := Insert(x, ys[1..], key);
      InsertSorted(x, ys[1..], key);
      InsertPermutes(x, ys[1..], key);
      forall j | 0 < j < |r| ensures !LexLt(key(r[j]), key(ys[0])) {
        assert r[j] == rest[j - 1];
        assert r[j] in multiset(ys[1..]) + multiset{x};
        if r[j] == x {
          LexLtAsymmetric(key(ys[0]), key(x));
        } else {
          assert r[j] in ys[1..];
          var m :| 0 <= m < |ys[1..]| && ys[1..][m] == r[j];
          assert ys[m + 1] == r[j];
        }
      }
    }
  }

  /** `sorted` returns a permutation of its input. */
  lemma {:induction false} SortByPermutes<T>(xs: seq<T>, key: T -> seq<int>)
    ensures multiset(SortBy(xs, key)) == multiset(xs)
    decreases |xs|
  {
    if xs != [] {
      SortByPermutes(xs[1..], key);
      InsertPermutes(xs[0], SortBy(xs[1..], key), key);
      assert xs == [xs[0]] + xs[1..];
    }
  }

  /** `sorted` returns its input in ascending key order. */
  lemma {:induction false} SortBySorted<T>(xs: seq<T>, key: T -> seq<int>)
    ensures SortedBy(SortBy(xs, key), key)
    decreases |xs|
  {
    if xs != [] {
      SortBySorted(xs[1..], key);
      InsertSorted(xs[0], SortBy(xs[1..], key), key);
    }
  }

  lemma WithKeyCons<T>(x: T, ys: seq<T>, key: T -> seq<int>, k: seq<int>)
    ensures WithKey([x] + ys, key, k) == (if key(x) == k then [x] else []) + WithKey(ys, key, k)
  {
    assert ([x] + ys)[1..] == ys;
  }

  lemma {:induction false} InsertWithKey<T>(x: T, ys: seq<T>, key: T -> seq<int>, k: seq<int>)
    ensures WithKey(Insert(x, ys, key), key, k)
         == (if key(x) == k then [x] else []) + WithKey(ys, key, k)
    decreases |ys|
  {
    if ys == [] || !LexLt(key(ys[0]), key(x)) {
      WithKeyCons(x, ys, key, k);
    } else {
      var r := Insert(x, ys[1..], key);
      InsertWithKey(x, ys[1..], key, k);
      WithKeyCons(ys[0], r, key, k);
      WithKeyCons(ys[0], ys[1..], key, k);
      assert [ys[0]] + ys[1..] == ys;
      if key(x) == k {
        LexLtIrreflexive(k);
      }
    }
  }

  /** `sorted` is stable: for every key, the elements carrying that key
      come out in the order they went in. */
  lemma {:induction false} SortByStable<T>(xs: seq<T>, key: T -> seq<int>, k: seq<int>)
    ensures WithKey(SortBy(xs, key), key, k) == WithKey(xs, key, k)
    decreases |xs|
  {
    if xs != [] {
      SortByStable(xs[1..], key, k);
      InsertWithKey(xs[0], SortBy(xs[1..], key), key, k);
    }
  }

  /** Sorting what is already sorted changes nothing. */
  lemma {:induction false} SortBySortedIsIdentity<T>(xs: seq<T>, key: T -> seq<int>)
    requires SortedBy(xs, key)
    ensures SortBy(xs, key) == xs
    decreases |xs|
  {
    if xs != [] {
      assert SortedBy(xs[1..], key) by {
        forall i, j | 0 <= i < j < |xs[1..]| ensures !LexLt(key(xs[1..][j]), key(xs[1..][i])) {
          assert xs[1..][j] == xs[j + 1] && xs[1..][i] == xs[i + 1];
        }
      }
      SortBySortedIsIdentity(xs[1..], key);
      assert xs == [xs[0]] + xs[1..];
      if |xs| > 1 {
        assert !LexLt(key(xs[1]), key(xs[0]));
        assert xs[1..][0] == xs[1];
      }
    }
  }
}
