/** Stable sorting by a key, the behaviour of `Array.prototype.sort` with a
    comparator that compares one key (the ECMAScript 2019 sort is stable).
    `SortBy` is an insertion sort; its contract is stated independently:
    a permutation, ordered by the key, and stable — for every key value, the
    elements carrying it appear in the same order as in the input. */
module Sorting {
  import opened Seqs

  ghost predicate TotalOrder<K(!new)>(le: (K, K) -> bool) {
    && (forall a :: le(a, a))
    && (forall a, b :: le(a, b) && le(b, a) ==> a == b)
    && (forall a, b, c :: le(a, b) && le(b, c) ==> le(a, c))
    && (forall a, b :: le(a, b) || le(b, a))
  }

  predicate SortedBy<T, K>(s: seq<T>, key: T -> K, le: (K, K) -> bool) {
    forall i, j :: 0 <= i < j < |s| ==> le(key(s[i]), key(s[j]))
  }

  /** The test "has key `k`", used to state stability. */
  function KeyIs<T, K(==)>(key: T -> K, k: K): T -> bool {
    (x: T) => key(x) == k
  }

  /** Inserts `x` before the first element whose key it does not exceed, so
      that `x` lands ahead of every element with an equal key. */
  function Insert<T, K>(x: T, s: seq<T>, key: T -> K, le: (K, K) -> bool): (r: seq<T>)
    ensures |r| == |s| + 1
  {
    if s == [] then [x]
    else if le(key(x), key(s[0])) then [x] + s
    else [s[0]] + Insert(x, s[1..], key, le)
  }

  function SortBy<T, K>(s: seq<T>, key: T -> K, le: (K, K) -> bool): (r: seq<T>)
    ensures |r| == |s|
  {
    if s == [] then [] else Insert(s[0], SortBy(s[1..], key, le), key, le)
  }

  lemma {:induction false} InsertMultiset<T, K>(x: T, s: seq<T>, key: T -> K, le: (K, K) -> bool)
    ensures multiset(Insert(x, s, key, le)) == multiset{x} + multiset(s)
  {
    if s != [] && !le(key(x), key(s[0])) {
      InsertMultiset(x, s[1..], key, le);
      assert s == [s[0]] + s[1..];
    }
  }

  /** The sort is a permutation of its input. */
  lemma {:induction false} SortPermutes<T, K>(s: seq<T>, key: T -> K, le: (K, K) -> bool)
    ensures multiset(SortBy(s, key, le)) == multiset(s)
  {
    if s != [] {
      SortPermutes(s[1..], key, le);
      InsertMultiset(s[0], SortBy(s[1..], key, le), key, le);
      assert s == [s[0]] + s[1..];
    }
  }

  lemma {:induction false} InsertSorted<T, K(!new)>(x: T, s: seq<T>, key: T -> K, le: (K, K) -> bool)
    requires TotalOrder(le)
    requires SortedBy(s, key, le)
    ensures SortedBy(Insert(x, s, key, le), key, le)
  {
    var r := Insert(x, s, key, le);
    if s == [] {
    } else if le(key(x), key(s[0])) {
      forall i, j | 0 <= i < j < |r| ensures le(key(r[i]), key(r[j])) {
        if i == 0 && j > 1 { assert le(key(s[0]), key(s[j - 1])); }
      }
    } else {
      var t := Insert(x, s[1..], key, le);
      InsertSorted(x, s[1..], key, le);
      InsertMultiset(x, s[1..], key, le);
      assert le(key(s[0]), key(x));
      forall y | y in multiset(t) ensures le(key(s[0]), key(y)) {
        if y != x {
          assert y in multiset(s[1..]);
          var m :| 0 <= m < |s[1..]| && s[1..][m] == y;
          assert s[m + 1] == y;
        }
      }
      SortedCons(s[0], t, key, le);
    }
  }

  lemma SortedCons<T, K>(a: T, t: seq<T>, key: T -> K, le: (K, K) -> bool)
    requires SortedBy(t, key, le)
    requires forall y :: y in multiset(t) ==> le(key(a), key(y))
    ensures SortedBy([a] + t, key, le)
  {
    var r := [a] + t;
    forall i, j | 0 <= i < j < |r| ensures le(key(r[i]), key(r[j])) {
      assert r[j] == t[j - 1];
      if i == 0 { assert t[j - 1] in multiset(t); } else { assert r[i] == t[i - 1]; }
    }
  }

  /** The sort orders its output by the key. */
  lemma {:induction false} SortSorted<T, K(!new)>(s: seq<T>, key: T -> K, le: (K, K) -> bool)
    requires TotalOrder(le)
    ensures SortedBy(SortBy(s, key, le), key, le)
  {
    if s != [] {
      SortSorted(s[1..], key, le);
      InsertSorted(s[0], SortBy(s[1..], key, le), key, le);
    }
  }

  lemma {:induction false} InsertStable<T(!new), K(!new)>(x: T, s: seq<T>, key: T -> K, le: (K, K) -> bool, k: K)
    requires forall a :: le(a, a)
    ensures Filter(Insert(x, s, key, le), KeyIs(key, k))
         == (if key(x) == k then [x] else []) + Filter(s, KeyIs(key, k))
  {
    var p := KeyIs(key, k);
    if s == [] {
    } else if le(key(x), key(s[0])) {
      assert Insert(x, s, key, le) == [x] + s;
      FilterConcat([x], s, p);
    } else {
      InsertStable(x, s[1..], key, le, k);
      assert le(key(x), key(x));
      assert key(s[0]) != key(x);
      FilterConcat([s[0]], Insert(x, s[1..], key, le), p);
      FilterConcat([s[0]], s[1..], p);
      assert s == [s[0]] + s[1..];
      FilterConcat([x], s[1..], p);
    }
  }

  /** Stability: for every key value, the elements carrying it keep their input order. */
  lemma {:induction false} SortStable<T(!new), K(!new)>(s: seq<T>, key: T -> K, le: (K, K) -> bool, k: K)
    requires forall a :: le(a, a)
    ensures Filter(SortBy(s, key, le), KeyIs(key, k)) == Filter(s, KeyIs(key, k))
  {
    if s != [] {
      SortStable(s[1..], key, le, k);
      InsertStable(s[0], SortBy(s[1..], key, le), key, le, k);
      assert s == [s[0]] + s[1..];
      FilterConcat([s[0]], s[1..], KeyIs(key, k));
    }
  }

  // ----- the two orders the source sorts by -----

  /** `b - a` as a comparator: larger keys first. */
  function Descending(): (real, real) -> bool {
    (a: real, b: real) => a >= b
  }

  lemma DescendingTotal()
    ensures TotalOrder(Descending())
  {
  }

  /** Code-unit lexicographic order on strings, the model's stand-in for `localeCompare`. */
  predicate LexLe(a: seq<char>, b: seq<char>) {
    a == [] || (b != [] && (a[0] < b[0] || (a[0] == b[0] && LexLe(a[1..], b[1..]))))
  }

  function Lexicographic(): (seq<char>, seq<char>) -> bool {
    (a: seq<char>, b: seq<char>) => LexLe(a, b)
  }

  lemma {:induction false} LexRefl(a: seq<char>)
    ensures LexLe(a, a)
  {
    if a != [] { LexRefl(a[1..]); }
  }

  lemma {:induction false} LexAntisym(a: seq<char>, b: seq<char>)
    requires LexLe(a, b) && LexLe(b, a)
    ensures a == b
  {
    if a != [] && b != [] {
      LexAntisym(a[1..], b[1..]);
      assert a == [a[0]] + a[1..] && b == [b[0]] + b[1..];
    }
  }

  lemma {:induction false} LexTrans(a: seq<char>, b: seq<char>, c: seq<char>)
    requires LexLe(a, b) && LexLe(b, c)
    ensures LexLe(a, c)
  {
    if a != [] && b != [] && c != [] && a[0] == b[0] == c[0] {
      LexTrans(a[1..], b[1..], c[1..]);
    }
  }

  lemma {:induction false} LexTotal(a: seq<char>, b: seq<char>)
    ensures LexLe(a, b) || LexLe(b, a)
  {
    if a != [] && b != [] && a[0] == b[0] {
      LexTotal(a[1..], b[1..]);
    }
  }

  lemma LexicographicTotal()
    ensures TotalOrder(Lexicographic())
  {
    forall a ensures LexLe(a, a) { LexRefl(a); }
    forall a, b | LexLe(a, b) && LexLe(b, a) ensures a == b { LexAntisym(a, b); }
    forall a, b, c | LexLe(a, b) && LexLe(b, c) ensures LexLe(a, c) { LexTrans(a, b, c); }
    forall a, b ensures LexLe(a, b) || LexLe(b, a) { LexTotal(a, b); }
  }

  // ----- top-k by a real key, as `[...xs].sort((a, b) => key(b) - key(a)).slice(0, n)` -----

  function TopBy<T>(xs: seq<T>, key: T -> real, n: nat): seq<T> {
    Take(SortBy(xs, key, Descending()), n)
  }

  /** The first `n` of the stable descending sort: `min(n, |xs|)` elements drawn
      from `xs`, in non-increasing order. */
  lemma {:induction false} TopByOrdered<T(!new)>(xs: seq<T>, key: T -> real, n: nat)
    ensures |TopBy(xs, key, n)| == if |xs| < n then |xs| else n
    ensures SortedBy(TopBy(xs, key, n), key, Descending())
    ensures multiset(TopBy(xs, key, n)) <= multiset(xs)
  {
    var sorted := SortBy(xs, key, Descending());
    var r := TopBy(xs, key, n);
    DescendingTotal();
    SortSorted(xs, key, Descending());
    SortPermutes(xs, key, Descending());
    assert sorted == r + sorted[|r|..];
    assert multiset(sorted) == multiset(r) + multiset(sorted[|r|..]);
    forall i, j | 0 <= i < j < |r| ensures key(r[i]) >= key(r[j]) {
      assert r[i] == sorted[i] && r[j] == sorted[j];
    }
  }

  /** Nothing the top-`n` leaves out scores above the last element it keeps. */
  lemma {:induction false} TopByOmitted<T(!new)>(xs: seq<T>, key: T -> real, n: nat)
    requires n > 0
    ensures forall x :: x in multiset(xs) - multiset(TopBy(xs, key, n)) ==>
              |TopBy(xs, key, n)| > 0 && key(x) <= key(TopBy(xs, key, n)[|TopBy(xs, key, n)| - 1])
  {
    var sorted := SortBy(xs, key, Descending());
    var r := TopBy(xs, key, n);
    DescendingTotal();
    SortSorted(xs, key, Descending());
    SortPermutes(xs, key, Descending());
    assert sorted == r + sorted[|r|..];
    assert multiset(sorted) == multiset(r) + multiset(sorted[|r|..]);
    forall x | x in multiset(xs) - multiset(r)
      ensures |r| > 0 && key(x) <= key(r[|r| - 1])
    {
      assert x in multiset(sorted[|r|..]);
      var j :| 0 <= j < |sorted[|r|..]| && sorted[|r|..][j] == x;
      assert sorted[|r| + j] == x;
      assert |r| > 0 by { assert |xs| > 0; }
      assert r[|r| - 1] == sorted[|r| - 1];
      assert Descending()(key(sorted[|r| - 1]), key(sorted[|r| + j]));
    }
  }

  /** Ties keep input order: for every score, the kept elements with that score
      are the first ones with that score in the input. */
  lemma {:induction false} TopByStable<T(!new)>(xs: seq<T>, key: T -> real, n: nat)
    ensures forall v :: IsPrefix(Filter(TopBy(xs, key, n), KeyIs(key, v)), Filter(xs, KeyIs(key, v)))
  {
    var sorted := SortBy(xs, key, Descending());
    var r := TopBy(xs, key, n);
    assert sorted == r + sorted[|r|..];
    forall v ensures IsPrefix(Filter(r, KeyIs(key, v)), Filter(xs, KeyIs(key, v))) {
      SortStable(xs, key, Descending(), v);
      FilterConcat(r, sorted[|r|..], KeyIs(key, v));
    }
  }

  predicate IsPrefix<T(==)>(a: seq<T>, b: seq<T>) {
    |a| <= |b| && b[..|a|] == a
  }
}
