/** Sequence operations the source writes with `Array.prototype` methods:
    `filter`, `slice(0, n)`, `reduce` summing, and de-duplication through
    `new Set(...)`, together with the order facts ("is a subsequence of")
    that the query engine and the rankings rely on. */
module Seqs {

  /** `a` is `b` with some elements deleted, the rest kept in order. */
  predicate IsSubseq<T(==)>(a: seq<T>, b: seq<T>)
    decreases |b|
  {
    if a == [] then true
    else if b == [] then false
    else (a[0] == b[0] && IsSubseq(a[1..], b[1..])) || IsSubseq(a, b[1..])
  }

  lemma {:induction false} SubseqMembers<T>(a: seq<T>, b: seq<T>)
    requires IsSubseq(a, b)
    ensures forall x :: x in a ==> x in b
    ensures |a| <= |b|
    decreases |b|
  {
    if a != [] {
      if a[0] == b[0] && IsSubseq(a[1..], b[1..]) {
        SubseqMembers(a[1..], b[1..]);
        assert a == [a[0]] + a[1..];
      } else {
        SubseqMembers(a, b[1..]);
      }
    }
  }

  lemma {:induction false} SubseqRefl<T>(a: seq<T>)
    ensures IsSubseq(a, a)
  {
    if a != [] {
      SubseqRefl(a[1..]);
    }
  }

  lemma {:induction false} SubseqTrans<T>(a: seq<T>, b: seq<T>, c: seq<T>)
    requires IsSubseq(a, b) && IsSubseq(b, c)
    ensures IsSubseq(a, c)
    decreases |c|
  {
    if a != [] && b != [] && c != [] {
      if b[0] == c[0] && IsSubseq(b[1..], c[1..]) {
        if a[0] == b[0] && IsSubseq(a[1..], b[1..]) {
          SubseqTrans(a[1..], b[1..], c[1..]);
        } else {
          SubseqTrans(a, b[1..], c[1..]);
        }
      } else {
        SubseqTrans(a, b, c[1..]);
      }
    }
  }

  /** A prefix is a subsequence. */
  lemma {:induction false} PrefixIsSubseq<T>(s: seq<T>, n: nat)
    requires n <= |s|
    ensures IsSubseq(s[..n], s)
  {
    if n > 0 {
      PrefixIsSubseq(s[1..], n - 1);
      assert s[..n][1..] == s[1..][..n - 1];
    }
  }

  /** `Array.prototype.filter`: the elements satisfying `p`, in order. */
  function Filter<T(!new)>(s: seq<T>, p: T -> bool): (r: seq<T>)
    ensures |r| <= |s|
    ensures forall x :: x in r ==> x in s && p(x)
    ensures forall i :: 0 <= i < |s| && p(s[i]) ==> s[i] in r
    ensures IsSubseq(r, s)
  {
    if s == [] then []
    else
      var rest := Filter(s[1..], p);
      assert forall x :: x in s[1..] ==> x in s;
      if p(s[0]) then
        assert ([s[0]] + rest)[1..] == rest;
        [s[0]] + rest
      else
        assert rest == [] || rest[0] != s[0] by {
          if rest != [] { assert rest[0] in rest; }
        }
        assert forall i :: 1 <= i < |s| ==> s[i] == s[1..][i - 1];
        rest
  }

  /** Filtering keeps every copy of a value that passes the test and no copy of one that fails. */
  lemma {:induction false} FilterMultiset<T(!new)>(s: seq<T>, p: T -> bool)
    ensures forall x :: multiset(Filter(s, p))[x] == if p(x) then multiset(s)[x] else 0
  {
    if s != [] {
      FilterMultiset(s[1..], p);
      assert s == [s[0]] + s[1..];
      assert multiset(s) == multiset{s[0]} + multiset(s[1..]);
      if p(s[0]) {
        assert Filter(s, p) == [s[0]] + Filter(s[1..], p);
        assert multiset(Filter(s, p)) == multiset{s[0]} + multiset(Filter(s[1..], p));
      }
    }
  }

  lemma {:induction false} FilterConcat<T(!new)>(a: seq<T>, b: seq<T>, p: T -> bool)
    ensures Filter(a + b, p) == Filter(a, p) + Filter(b, p)
  {
    if a != [] {
      assert (a + b)[1..] == a[1..] + b;
      assert (a + b)[0] == a[0];
      FilterConcat(a[1..], b, p);
      var head := if p(a[0]) then [a[0]] else [];
      assert Filter(a + b, p) == head + Filter(a[1..] + b, p);
      assert Filter(a, p) == head + Filter(a[1..], p);
    } else {
      assert a + b == b;
    }
  }

  /** Filtering a non-empty sequence, seen from its last element. */
  lemma {:induction false} FilterLast<T(!new)>(xs: seq<T>, p: T -> bool)
    requires xs != []
    ensures Filter(xs, p) == if p(xs[|xs| - 1]) then Filter(xs[..|xs| - 1], p) + [xs[|xs| - 1]] else Filter(xs[..|xs| - 1], p)
  {
    var init, last := xs[..|xs| - 1], xs[|xs| - 1];
    assert xs == init + [last];
    FilterConcat(init, [last], p);
    assert [last][1..] == [];
  }

  lemma {:induction false} FilterCountLast<T(!new)>(xs: seq<T>, p: T -> bool)
    requires xs != []
    ensures |Filter(xs, p)| == |Filter(xs[..|xs| - 1], p)| + if p(xs[|xs| - 1]) then 1 else 0
  {
    FilterLast(xs, p);
  }

  /** Nothing passes a test no element meets. */
  lemma {:induction false} FilterNone<T(!new)>(s: seq<T>, p: T -> bool)
    requires forall i :: 0 <= i < |s| ==> !p(s[i])
    ensures Filter(s, p) == []
  {
    if s != [] {
      assert forall i :: 0 <= i < |s| - 1 ==> s[1..][i] == s[i + 1];
      FilterNone(s[1..], p);
    }
  }

  /** Filtering keeps everything exactly when everything satisfies the test. */
  lemma {:induction false} FilterAll<T(!new)>(s: seq<T>, p: T -> bool)
    ensures Filter(s, p) == s <==> forall i :: 0 <= i < |s| ==> p(s[i])
  {
    if s != [] {
      FilterAll(s[1..], p);
      if Filter(s, p) == s {
        assert s[0] in Filter(s, p);
        assert Filter(s[1..], p) == s[1..];
      }
    }
  }

  /** Two predicates that agree on the elements of `s` filter it alike. */
  lemma {:induction false} FilterCongruent<T(!new)>(s: seq<T>, p: T -> bool, q: T -> bool)
    requires forall i :: 0 <= i < |s| ==> p(s[i]) == q(s[i])
    ensures Filter(s, p) == Filter(s, q)
  {
    if s != [] {
      FilterCongruent(s[1..], p, q);
    }
  }

  /** `slice(0, n)`: the first `min(n, |s|)` elements. */
  function Take<T>(s: seq<T>, n: nat): (r: seq<T>)
    ensures |r| == if |s| < n then |s| else n
    ensures r == s[..|r|]
  {
    if |s| <= n then s else s[..n]
  }

  /** The test "differs from `a`". */
  function Other<T(==)>(a: T): T -> bool {
    (y: T) => y != a
  }

  /** Appending to both sides keeps a subsequence a subsequence. */
  lemma {:induction false} SubseqSnoc<T>(a: seq<T>, b: seq<T>, x: T)
    requires IsSubseq(a, b)
    ensures IsSubseq(a, b + [x]) && IsSubseq(a + [x], b + [x])
    decreases |b|
  {
    if b == [] {
      assert a == [];
      assert a + [x] == [x] && [x][1..] == [];
    } else {
      assert (b + [x])[1..] == b[1..] + [x];
      if a == [] {
        SubseqRefl([x]);
        assert IsSubseq(a + [x], b[1..] + [x]) by {
          SubseqSnoc(a, b[1..], x);
        }
      } else if a[0] == b[0] && IsSubseq(a[1..], b[1..]) {
        SubseqSnoc(a[1..], b[1..], x);
        assert (a + [x])[1..] == a[1..] + [x];
      } else {
        SubseqSnoc(a, b[1..], x);
      }
    }
  }

  /** `Array.from(new Set(s))`: each value once, at its first occurrence; the
      set is filled left to right and an `add` of a present value does nothing. */
  function Distinct<T(==,!new)>(s: seq<T>): (r: seq<T>)
    ensures NoDuplicates(r)
    ensures forall x :: x in r <==> x in s
    ensures IsSubseq(r, s)
  {
    if s == [] then []
    else
      var init, x := s[..|s| - 1], s[|s| - 1];
      var d := Distinct(init);
      assert s == init + [x];
      SubseqSnoc(d, init, x);
      if x in d then d else d + [x]
  }

  /** A value already present is not added again; a new one goes at the end. */
  lemma DistinctSnoc<T(!new)>(s: seq<T>, x: T)
    ensures Distinct(s + [x]) == if x in s then Distinct(s) else Distinct(s) + [x]
  {
    assert (s + [x])[..|s|] == s;
  }

  /** The order of first occurrences: de-duplicating a prefix gives a prefix. */
  lemma {:induction false} DistinctPrefix<T(!new)>(s: seq<T>, n: nat)
    requires n <= |s|
    ensures Distinct(s[..n]) <= Distinct(s)
    decreases |s|
  {
    if n < |s| {
      assert s[..|s| - 1][..n] == s[..n];
      DistinctPrefix(s[..|s| - 1], n);
    } else {
      assert s[..n] == s;
    }
  }

  /** A sequence without repeats is its own de-duplication. */
  lemma {:induction false} DistinctOfDistinct<T(!new)>(s: seq<T>)
    requires NoDuplicates(s)
    ensures Distinct(s) == s
  {
    if s != [] {
      var init := s[..|s| - 1];
      DistinctOfDistinct(init);
      assert s[|s| - 1] !in init;
      assert s == init + [s[|s| - 1]];
    }
  }

  predicate NoDuplicates<T(==)>(s: seq<T>) {
    forall i, j :: 0 <= i < j < |s| ==> s[i] != s[j]
  }

  /** A subsequence of a sequence without repeats has none either. */
  lemma {:induction false} SubseqNoDuplicates<T>(a: seq<T>, b: seq<T>)
    requires IsSubseq(a, b) && NoDuplicates(b)
    ensures NoDuplicates(a)
    decreases |b|
  {
    if a != [] {
      assert NoDuplicates(b[1..]) by {
        forall i, j | 0 <= i < j < |b| - 1 ensures b[1..][i] != b[1..][j] {
          assert b[1..][i] == b[i + 1] && b[1..][j] == b[j + 1];
        }
      }
      if a[0] == b[0] && IsSubseq(a[1..], b[1..]) {
        SubseqNoDuplicates(a[1..], b[1..]);
        SubseqMembers(a[1..], b[1..]);
        assert b[0] !in b[1..];
        forall i, j | 0 <= i < j < |a| ensures a[i] != a[j] {
          assert a[j] == a[1..][j - 1];
          if i > 0 { assert a[i] == a[1..][i - 1]; }
        }
      } else {
        SubseqNoDuplicates(a, b[1..]);
      }
    }
  }

  /** Without repeats, the last element is new and the rest has no repeats. */
  lemma NoDuplicatesInit<T>(s: seq<T>)
    requires s != [] && NoDuplicates(s)
    ensures NoDuplicates(s[..|s| - 1]) && s[|s| - 1] !in s[..|s| - 1]
  {
    var init := s[..|s| - 1];
    forall i | 0 <= i < |init| ensures init[i] != s[|s| - 1] {
      assert init[i] == s[i];
    }
  }

  /** Sum of naturals, left to right. */
  function SumNat(s: seq<nat>): nat {
    if s == [] then 0 else SumNat(s[..|s| - 1]) + s[|s| - 1]
  }

  /** `reduce((a, b) => a + b, 0)` over reals. */
  function SumReal(s: seq<real>): real {
    if s == [] then 0.0 else SumReal(s[..|s| - 1]) + s[|s| - 1]
  }

  lemma {:induction false} SumRealConcat(a: seq<real>, b: seq<real>)
    ensures SumReal(a + b) == SumReal(a) + SumReal(b)
    decreases |b|
  {
    if b != [] {
      assert (a + b)[..|a + b| - 1] == a + b[..|b| - 1];
      assert (a + b)[|a + b| - 1] == b[|b| - 1];
      SumRealConcat(a, b[..|b| - 1]);
    } else {
      assert a + b == a;
    }
  }

  lemma {:induction false} SumRealBounds(s: seq<real>, lo: real, hi: real)
    requires forall i :: 0 <= i < |s| ==> lo <= s[i] <= hi
    ensures |s| as real * lo <= SumReal(s) <= |s| as real * hi
  {
    if s != [] {
      SumRealBounds(s[..|s| - 1], lo, hi);
    }
  }
}
