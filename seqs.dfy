/** Python list operations used by the core, stated on Dafny sequences. */
module Seqs {

  /** No element occurs twice. */
  predicate Distinct<T(==)>(s: seq<T>) {
    forall i, j :: 0 <= i < j < |s| ==> s[i] != s[j]
  }

  /** The set of elements of a list. */
  function Elems(s: seq<int>): set<int> {
    set x | x in s
  }

  /** One more element of a prefix adds that element to its set. */
  lemma ElemsExtend(s: seq<int>, i: int)
    requires 0 <= i < |s|
    ensures Elems(s[..i + 1]) == Elems(s[..i]) + {s[i]}
  {
    assert s[..i + 1] == s[..i] + [s[i]];
  }

  /** A list's set is its head and the set of its tail. */
  lemma ElemsCons(s: seq<int>)
    requires s != []
    ensures Elems(s) == {s[0]} + Elems(s[1..])
  {
    assert s == [s[0]] + s[1..];
  }

  /** The elements of `s` not in `xs`, in their original order. */
  function Without(s: seq<int>, xs: set<int>): (r: seq<int>)
    ensures forall y :: y in r <==> y in s && y !in xs
    ensures |r| <= |s|
  {
    if s == [] then []
    else if s[0] in xs then Without(s[1..], xs)
    else [s[0]] + Without(s[1..], xs)
  }

  /**
   * `r` is `s` with the elements of `xs` filtered out, stated one element at a time
   * (the same relation as `r == Without(s, xs)`, see `FilteredIsWithout`).
   */
  ghost predicate Filtered(s: seq<int>, xs: set<int>, r: seq<int>)
    decreases |s|
  {
    if s == [] then r == []
    else if s[0] in xs then Filtered(s[1..], xs, r)
    else r != [] && r[0] == s[0] && Filtered(s[1..], xs, r[1..])
  }

  lemma {:induction false} FilteredIsWithout(s: seq<int>, xs: set<int>, r: seq<int>)
    ensures Filtered(s, xs, r) <==> r == Without(s, xs)
    decreases |s|
  {
    if s != [] {
      if s[0] in xs {
        FilteredIsWithout(s[1..], xs, r);
      } else if r != [] {
        FilteredIsWithout(s[1..], xs, r[1..]);
        assert r == [r[0]] + r[1..];
      }
    }
  }

  /** Python's `list.remove(x)`: drops the first occurrence of `x`. */
  function RemoveFirst(s: seq<int>, x: int): (r: seq<int>)
    requires x in s
    ensures |r| == |s| - 1
  {
    if s[0] == x then s[1..] else [s[0]] + RemoveFirst(s[1..], x)
  }

  /** `remove(x)` takes away one occurrence of `x` and keeps every other element. */
  lemma {:induction false} RemoveFirstCounts(s: seq<int>, x: int)
    requires x in s
    ensures multiset(RemoveFirst(s, x)) == multiset(s) - multiset{x}
  {
    assert s == [s[0]] + s[1..];
    if s[0] != x {
      RemoveFirstCounts(s[1..], x);
    }
  }

  /**
   * `remove(x)` cuts out the first occurrence of `x`: when `s[i]` is `x` and no `x`
   * comes before it, the result is `s` without position `i`.
   */
  lemma {:induction false} RemoveFirstIsFirst(s: seq<int>, x: int, i: int)
    requires 0 <= i < |s| && s[i] == x && x !in s[..i]
    ensures RemoveFirst(s, x) == s[..i] + s[i + 1..]
  {
    if i == 0 {
      assert s[..0] == [];
    } else {
      assert s[0] != x by { assert s[..i][0] == s[0]; }
      assert x !in s[1..][..i - 1] by { assert s[1..][..i - 1] == s[..i][1..]; }
      RemoveFirstIsFirst(s[1..], x, i - 1);
      assert RemoveFirst(s, x) == [s[0]] + RemoveFirst(s[1..], x);
      assert s[..i] == [s[0]] + s[1..][..i - 1];
      assert s[i + 1..] == s[1..][i..];
    }
  }

  /** The integers lo, lo+1, ..., hi-1 (Python's `range(lo, hi)`). */
  function Range(lo: int, hi: int): (r: seq<int>)
    decreases hi - lo
    ensures |r| == if lo <= hi then hi - lo else 0
    ensures forall i :: 0 <= i < |r| ==> r[i] == lo + i
    ensures forall k :: k in r <==> lo <= k < hi
    ensures Distinct(r)
  {
    if lo >= hi then [] else [lo] + Range(lo + 1, hi)
  }

  lemma {:induction false} WithoutDistinct(s: seq<int>, xs: set<int>)
    requires Distinct(s)
    ensures Distinct(Without(s, xs))
  {
    if s != [] {
      WithoutDistinct(s[1..], xs);
      assert s[0] !in s[1..] by {
        forall i | 0 <= i < |s[1..]| ensures s[1..][i] != s[0] {
          assert s[1..][i] == s[i + 1];
        }
      }
    }
  }

  /** On a list without duplicates, `remove(x)` is the same as filtering `x` out. */
  lemma {:induction false} RemoveFirstIsWithout(s: seq<int>, x: int)
    requires Distinct(s) && x in s
    ensures RemoveFirst(s, x) == Without(s, {x})
  {
    if s[0] == x {
      WithoutNoop(s[1..], {x});
    } else {
      RemoveFirstIsWithout(s[1..], x);
    }
  }

  lemma {:induction false} WithoutNoop(s: seq<int>, xs: set<int>)
    requires forall i :: 0 <= i < |s| ==> s[i] !in xs
    ensures Without(s, xs) == s
  {
    if s != [] {
      var tail := s[1..];
      assert s[0] !in xs;
      forall i | 0 <= i < |tail| ensures tail[i] !in xs {
        assert tail[i] == s[i + 1];
      }
      WithoutNoop(tail, xs);
      assert Without(s, xs) == [s[0]] + tail;
      assert s == [s[0]] + tail;
    }
  }

  /** Filtering twice is filtering by the union. */
  lemma {:induction false} WithoutWithout(s: seq<int>, a: set<int>, b: set<int>)
    ensures Without(Without(s, a), b) == Without(s, a + b)
  {
    if s != [] {
      WithoutWithout(s[1..], a, b);
    }
  }

  /** On a list without duplicates, the length is the number of distinct elements. */
  lemma {:induction false} DistinctCard(s: seq<int>)
    requires Distinct(s)
    ensures |set y | y in s| == |s|
  {
    if s != [] {
      DistinctCard(s[1..]);
      assert s[0] !in s[1..] by {
        forall i | 0 <= i < |s[1..]| ensures s[1..][i] != s[0] {
          assert s[1..][i] == s[i + 1];
        }
      }
      assert (set y | y in s) == {s[0]} + (set y | y in s[1..]);
    }
  }

  /** Filtering keeps the relative order of the elements it keeps. */
  lemma {:induction false} WithoutKeepsOrder(s: seq<int>, xs: set<int>, j: int, k: int)
    returns (a: int, b: int)
    requires 0 <= j < k < |s| && s[j] !in xs && s[k] !in xs
    ensures 0 <= a < b < |Without(s, xs)|
    ensures Without(s, xs)[a] == s[j] && Without(s, xs)[b] == s[k]
  {
    if j == 0 {
      var w := Without(s[1..], xs);
      assert s[k] == s[1..][k - 1];
      assert s[k] in w;
      var b' :| 0 <= b' < |w| && w[b'] == s[k];
      a, b := 0, b' + 1;
    } else {
      assert s[j] == s[1..][j - 1] && s[k] == s[1..][k - 1];
      var a', b' := WithoutKeepsOrder(s[1..], xs, j - 1, k - 1);
      if s[0] in xs {
        a, b := a', b';
      } else {
        a, b := a' + 1, b' + 1;
      }
    }
  }

  /** Filtering out an element the list does not hold changes nothing. */
  lemma WithoutAbsent(s: seq<int>, xs: set<int>, c: int)
    requires c !in s
    ensures Without(s, xs + {c}) == Without(s, xs)
  {
    WithoutWithout(s, xs, {c});
    var w := Without(s, xs);
    WithoutNoop(w, {c});
  }

  /** A list emptied by a filter stays empty under a larger one. */
  lemma WithoutEmptyGrows(s: seq<int>, xs: set<int>, ys: set<int>)
    requires Without(s, xs) == []
    ensures Without(s, xs + ys) == []
  {
    WithoutWithout(s, xs, ys);
  }

  /** Taking a subset away leaves the difference of the sizes. */
  lemma SubsetCard<T>(a: set<T>, b: set<T>)
    requires b <= a
    ensures |a - b| == |a| - |b|
  {
    assert a == (a - b) + b;
  }

  /** The tail of a list without duplicates has none, and does not hold the head. */
  lemma DistinctTail(s: seq<int>)
    requires Distinct(s) && s != []
    ensures Distinct(s[1..]) && s[0] !in s[1..]
  {
    forall i | 0 <= i < |s[1..]| ensures s[1..][i] != s[0] {
      assert s[1..][i] == s[i + 1];
    }
  }

  /** A non-empty set of integers has an element. */
  lemma NonEmpty(s: set<int>)
    requires s != {}
    ensures exists y :: y in s
  {
    if forall y :: y !in s {
      assert false;
    }
  }

  /** Python's `list(s)` for a set: every element once, in an order the set chooses. */
  method ListOf(s: set<int>) returns (r: seq<int>)
    ensures Distinct(r)
    ensures forall x :: x in r <==> x in s
  {
    r := [];
    var rest := s;
    while rest != {}
      invariant rest <= s
      invariant Distinct(r)
      invariant forall x :: x in r <==> x in s - rest
      decreases rest
    {
      NonEmpty(rest);
      var y :| y in rest;
      assert y !in r;
      r := r + [y];
      rest := rest - {y};
    }
  }
}
