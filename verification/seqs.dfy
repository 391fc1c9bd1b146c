/**
  Sequence operations the store builds its views from: the JavaScript
  `filter`, `find`, `reduce` (sum), `slice(0, n)` and the stable
  `sort` with a numeric descending comparator.
  Every recursion peels the LAST element, so that growing a column by one
  appended record unfolds each operation by one step.
*/
module Seqs {
  import opened Options

  /** The elements of `s` that satisfy `p`, in their original order. */
  function Filter<T(!new)>(s: seq<T>, p: T -> bool): (r: seq<T>)
    ensures |r| <= |s|
    ensures forall x :: x in r <==> x in s && p(x)
  {
    if |s| == 0 then []
    else Filter(s[..|s| - 1], p) + (if p(s[|s| - 1]) then [s[|s| - 1]] else [])
  }

  /** One appended element: the step every column growth takes. */
  lemma FilterSnoc<T(!new)>(s: seq<T>, y: T, p: T -> bool)
    ensures Filter(s + [y], p) == Filter(s, p) + (if p(y) then [y] else [])
  {
    assert (s + [y])[..|s|] == s;
  }

  /** Filtering keeps exactly the multiplicity of every kept value. */
  lemma {:induction false} FilterMultiset<T(!new)>(s: seq<T>, p: T -> bool, x: T)
    ensures multiset(Filter(s, p))[x] == if p(x) then multiset(s)[x] else 0
    decreases |s|
  {
    if |s| != 0 {
      var init := s[..|s| - 1];
      assert s == init + [s[|s| - 1]];
      FilterMultiset(init, p, x);
    }
  }

  /** Nothing passes the test: nothing is kept. */
  lemma {:induction false} FilterNone<T(!new)>(s: seq<T>, p: T -> bool)
    requires forall x :: x in s ==> !p(x)
    ensures Filter(s, p) == []
    decreases |s|
  {
    if |s| != 0 {
      FilterNone(s[..|s| - 1], p);
    }
  }

  lemma {:induction false} FilterAppend<T(!new)>(a: seq<T>, b: seq<T>, p: T -> bool)
    ensures Filter(a + b, p) == Filter(a, p) + Filter(b, p)
    decreases |b|
  {
    if |b| == 0 {
      assert a + b == a;
    } else {
      var b' := b[..|b| - 1];
      var y := b[|b| - 1];
      var kept := if p(y) then [y] else [];
      assert b == b' + [y];
      calc {
        Filter(a + b, p);
        { assert a + b == (a + b') + [y]; FilterSnoc(a + b', y, p); }
        Filter(a + b', p) + kept;
        { FilterAppend(a, b', p); }
        (Filter(a, p) + Filter(b', p)) + kept;
        Filter(a, p) + (Filter(b', p) + kept);
        { FilterSnoc(b', y, p); }
        Filter(a, p) + Filter(b, p);
      }
    }
  }

  /** `s.slice(0, n)` for a non-negative `n`. */
  function Take<T>(s: seq<T>, n: nat): (r: seq<T>)
    ensures |r| == if n <= |s| then n else |s|
    ensures forall i :: 0 <= i < |r| ==> r[i] == s[i]
  {
    if n <= |s| then s[..n] else s
  }

  /** A prefix holds each element at most as often as the whole. */
  lemma TakeMultiset<T>(s: seq<T>, n: nat)
    ensures multiset(Take(s, n)) <= multiset(s)
  {
    if n <= |s| {
      assert s == s[..n] + s[n..];
    }
  }

  /** The position of the first element satisfying `p` (`findIndex`). */
  function FirstIndex<T>(s: seq<T>, p: T -> bool): (r: Option<nat>)
    ensures r.Some? ==> r.value < |s| && p(s[r.value])
    ensures r.Some? ==> forall j :: 0 <= j < r.value ==> !p(s[j])
    ensures r.None? ==> forall j :: 0 <= j < |s| ==> !p(s[j])
  {
    if |s| == 0 then None
    else
      match FirstIndex(s[..|s| - 1], p)
      case Some(i) => Some(i)
      case None => if p(s[|s| - 1]) then Some(|s| - 1) else None
  }

  /** The first element satisfying `p` (`Array.prototype.find`). */
  function Find<T(!new)>(s: seq<T>, p: T -> bool): (r: Option<T>)
    ensures r.Some? ==> r.value in s && p(r.value)
    ensures r.None? <==> forall x :: x in s ==> !p(x)
  {
    match FirstIndex(s, p)
    case Some(i) => Some(s[i])
    case None => None
  }

  /** `s.reduce((sum, x) => sum + f(x), 0)`. */
  function SumOf<T>(s: seq<T>, f: T -> int): int
  {
    if |s| == 0 then 0 else SumOf(s[..|s| - 1], f) + f(s[|s| - 1])
  }

  lemma {:induction false} SumAppend<T>(a: seq<T>, b: seq<T>, f: T -> int)
    ensures SumOf(a + b, f) == SumOf(a, f) + SumOf(b, f)
    decreases |b|
  {
    if |b| == 0 {
      assert a + b == a;
    } else {
      var b' := b[..|b| - 1];
      assert b == b' + [b[|b| - 1]];
      assert (a + b)[..|a + b| - 1] == a + b';
      SumAppend(a, b', f);
    }
  }

  /** Replacing one element changes the sum by exactly the difference. */
  lemma {:induction false} SumUpdate<T>(s: seq<T>, i: nat, v: T, f: T -> int)
    requires i < |s|
    ensures SumOf(s[i := v], f) == SumOf(s, f) - f(s[i]) + f(v)
  {
    var pre, post := s[..i], s[i + 1..];
    assert s == pre + [s[i]] + post;
    assert s[i := v] == pre + [v] + post;
    SumAppend(pre + [s[i]], post, f);
    SumAppend(pre + [v], post, f);
    SumAppend(pre, [s[i]], f);
    SumAppend(pre, [v], f);
    assert SumOf([s[i]], f) == f(s[i]) by { assert [s[i]][..0] == []; }
    assert SumOf([v], f) == f(v) by { assert [v][..0] == []; }
  }

  /** Non-increasing in `key`: the order `sort((a, b) => key(b) - key(a))` produces. */
  predicate SortedDesc<T>(s: seq<T>, key: T -> int) {
    forall i, j :: 0 <= i < j < |s| ==> key(s[i]) >= key(s[j])
  }

  /**
    Inserts `x`, which came AFTER every element of `s` in the input, behind
    every element whose key is at least its own: equal keys keep input order.
  */
  function InsertDesc<T>(s: seq<T>, x: T, key: T -> int): (r: seq<T>)
    requires SortedDesc(s, key)
    ensures SortedDesc(r, key)
    ensures multiset(r) == multiset(s) + multiset{x}
    ensures |r| == |s| + 1
  {
    if |s| == 0 || key(s[|s| - 1]) >= key(x) then
      SnocSorted(s, x, key);
      s + [x]
    else
      var last := s[|s| - 1];
      var init := s[..|s| - 1];
      assert s == init + [last];
      var r' := InsertDesc(init, x, key);
      BoundedByMultiset(r', init + [x], key, key(last));
      SnocSorted(r', last, key);
      r' + [last]
  }

  /** Appending an element no larger than the last keeps a sequence sorted. */
  lemma SnocSorted<T>(s: seq<T>, y: T, key: T -> int)
    requires SortedDesc(s, key)
    requires |s| == 0 || key(s[|s| - 1]) >= key(y)
    ensures SortedDesc(s + [y], key)
  {
  }

  /** A lower bound on every element survives a rearrangement. */
  lemma BoundedByMultiset<T>(r: seq<T>, s: seq<T>, key: T -> int, b: int)
    requires multiset(r) == multiset(s)
    requires forall i :: 0 <= i < |s| ==> key(s[i]) >= b
    ensures forall i :: 0 <= i < |r| ==> key(r[i]) >= b
  {
    forall i | 0 <= i < |r| ensures key(r[i]) >= b {
      assert r[i] in multiset(s);
      var j :| 0 <= j < |s| && s[j] == r[i];
    }
  }

  /** A stable sort, descending in `key` (insertion sort). */
  function SortDesc<T>(s: seq<T>, key: T -> int): (r: seq<T>)
    ensures SortedDesc(r, key)
    ensures multiset(r) == multiset(s)
    ensures |r| == |s|
  {
    if |s| == 0 then []
    else
      var init := s[..|s| - 1];
      assert s == init + [s[|s| - 1]];
      InsertDesc(SortDesc(init, key), s[|s| - 1], key)
  }

  /** The elements whose key is exactly `k`. */
  function HasKey<T>(key: T -> int, k: int): T -> bool {
    x => key(x) == k
  }

  lemma {:induction false} InsertDescStable<T(!new)>(s: seq<T>, x: T, key: T -> int, k: int)
    requires SortedDesc(s, key)
    ensures Filter(InsertDesc(s, x, key), HasKey(key, k)) == Filter(s + [x], HasKey(key, k))
    decreases |s|
  {
    var p := HasKey(key, k);
    if |s| != 0 && key(s[|s| - 1]) < key(x) {
      var last := s[|s| - 1];
      var init := s[..|s| - 1];
      assert s == init + [last];
      var r' := InsertDesc(init, x, key);
      var xs, ls := if p(x) then [x] else [], if p(last) then [last] else [];
      assert xs + ls == ls + xs by {
        assert !(p(x) && p(last));
      }
      calc {
        Filter(InsertDesc(s, x, key), p);
        Filter(r' + [last], p);
        { FilterSnoc(r', last, p); }
        Filter(r', p) + ls;
        { InsertDescStable(init, x, key, k); }
        Filter(init + [x], p) + ls;
        { FilterSnoc(init, x, p); }
        (Filter(init, p) + xs) + ls;
        Filter(init, p) + (ls + xs);
        (Filter(init, p) + ls) + xs;
        { FilterSnoc(init, last, p); }
        Filter(s, p) + xs;
        { FilterSnoc(s, x, p); }
        Filter(s + [x], p);
      }
    }
  }

  /** Stability: among elements with equal keys the input order survives. */
  lemma {:induction false} SortDescStable<T(!new)>(s: seq<T>, key: T -> int, k: int)
    ensures Filter(SortDesc(s, key), HasKey(key, k)) == Filter(s, HasKey(key, k))
    decreases |s|
  {
    if |s| != 0 {
      var init := s[..|s| - 1];
      assert s == init + [s[|s| - 1]];
      SortDescStable(init, key, k);
      InsertDescStable(SortDesc(init, key), s[|s| - 1], key, k);
      FilterSnoc(SortDesc(init, key), s[|s| - 1], HasKey(key, k));
      FilterSnoc(init, s[|s| - 1], HasKey(key, k));
    }
  }

  /** `f` where `p` holds, 0 elsewhere: what filtering before summing amounts to. */
  function Masked<T>(p: T -> bool, f: T -> int): T -> int {
    x => if p(x) then f(x) else 0
  }

  lemma {:induction false} SumFilter<T(!new)>(s: seq<T>, p: T -> bool, f: T -> int)
    ensures SumOf(Filter(s, p), f) == SumOf(s, Masked(p, f))
    decreases |s|
  {
    if |s| != 0 {
      var init, y := s[..|s| - 1], s[|s| - 1];
      assert s == init + [y];
      SumFilter(init, p, f);
      FilterSnoc(init, y, p);
      if p(y) {
        SumAppend(Filter(init, p), [y], f);
        assert [y][..0] == [];
      } else {
        assert Filter(init, p) + [] == Filter(init, p);
      }
    }
  }

  /** Replacing one element changes the number of kept elements by the difference. */
  lemma FilterUpdateCount<T(!new)>(s: seq<T>, i: nat, v: T, p: T -> bool)
    requires i < |s|
    ensures |Filter(s[i := v], p)| == |Filter(s, p)| - (if p(s[i]) then 1 else 0) + (if p(v) then 1 else 0)
  {
    var pre, post := s[..i], s[i + 1..];
    assert s == pre + [s[i]] + post;
    assert s[i := v] == pre + [v] + post;
    FilterAppend(pre + [s[i]], post, p);
    FilterAppend(pre + [v], post, p);
    FilterSnoc(pre, s[i], p);
    FilterSnoc(pre, v, p);
  }

  /** Inserting adds exactly the inserted element to the sum. */
  lemma {:induction false} InsertDescSum<T>(s: seq<T>, x: T, key: T -> int, f: T -> int)
    requires SortedDesc(s, key)
    ensures SumOf(InsertDesc(s, x, key), f) == SumOf(s, f) + f(x)
    decreases |s|
  {
    if |s| != 0 && key(s[|s| - 1]) < key(x) {
      var init, last := s[..|s| - 1], s[|s| - 1];
      assert s == init + [last];
      InsertDescSum(init, x, key, f);
      var r' := InsertDesc(init, x, key);
      assert (r' + [last])[..|r'|] == r';
    } else {
      assert (s + [x])[..|s|] == s;
    }
  }

  /** Sorting does not change a sum. */
  lemma {:induction false} SortDescSum<T>(s: seq<T>, key: T -> int, f: T -> int)
    ensures SumOf(SortDesc(s, key), f) == SumOf(s, f)
    decreases |s|
  {
    if |s| != 0 {
      var init := s[..|s| - 1];
      SortDescSum(init, key, f);
      InsertDescSum(SortDesc(init, key), s[|s| - 1], key, f);
    }
  }

  /** The first `n` of a sorted sequence are at least as large as every later element. */
  lemma TakeSortedPrefix<T(!new)>(s: seq<T>, n: nat, key: T -> int)
    requires SortedDesc(s, key)
    ensures forall i, j :: 0 <= i < |Take(s, n)| <= j < |s| ==> key(Take(s, n)[i]) >= key(s[j])
  {
  }

  predicate Distinct<T(==)>(s: seq<T>) {
    forall i, j :: 0 <= i < j < |s| ==> s[i] != s[j]
  }

  lemma {:induction false} DistinctMultiset<T>(s: seq<T>)
    ensures Distinct(s) <==> forall x :: multiset(s)[x] <= 1
    decreases |s|
  {
    if |s| != 0 {
      var init, y := s[..|s| - 1], s[|s| - 1];
      assert s == init + [y];
      DistinctMultiset(init);
      if Distinct(s) {
        assert Distinct(init);
        assert y !in init;
      } else {
        var i, j :| 0 <= i < j < |s| && s[i] == s[j];
        if j < |s| - 1 {
          assert init[i] == init[j];
          assert !Distinct(init);
          var x :| multiset(init)[x] > 1;
          assert multiset(s)[x] >= multiset(init)[x];
        } else {
          assert s[i] in init;
          assert multiset(s)[y] == multiset(init)[y] + 1;
        }
      }
    }
  }

  /** A rearrangement of a sequence without repetitions has none either. */
  lemma DistinctPermutation<T>(a: seq<T>, b: seq<T>)
    requires multiset(a) == multiset(b) && Distinct(a)
    ensures Distinct(b)
  {
    DistinctMultiset(a);
    DistinctMultiset(b);
  }

  /** Strictly increasing in `key`: the order of a table's ids. */
  predicate Increasing<T>(s: seq<T>, key: T -> int) {
    forall i, j :: 0 <= i < j < |s| ==> key(s[i]) < key(s[j])
  }

  /** Filtering keeps the order of what it keeps. */
  lemma {:induction false} FilterIncreasing<T(!new)>(s: seq<T>, p: T -> bool, key: T -> int)
    requires Increasing(s, key)
    ensures Increasing(Filter(s, p), key)
    decreases |s|
  {
    if |s| != 0 {
      var init, y := s[..|s| - 1], s[|s| - 1];
      assert Increasing(init, key);
      FilterIncreasing(init, p, key);
      var f := Filter(init, p);
      forall x | x in f ensures key(x) < key(y) {
        var k :| 0 <= k < |init| && init[k] == x;
        assert s[k] == x;
      }
    }
  }

  /** A stable sort keeps elements with equal keys in increasing `id` order when the input was. */
  lemma SortDescTies<T(!new)>(s: seq<T>, key: T -> int, id: T -> int, i: nat, j: nat)
    requires Increasing(s, id)
    requires i < j < |SortDesc(s, key)| && key(SortDesc(s, key)[i]) == key(SortDesc(s, key)[j])
    ensures id(SortDesc(s, key)[i]) < id(SortDesc(s, key)[j])
  {
    var r := SortDesc(s, key);
    var p := HasKey(key, key(r[i]));
    SortDescStable(s, key, key(r[i]));
    FilterIncreasing(s, p, id);
    FilterPairOrder(r, p, id, i, j);
  }

  /** When the kept elements are increasing, any two of them keep that order in the whole sequence. */
  lemma {:induction false} FilterPairOrder<T(!new)>(s: seq<T>, p: T -> bool, key: T -> int, i: nat, j: nat)
    requires Increasing(Filter(s, p), key)
    requires i < j < |s| && p(s[i]) && p(s[j])
    ensures key(s[i]) < key(s[j])
    decreases |s|
  {
    var init := s[..|s| - 1];
    var f := Filter(init, p);
    assert Filter(s, p) == f + [s[|s| - 1]] || Filter(s, p) == f + [];
    assert Increasing(f, key) by {
      assert forall k :: 0 <= k < |f| ==> Filter(s, p)[k] == f[k];
    }
    if j < |s| - 1 {
      FilterPairOrder(init, p, key, i, j);
    } else {
      assert s[i] in f by { assert s[i] == init[i]; }
      var a :| 0 <= a < |f| && f[a] == s[i];
      assert Filter(s, p)[a] == s[i] && Filter(s, p)[|f|] == s[j];
    }
  }
}
