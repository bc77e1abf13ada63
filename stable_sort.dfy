/**
 * Python's `list.sort(key=..., reverse=...)` as a specification: a stable
 * sort under a total preorder on keys. Python promises that the sort is
 * stable and that `reverse=True` sorts as if every comparison were
 * reversed, keeping equal keys in their original order. A stable sort is
 * unique (StableSortIsUnique), so the insertion sort below stands for any
 * algorithm that keeps those promises.
 */
module StableSort {

  /** Any two keys compare, and comparison chains: the comparator of a sortable key. */
  ghost predicate TotalPreorder<K(!new)>(le: (K, K) -> bool) {
    && (forall a, b :: le(a, b) || le(b, a))
    && (forall a, b, c :: le(a, b) && le(b, c) ==> le(a, c))
  }

  /** The comparator of `reverse=True`. */
  function Flip<K>(le: (K, K) -> bool): (K, K) -> bool {
    (a, b) => le(b, a)
  }

  predicate Equivalent<K>(le: (K, K) -> bool, a: K, b: K) {
    le(a, b) && le(b, a)
  }

  ghost predicate Sorted<T, K>(s: seq<T>, key: T -> K, le: (K, K) -> bool) {
    forall i, j :: 0 <= i < j < |s| ==> le(key(s[i]), key(s[j]))
  }

  /** The elements of `s` whose key is equivalent to `k`, in their order in `s`. */
  function SameKey<T, K>(s: seq<T>, key: T -> K, le: (K, K) -> bool, k: K): seq<T> {
    if s == [] then []
    else (if Equivalent(le, key(s[0]), k) then [s[0]] else []) + SameKey(s[1..], key, le, k)
  }

  /** `r` keeps the relative order of every group of equivalent keys of `s`. */
  ghost predicate Stable<T, K(!new)>(r: seq<T>, s: seq<T>, key: T -> K, le: (K, K) -> bool) {
    forall k :: SameKey(r, key, le, k) == SameKey(s, key, le, k)
  }

  /** Puts `x` in front of the first element whose key is strictly greater. */
  function Insert<T, K>(x: T, s: seq<T>, key: T -> K, le: (K, K) -> bool): seq<T> {
    if s == [] then [x]
    else if !le(key(s[0]), key(x)) then [x] + s
    else [s[0]] + Insert(x, s[1..], key, le)
  }

  function Sort<T, K>(s: seq<T>, key: T -> K, le: (K, K) -> bool): seq<T>
    decreases |s|
  {
    if s == [] then [] else Insert(s[|s| - 1], Sort(s[..|s| - 1], key, le), key, le)
  }

  lemma FlipIsTotalPreorder<K(!new)>(le: (K, K) -> bool)
    requires TotalPreorder(le)
    ensures TotalPreorder(Flip(le))
    ensures forall a, b :: Equivalent(Flip(le), a, b) == Equivalent(le, a, b)
  {
  }

  lemma {:induction false} InsertPermutes<T, K>(x: T, s: seq<T>, key: T -> K, le: (K, K) -> bool)
    ensures multiset(Insert(x, s, key, le)) == multiset(s) + multiset{x}
  {
    if s != [] && le(key(s[0]), key(x)) {
      InsertPermutes(x, s[1..], key, le);
      assert s == [s[0]] + s[1..];
    }
  }

  lemma {:induction false} InsertElements<T, K>(x: T, s: seq<T>, key: T -> K, le: (K, K) -> bool)
    ensures forall y :: y in Insert(x, s, key, le) ==> y == x || y in s
  {
    InsertPermutes(x, s, key, le);
    forall y | y in Insert(x, s, key, le) ensures y == x || y in s {
      assert y in multiset(Insert(x, s, key, le));
    }
  }

  lemma {:induction false} InsertSorted<T, K(!new)>(x: T, s: seq<T>, key: T -> K, le: (K, K) -> bool)
    requires TotalPreorder(le) && Sorted(s, key, le)
    ensures Sorted(Insert(x, s, key, le), key, le)
  {
    if s != [] {
      if !le(key(s[0]), key(x)) {
        var r := [x] + s;
        forall i, j | 0 <= i < j < |r| ensures le(key(r[i]), key(r[j])) {
          if i == 0 && j > 1 {
            assert le(key(s[0]), key(s[j - 1]));
          }
        }
      } else {
        var tail := s[1..];
        InsertSorted(x, tail, key, le);
        var ins := Insert(x, tail, key, le);
        InsertElements(x, tail, key, le);
        var r := [s[0]] + ins;
        forall j | 0 <= j < |ins| ensures le(key(s[0]), key(ins[j])) {
          assert ins[j] in ins;
          if ins[j] != x {
            var m :| 0 <= m < |tail| && tail[m] == ins[j];
            assert s[m + 1] == ins[j];
          }
        }
        forall i, j | 0 <= i < j < |r| ensures le(key(r[i]), key(r[j])) {
          if i == 0 {
            assert r[j] == ins[j - 1];
          } else {
            assert r[i] == ins[i - 1] && r[j] == ins[j - 1];
          }
        }
      }
    }
  }

  lemma {:induction false} SameKeyAppend<T, K>(a: seq<T>, b: seq<T>, key: T -> K, le: (K, K) -> bool, k: K)
    ensures SameKey(a + b, key, le, k) == SameKey(a, key, le, k) + SameKey(b, key, le, k)
  {
    if a == [] {
      assert a + b == b;
    } else {
      var head := if Equivalent(le, key(a[0]), k) then [a[0]] else [];
      var ga, gb := SameKey(a[1..], key, le, k), SameKey(b, key, le, k);
      assert (a + b)[0] == a[0];
      assert (a + b)[1..] == a[1..] + b;
      SameKeyAppend(a[1..], b, key, le, k);
      assert SameKey(a + b, key, le, k) == head + (ga + gb);
      assert head + (ga + gb) == (head + ga) + gb;
    }
  }

  /** Nothing in a sorted list that starts above `x` is equivalent to `x`. */
  lemma {:induction false} SameKeyAbove<T, K(!new)>(x: T, s: seq<T>, key: T -> K, le: (K, K) -> bool, k: K)
    requires TotalPreorder(le) && Sorted(s, key, le)
    requires s != [] && !le(key(s[0]), key(x)) && Equivalent(le, key(x), k)
    ensures SameKey(s, key, le, k) == []
    decreases |s|
  {
    if |s| > 1 {
      assert le(key(s[0]), key(s[1]));
      SameKeyAbove(x, s[1..], key, le, k);
    }
  }

  lemma {:induction false} InsertSameKey<T, K(!new)>(x: T, s: seq<T>, key: T -> K, le: (K, K) -> bool, k: K)
    requires TotalPreorder(le) && Sorted(s, key, le)
    ensures SameKey(Insert(x, s, key, le), key, le, k)
         == SameKey(s, key, le, k) + (if Equivalent(le, key(x), k) then [x] else [])
  {
    if s != [] {
      if !le(key(s[0]), key(x)) {
        InsertFrontSameKey(x, s, key, le, k);
      } else {
        var t := s[1..];
        SortedTail(s, key, le);
        InsertSameKey(x, t, key, le, k);
        InsertPastSameKey(x, s, key, le, k);
      }
    }
  }

  /** `x` goes in front: its group gains it first, and no element of its group follows it. */
  lemma InsertFrontSameKey<T, K(!new)>(x: T, s: seq<T>, key: T -> K, le: (K, K) -> bool, k: K)
    requires TotalPreorder(le) && Sorted(s, key, le)
    requires s != [] && !le(key(s[0]), key(x))
    ensures SameKey(Insert(x, s, key, le), key, le, k)
         == SameKey(s, key, le, k) + (if Equivalent(le, key(x), k) then [x] else [])
  {
    var gx := if Equivalent(le, key(x), k) then [x] else [];
    assert SameKey(Insert(x, s, key, le), key, le, k) == gx + SameKey(s, key, le, k) by {
      assert ([x] + s)[0] == x && ([x] + s)[1..] == s;
    }
    if gx != [] {
      SameKeyAbove(x, s, key, le, k);
    }
  }

  /** `x` goes past the first element: the groups of the rest gain it as they would without that element. */
  lemma InsertPastSameKey<T, K>(x: T, s: seq<T>, key: T -> K, le: (K, K) -> bool, k: K)
    requires s != [] && le(key(s[0]), key(x))
    requires SameKey(Insert(x, s[1..], key, le), key, le, k)
          == SameKey(s[1..], key, le, k) + (if Equivalent(le, key(x), k) then [x] else [])
    ensures SameKey(Insert(x, s, key, le), key, le, k)
         == SameKey(s, key, le, k) + (if Equivalent(le, key(x), k) then [x] else [])
  {
    var t := s[1..];
    var ins := Insert(x, t, key, le);
    var gx := if Equivalent(le, key(x), k) then [x] else [];
    var h := if Equivalent(le, key(s[0]), k) then [s[0]] else [];
    assert SameKey(Insert(x, s, key, le), key, le, k) == h + SameKey(ins, key, le, k) by {
      assert ([s[0]] + ins)[0] == s[0] && ([s[0]] + ins)[1..] == ins;
    }
    assert h + (SameKey(t, key, le, k) + gx) == (h + SameKey(t, key, le, k)) + gx;
  }

  lemma SortedTail<T, K>(s: seq<T>, key: T -> K, le: (K, K) -> bool)
    requires s != [] && Sorted(s, key, le)
    ensures Sorted(s[1..], key, le)
  {
    var t := s[1..];
    forall i, j | 0 <= i < j < |t| ensures le(key(t[i]), key(t[j])) {
      assert t[i] == s[i + 1] && t[j] == s[j + 1];
    }
  }

  /** The sort returns a sorted permutation of its input that keeps equivalent keys in input order. */
  lemma {:induction false} SortCorrect<T, K(!new)>(s: seq<T>, key: T -> K, le: (K, K) -> bool)
    requires TotalPreorder(le)
    ensures Sorted(Sort(s, key, le), key, le)
    ensures multiset(Sort(s, key, le)) == multiset(s)
    ensures Stable(Sort(s, key, le), s, key, le)
    decreases |s|
  {
    if s != [] {
      var init, last := s[..|s| - 1], s[|s| - 1];
      SortCorrect(init, key, le);
      InsertSorted(last, Sort(init, key, le), key, le);
      InsertPermutes(last, Sort(init, key, le), key, le);
      assert s == init + [last];
      forall k ensures SameKey(Sort(s, key, le), key, le, k) == SameKey(s, key, le, k) {
        InsertSameKey(last, Sort(init, key, le), key, le, k);
        SameKeyAppend(init, [last], key, le, k);
      }
    }
  }

  lemma {:induction false} SameKeyHead<T, K(!new)>(s: seq<T>, key: T -> K, le: (K, K) -> bool)
    requires TotalPreorder(le) && s != []
    ensures SameKey(s, key, le, key(s[0])) == [s[0]] + SameKey(s[1..], key, le, key(s[0]))
  {
  }

  /** An element of `SameKey(s, .., k)` lies in `s` and has a key equivalent to `k`. */
  lemma {:induction false} SameKeyMember<T, K>(s: seq<T>, key: T -> K, le: (K, K) -> bool, k: K, y: T)
    requires y in SameKey(s, key, le, k)
    ensures y in s && Equivalent(le, key(y), k)
  {
    if s != [] {
      if y != s[0] || !Equivalent(le, key(s[0]), k) {
        SameKeyMember(s[1..], key, le, k, y);
      }
    }
  }

  /**
   * Two sorted lists that agree on the order of every group of equivalent
   * keys are equal: there is only one stable sort.
   */
  lemma {:induction false} StableSortIsUnique<T, K(!new)>(a: seq<T>, b: seq<T>, key: T -> K, le: (K, K) -> bool)
    requires TotalPreorder(le)
    requires Sorted(a, key, le) && Sorted(b, key, le)
    requires forall k :: SameKey(a, key, le, k) == SameKey(b, key, le, k)
    ensures a == b
    decreases |a|
  {
    if a == [] && b == [] {
    } else if a == [] {
      // b's first element would form a group that a lacks
      SameKeyHead(b, key, le);
      assert false;
    } else if b == [] {
      SameKeyHead(a, key, le);
      assert false;
    } else {
      var x, y := a[0], b[0];
      SameKeyHead(a, key, le);
      SameKeyHead(b, key, le);
      // x is equivalent to y: each is the least of the same groups.
      assert x in SameKey(b, key, le, key(x));
      SameKeyMember(b, key, le, key(x), x);
      var j :| 0 <= j < |b| && b[j] == x;
      assert le(key(y), key(x)) by {
        if j > 0 { assert le(key(b[0]), key(b[j])); }
      }
      assert y in SameKey(a, key, le, key(y));
      SameKeyMember(a, key, le, key(y), y);
      var i :| 0 <= i < |a| && a[i] == y;
      assert le(key(x), key(y)) by {
        if i > 0 { assert le(key(a[0]), key(a[i])); }
      }
      assert Equivalent(le, key(y), key(x));
      assert SameKey(b, key, le, key(x)) == [y] + SameKey(b[1..], key, le, key(x));
      assert SameKey(a, key, le, key(x)) == SameKey(b, key, le, key(x));
      assert SameKey(a, key, le, key(x))[0] == x;
      assert x == y;
      forall k ensures SameKey(a[1..], key, le, k) == SameKey(b[1..], key, le, k) {
        var head := if Equivalent(le, key(x), k) then [x] else [];
        assert SameKey(a, key, le, k) == head + SameKey(a[1..], key, le, k);
        assert SameKey(b, key, le, k) == head + SameKey(b[1..], key, le, k);
        assert SameKey(a[1..], key, le, k) == SameKey(a, key, le, k)[|head|..];
        assert SameKey(b[1..], key, le, k) == SameKey(b, key, le, k)[|head|..];
      }
      StableSortIsUnique(a[1..], b[1..], key, le);
      assert a == [x] + a[1..] && b == [y] + b[1..];
    }
  }

  /** Under the flipped comparator the groups of equivalent keys are the same. */
  lemma {:induction false} SameKeyFlip<T, K>(s: seq<T>, key: T -> K, le: (K, K) -> bool, k: K)
    ensures SameKey(s, key, Flip(le), k) == SameKey(s, key, le, k)
  {
    if s != [] {
      SameKeyFlip(s[1..], key, le, k);
    }
  }

  /** No two elements have the same `f`. */
  predicate DistinctBy<T, U(==)>(s: seq<T>, f: T -> U) {
    forall i, j :: 0 <= i < j < |s| ==> f(s[i]) != f(s[j])
  }

  /** Where `Insert` puts `x`: past every element whose key is at most its key. */
  function InsertPos<T, K>(x: T, s: seq<T>, key: T -> K, le: (K, K) -> bool): (m: nat)
    ensures m <= |s|
  {
    if s == [] || !le(key(s[0]), key(x)) then 0 else 1 + InsertPos(x, s[1..], key, le)
  }

  lemma {:induction false} InsertSplices<T, K>(x: T, s: seq<T>, key: T -> K, le: (K, K) -> bool)
    ensures var m := InsertPos(x, s, key, le);
      Insert(x, s, key, le) == s[..m] + [x] + s[m..]
  {
    if s == [] || !le(key(s[0]), key(x)) {
      assert s[..0] + [x] + s[0..] == [x] + s;
    } else {
      var t := s[1..];
      var m := InsertPos(x, t, key, le);
      InsertSplices(x, t, key, le);
      assert Insert(x, s, key, le) == [s[0]] + (t[..m] + [x] + t[m..]);
      assert s[..m + 1] == [s[0]] + t[..m];
      assert s[m + 1..] == t[m..];
      assert [s[0]] + (t[..m] + [x] + t[m..]) == ([s[0]] + t[..m]) + [x] + t[m..];
    }
  }

  /** Sorting never makes two elements agree on `f`: a list of items with distinct keys stays so. */
  lemma {:induction false} SortKeepsDistinct<T, K, U>(s: seq<T>, key: T -> K, le: (K, K) -> bool, f: T -> U)
    requires DistinctBy(s, f)
    ensures DistinctBy(Sort(s, key, le), f)
    decreases |s|
  {
    if s != [] {
      var init, last := s[..|s| - 1], s[|s| - 1];
      SortKeepsDistinct(init, key, le, f);
      var sorted := Sort(init, key, le);
      SortPermutes(init, key, le);
      InsertSplices(last, sorted, key, le);
      var m := InsertPos(last, sorted, key, le);
      forall y | y in sorted ensures f(y) != f(last) {
        assert y in multiset(init);
        var i :| 0 <= i < |init| && init[i] == y;
        assert s[i] == y;
      }
      SpliceDistinct(sorted, last, m, f);
    }
  }

  /** Putting a new `x` anywhere into a list with no two elements agreeing on `f` keeps it so, when nothing in it agrees with `x`. */
  lemma SpliceDistinct<T, U>(a: seq<T>, x: T, m: nat, f: T -> U)
    requires m <= |a| && DistinctBy(a, f)
    requires forall y :: y in a ==> f(y) != f(x)
    ensures DistinctBy(a[..m] + [x] + a[m..], f)
  {
    var r := a[..m] + [x] + a[m..];
    assert forall i :: 0 <= i < m ==> r[i] == a[i];
    assert forall i :: m < i < |r| ==> r[i] == a[i - 1];
    forall i, j | 0 <= i < j < |r| ensures f(r[i]) != f(r[j]) {
      if i == m {
        assert r[j] in a;
      } else if j == m {
        assert r[i] in a;
      }
    }
  }

  lemma {:induction false} SortPermutes<T, K>(s: seq<T>, key: T -> K, le: (K, K) -> bool)
    ensures multiset(Sort(s, key, le)) == multiset(s)
    decreases |s|
  {
    if s != [] {
      var init, last := s[..|s| - 1], s[|s| - 1];
      SortPermutes(init, key, le);
      InsertPermutes(last, Sort(init, key, le), key, le);
      assert s == init + [last];
    }
  }

  function Reverse<T>(s: seq<T>): seq<T> {
    if s == [] then [] else Reverse(s[1..]) + [s[0]]
  }

  lemma {:induction false} ReverseIndex<T>(s: seq<T>)
    ensures |Reverse(s)| == |s|
    ensures forall i :: 0 <= i < |s| ==> Reverse(s)[i] == s[|s| - 1 - i]
  {
    if s != [] {
      ReverseIndex(s[1..]);
    }
  }

  lemma {:induction false} ReverseSameKey<T, K>(s: seq<T>, key: T -> K, le: (K, K) -> bool, k: K)
    ensures SameKey(Reverse(s), key, le, k) == Reverse(SameKey(s, key, le, k))
  {
    if s != [] {
      ReverseSameKey(s[1..], key, le, k);
      SameKeyAppend(Reverse(s[1..]), [s[0]], key, le, k);
      var head := if Equivalent(le, key(s[0]), k) then [s[0]] else [];
      assert SameKey([s[0]], key, le, k) == head;
      ReverseAppend(head, SameKey(s[1..], key, le, k));
      assert Reverse(head) == head;
    }
  }

  lemma {:induction false} ReverseAppend<T>(a: seq<T>, b: seq<T>)
    ensures Reverse(a + b) == Reverse(b) + Reverse(a)
  {
    if a == [] {
      assert a + b == b;
    } else {
      assert (a + b)[1..] == a[1..] + b;
      ReverseAppend(a[1..], b);
    }
  }

  /** No two elements of `s` have equivalent keys. */
  ghost predicate KeysPairwiseDistinct<T, K>(s: seq<T>, key: T -> K, le: (K, K) -> bool) {
    forall i, j :: 0 <= i < j < |s| ==> !Equivalent(le, key(s[i]), key(s[j]))
  }

  lemma {:induction false} SingletonGroups<T, K(!new)>(s: seq<T>, key: T -> K, le: (K, K) -> bool, k: K)
    requires TotalPreorder(le) && KeysPairwiseDistinct(s, key, le)
    ensures |SameKey(s, key, le, k)| <= 1
  {
    if s != [] {
      SingletonGroups(s[1..], key, le, k);
      if SameKey(s[1..], key, le, k) != [] {
        var y := SameKey(s[1..], key, le, k)[0];
        SameKeyMember(s[1..], key, le, k, y);
        var j :| 0 <= j < |s[1..]| && s[1..][j] == y;
        assert s[j + 1] == y;
        assert !Equivalent(le, key(s[0]), key(y));
      }
    }
  }

  /**
   * Sorting in reverse equals sorting and then reversing only when no two
   * elements have equivalent keys; with equal keys the stable reverse sort
   * keeps them in input order (see ReverseSortKeepsTies).
   */
  lemma DescendingIsReversedAscending<T, K(!new)>(s: seq<T>, key: T -> K, le: (K, K) -> bool)
    requires TotalPreorder(le) && KeysPairwiseDistinct(s, key, le)
    ensures Sort(s, key, Flip(le)) == Reverse(Sort(s, key, le))
  {
    FlipIsTotalPreorder(le);
    var asc := Sort(s, key, le);
    SortCorrect(s, key, le);
    SortCorrect(s, key, Flip(le));
    ReverseSortedIsFlipSorted(asc, key, le);
    forall k ensures SameKey(Sort(s, key, Flip(le)), key, Flip(le), k) == SameKey(Reverse(asc), key, Flip(le), k) {
      ReversedGroup(s, asc, key, le, k);
    }
    StableSortIsUnique(Sort(s, key, Flip(le)), Reverse(asc), key, Flip(le));
  }

  /** A list sorted in ascending order, reversed, is sorted in descending order. */
  lemma ReverseSortedIsFlipSorted<T, K>(asc: seq<T>, key: T -> K, le: (K, K) -> bool)
    requires Sorted(asc, key, le)
    ensures Sorted(Reverse(asc), key, Flip(le))
  {
    var r := Reverse(asc);
    ReverseIndex(asc);
    forall i, j | 0 <= i < j < |r| ensures Flip(le)(key(r[i]), key(r[j])) {
      assert le(key(asc[|asc| - 1 - j]), key(asc[|asc| - 1 - i]));
    }
  }

  /** With groups of at most one element, reversing a stable ascending sort leaves every group as in the input. */
  lemma ReversedGroup<T, K(!new)>(s: seq<T>, asc: seq<T>, key: T -> K, le: (K, K) -> bool, k: K)
    requires TotalPreorder(le) && KeysPairwiseDistinct(s, key, le)
    requires Stable(asc, s, key, le)
    ensures SameKey(Reverse(asc), key, Flip(le), k) == SameKey(s, key, Flip(le), k)
  {
    SameKeyFlip(Reverse(asc), key, le, k);
    SameKeyFlip(s, key, le, k);
    ReverseSameKey(asc, key, le, k);
    SingletonGroups(s, key, le, k);
    var g := SameKey(s, key, le, k);
    assert SameKey(asc, key, le, k) == g;
    assert Reverse(g) == g by {
      if g != [] {
        assert g == [g[0]];
        assert Reverse(g) == Reverse(g[1..]) + [g[0]];
      }
    }
  }

  /** Two items with equal keys: the reverse sort keeps them in input order, the reversed sort does not. */
  lemma ReverseSortKeepsTies()
    ensures var s := [(1, 10), (1, 20)];
      var first := (p: (int, int)) => p.0;
      var le := (a: int, b: int) => a <= b;
      && Sort(s, first, Flip(le)) == s
      && Reverse(Sort(s, first, le)) == [(1, 20), (1, 10)]
  {
    var s: seq<(int, int)> := [(1, 10), (1, 20)];
    var first := (p: (int, int)) => p.0;
    var le := (a: int, b: int) => a <= b;
    assert s[..1] == [(1, 10)];
    assert Sort(s[..1], first, le) == [(1, 10)];
    assert Sort(s[..1], first, Flip(le)) == [(1, 10)];
    assert Flip(le)(1, 1);
    assert Insert((1, 20), [(1, 10)], first, Flip(le)) == [(1, 10)] + Insert((1, 20), [], first, Flip(le));
    assert Sort(s, first, Flip(le)) == Insert((1, 20), [(1, 10)], first, Flip(le));
    assert Insert((1, 20), [(1, 10)], first, le) == [(1, 10), (1, 20)];
    assert Sort(s, first, le) == [(1, 10), (1, 20)];
    assert Reverse([(1, 10), (1, 20)]) == Reverse([(1, 20)]) + [(1, 10)];
    assert [(1, 20)][1..] == [];
    assert Reverse<(int, int)>([]) == [];
  }
}
