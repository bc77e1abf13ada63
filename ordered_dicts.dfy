/**
 * Python dictionaries (`dict` and `OrderedDict`, both insertion-ordered) as
 * the list of their items.
 */
module OrderedDicts {
  import opened Base

  type Items<K, V> = seq<(K, V)>

  function Keys<K, V>(d: Items<K, V>): (r: seq<K>)
    ensures |r| == |d|
    ensures forall i :: 0 <= i < |d| ==> r[i] == d[i].0
  {
    seq(|d|, i requires 0 <= i < |d| => d[i].0)
  }

  /** Every Python dictionary has this: no key twice. */
  predicate DistinctKeys<K(==), V>(d: Items<K, V>) {
    forall i, j :: 0 <= i < j < |d| ==> d[i].0 != d[j].0
  }

  /** `d[k] = v`: a key already present keeps its place and takes the new value; a new key goes last. */
  function Assign<K(==), V>(d: Items<K, V>, k: K, v: V): Items<K, V> {
    if d == [] then [(k, v)]
    else if d[0].0 == k then [(k, v)] + d[1..]
    else [d[0]] + Assign(d[1..], k, v)
  }

  /** `d.get(k)` */
  function Get<K(==), V>(d: Items<K, V>, k: K): Option<V> {
    if d == [] then None
    else if d[0].0 == k then Some(d[0].1)
    else Get(d[1..], k)
  }

  /** Assignment keeps keys distinct, appends exactly when the key is new, and changes the value of that key only. */
  lemma AssignSpec<K, V>(d: Items<K, V>, k: K, v: V)
    requires DistinctKeys(d)
    ensures DistinctKeys(Assign(d, k, v))
    ensures k !in Keys(d) ==> Assign(d, k, v) == d + [(k, v)]
    ensures k in Keys(d) ==> Keys(Assign(d, k, v)) == Keys(d)
    ensures Get(Assign(d, k, v), k) == Some(v)
    ensures forall k' :: k' != k ==> Get(Assign(d, k, v), k') == Get(d, k')
  {
    AssignLookup(d, k, v);
    if k in Keys(d) {
      AssignKeepsKeys(d, k, v);
      SameKeysDistinct(d, Assign(d, k, v));
    } else {
      AssignAppends(d, k, v);
      var r := d + [(k, v)];
      forall i, j | 0 <= i < j < |r| ensures r[i].0 != r[j].0 {
        if j == |d| {
          assert r[i].0 == Keys(d)[i];
        }
      }
    }
  }

  lemma {:induction false} AssignLookup<K, V>(d: Items<K, V>, k: K, v: V)
    ensures Get(Assign(d, k, v), k) == Some(v)
    ensures forall k' :: k' != k ==> Get(Assign(d, k, v), k') == Get(d, k')
  {
    if d != [] {
      var r := Assign(d, k, v);
      if d[0].0 == k {
        assert r[1..] == d[1..];
      } else {
        AssignLookup(d[1..], k, v);
        assert r[0] == d[0] && r[1..] == Assign(d[1..], k, v);
      }
    }
  }

  lemma {:induction false} AssignAppends<K, V>(d: Items<K, V>, k: K, v: V)
    requires k !in Keys(d)
    ensures Assign(d, k, v) == d + [(k, v)]
  {
    if d != [] {
      assert Keys(d) == [d[0].0] + Keys(d[1..]);
      AssignAppends(d[1..], k, v);
      assert d == [d[0]] + d[1..];
    }
  }

  lemma AssignKeepsKeys<K, V>(d: Items<K, V>, k: K, v: V)
    requires DistinctKeys(d) && k in Keys(d)
    ensures Keys(Assign(d, k, v)) == Keys(d)
  {
    AssignInPlace(d, k, v);
  }

  /** Whether the keys are distinct depends on the keys alone. */
  lemma SameKeysDistinct<K, V>(a: Items<K, V>, b: Items<K, V>)
    requires Keys(a) == Keys(b)
    ensures DistinctKeys(a) == DistinctKeys(b)
  {
    assert forall i :: 0 <= i < |a| ==> a[i].0 == Keys(a)[i] == b[i].0;
  }

  /** Assigning to a key already present rewrites that one item in place. */
  lemma AssignInPlace<K, V>(d: Items<K, V>, k: K, v: V)
    requires DistinctKeys(d) && k in Keys(d)
    ensures |Assign(d, k, v)| == |d|
    ensures forall j :: 0 <= j < |d| ==> Assign(d, k, v)[j] == (if d[j].0 == k then (k, v) else d[j])
  {
    var m :| 0 <= m < |d| && Keys(d)[m] == k;
    AssignAt(d, k, v, m);
  }

  /** Assignment replaces the first item with the key. */
  lemma {:induction false} AssignAt<K, V>(d: Items<K, V>, k: K, v: V, m: nat)
    requires m < |d| && d[m].0 == k
    requires forall i :: 0 <= i < m ==> d[i].0 != k
    ensures |Assign(d, k, v)| == |d|
    ensures forall j :: 0 <= j < |d| ==> Assign(d, k, v)[j] == (if j == m then (k, v) else d[j])
  {
    if m > 0 {
      var tail := d[1..];
      AssignAt(tail, k, v, m - 1);
      var r := Assign(d, k, v);
      assert r == [d[0]] + Assign(tail, k, v);
      forall j | 0 < j < |d| ensures r[j] == (if j == m then (k, v) else d[j]) {
        assert r[j] == Assign(tail, k, v)[j - 1];
      }
    }
  }

  /**
   * `d[k] = f(k)` on a dictionary whose every value is `f` of its key: it
   * stays one, and `k` is added at the end unless it was already there.
   */
  lemma AssignValuesOf<K, V>(d: Items<K, V>, k: K, f: K -> V)
    requires DistinctKeys(d)
    requires forall j :: 0 <= j < |d| ==> d[j].1 == f(d[j].0)
    ensures DistinctKeys(Assign(d, k, f(k)))
    ensures Keys(Assign(d, k, f(k))) == if k in Keys(d) then Keys(d) else Keys(d) + [k]
    ensures forall j :: 0 <= j < |Assign(d, k, f(k))| ==> Assign(d, k, f(k))[j].1 == f(Assign(d, k, f(k))[j].0)
  {
    AssignSpec(d, k, f(k));
    if k in Keys(d) {
      AssignInPlace(d, k, f(k));
    } else {
      assert Keys(d + [(k, f(k))]) == Keys(d) + [k];
    }
  }

  /** `d` maps each distinct element of `ks`, in order of first occurrence, to `f` of it. */
  ghost predicate IsDictOf<K, V>(d: Items<K, V>, ks: seq<K>, f: K -> V) {
    && DistinctKeys(d)
    && Keys(d) == Dedup(ks)
    && (forall j :: 0 <= j < |d| ==> d[j].1 == f(d[j].0))
  }

  /** Filling a dictionary key by key with `d[k] = f(k)`: one more key seen. */
  lemma AssignNext<K, V>(d: Items<K, V>, ks: seq<K>, k: K, f: K -> V)
    requires IsDictOf(d, ks, f)
    ensures IsDictOf(Assign(d, k, f(k)), ks + [k], f)
  {
    AssignValuesOf(d, k, f);
    DedupSnoc(ks, k);
    DedupSpec(ks);
  }

  /** Looking up such a dictionary: `f` of the key for every key seen, nothing for any other. */
  lemma IsDictOfGet<K, V>(d: Items<K, V>, ks: seq<K>, f: K -> V)
    requires IsDictOf(d, ks, f)
    ensures forall u :: Get(d, u) == if u in ks then Some(f(u)) else None
  {
    DedupSpec(ks);
    forall u ensures Get(d, u) == if u in ks then Some(f(u)) else None {
      if u in ks {
        assert u in Keys(d);
        var j :| 0 <= j < |d| && Keys(d)[j] == u;
        GetAt(d, j);
      } else {
        GetAbsent(d, u);
      }
    }
  }

  /** In a dictionary, looking up the key of an item finds that item's value. */
  lemma {:induction false} GetAt<K, V>(d: Items<K, V>, j: nat)
    requires DistinctKeys(d) && j < |d|
    ensures Get(d, d[j].0) == Some(d[j].1)
  {
    if j > 0 {
      assert d[1..][j - 1] == d[j];
      GetAt(d[1..], j - 1);
    }
  }

  /** Looking up a key that is not there finds nothing. */
  lemma {:induction false} GetAbsent<K, V>(d: Items<K, V>, k: K)
    requires k !in Keys(d)
    ensures Get(d, k) == None
  {
    if d != [] {
      assert Keys(d) == [d[0].0] + Keys(d[1..]);
      GetAbsent(d[1..], k);
    }
  }

  /** The distinct elements of a list, in order of first occurrence. */
  function Dedup<T(==)>(s: seq<T>): (r: seq<T>)
    decreases |s|
  {
    if s == [] then []
    else
      var d := Dedup(s[..|s| - 1]);
      if s[|s| - 1] in d then d else d + [s[|s| - 1]]
  }

  /** Adding one element at the end of the list: it joins the distinct elements unless it is already among them. */
  lemma DedupSnoc<T>(s: seq<T>, x: T)
    ensures Dedup(s + [x]) == if x in s then Dedup(s) else Dedup(s) + [x]
  {
    assert (s + [x])[..|s|] == s;
    DedupSpec(s);
  }

  lemma {:induction false} DedupSpec<T>(s: seq<T>)
    ensures forall x :: x in Dedup(s) <==> x in s
    ensures forall i, j :: 0 <= i < j < |Dedup(s)| ==> Dedup(s)[i] != Dedup(s)[j]
    decreases |s|
  {
    if s != [] {
      var p := s[..|s| - 1];
      DedupSpec(p);
      assert s == p + [s[|s| - 1]];
    }
  }
}
