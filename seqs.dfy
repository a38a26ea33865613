/** Generic sequence operations used by the list transforms of the client:
    filtering, stable sorting by a numeric key, first-occurrence de-duplication
    and bucketing by a key. Every recursive definition peels the LAST element,
    so that a loop over `s[..i]` can keep "the result so far" as an invariant. */
module Seqs {

  /** Element `i` of a destructured array, or the default when it is missing. */
  function Part<T>(a: seq<T>, i: nat, default: T): T {
    if i < |a| then a[i] else default
  }

  /** The elements of `s` that satisfy `p`, in their original order (`Array.prototype.filter`). */
  function Filter<T(!new)>(s: seq<T>, p: T -> bool): (r: seq<T>)
    ensures |r| <= |s|
    ensures forall x :: x in r <==> x in s && p(x)
    decreases |s|
  {
    if s == [] then []
    else Filter(s[..|s| - 1], p) + (if p(s[|s| - 1]) then [s[|s| - 1]] else [])
  }

  lemma {:induction false} FilterConcat<T(!new)>(a: seq<T>, b: seq<T>, p: T -> bool)
    ensures Filter(a + b, p) == Filter(a, p) + Filter(b, p)
    decreases |b|
  {
    if b == [] {
      assert a + b == a;
    } else {
      var b' := b[..|b| - 1];
      assert (a + b)[..|a + b| - 1] == a + b';
      FilterConcat(a, b', p);
    }
  }

  /** Filtering a sequence with one more element in front. */
  lemma {:induction false} FilterCons<T(!new)>(x: T, s: seq<T>, p: T -> bool)
    ensures Filter([x] + s, p) == (if p(x) then [x] else []) + Filter(s, p)
  {
    FilterConcat([x], s, p);
    assert [x][..0] == [];
    assert Filter([x][..0], p) == [];
    assert Filter([x], p) == Filter([x][..0], p) + (if p(x) then [x] else []);
  }

  /** Filtering keeps exactly the occurrences that satisfy `p`. */
  lemma {:induction false} FilterCount<T(!new)>(s: seq<T>, p: T -> bool, x: T)
    ensures multiset(Filter(s, p))[x] == if p(x) then multiset(s)[x] else 0
    decreases |s|
  {
    if s != [] {
      var s' := s[..|s| - 1];
      assert s == s' + [s[|s| - 1]];
      FilterCount(s', p, x);
    }
  }

  /** Strictly increasing integers. */
  ghost predicate Increasing(s: seq<int>) {
    forall i, j :: 0 <= i < j < |s| ==> s[i] < s[j]
  }

  /** Filtering keeps an increasing sequence increasing. */
  lemma {:induction false} FilterIncreasing(s: seq<int>, p: int -> bool)
    requires Increasing(s)
    ensures Increasing(Filter(s, p))
    decreases |s|
  {
    if s != [] {
      var s' := s[..|s| - 1];
      FilterIncreasing(s', p);
      var f := Filter(s', p);
      forall x | x in f ensures x < s[|s| - 1] {
        var k :| 0 <= k < |s'| && s'[k] == x;
      }
      var r := Filter(s, p);
      assert r == f + (if p(s[|s| - 1]) then [s[|s| - 1]] else []);
      forall i, j | 0 <= i < j < |r| ensures r[i] < r[j] {
        if j < |f| {
          assert r[i] == f[i] && r[j] == f[j];
        } else {
          assert r[i] == f[i] && f[i] in f;
        }
      }
    }
  }

  /** Keys never decrease from left to right. */
  ghost predicate SortedBy<T(!new)>(s: seq<T>, key: T -> int) {
    forall i, j :: 0 <= i < j < |s| ==> key(s[i]) <= key(s[j])
  }

  /** Inserts `x` in front of the first element whose key is not smaller, so `x`
      stays in front of the elements with an equal key. */
  function Insert<T(!new)>(x: T, s: seq<T>, key: T -> int): (r: seq<T>)
    ensures |r| == |s| + 1
    ensures multiset(r) == multiset(s) + multiset{x}
    decreases |s|
  {
    if s == [] || key(x) <= key(s[0]) then [x] + s
    else
      assert s == [s[0]] + s[1..];
      [s[0]] + Insert(x, s[1..], key)
  }

  lemma {:induction false} InsertBound<T(!new)>(x: T, s: seq<T>, key: T -> int, b: int)
    requires b <= key(x)
    requires forall j :: 0 <= j < |s| ==> b <= key(s[j])
    ensures forall j :: 0 <= j < |Insert(x, s, key)| ==> b <= key(Insert(x, s, key)[j])
    decreases |s|
  {
    if s != [] && key(x) > key(s[0]) {
      InsertBound(x, s[1..], key, b);
    }
  }

  lemma {:induction false} InsertSorted<T(!new)>(x: T, s: seq<T>, key: T -> int)
    requires SortedBy(s, key)
    ensures SortedBy(Insert(x, s, key), key)
    decreases |s|
  {
    if s != [] && key(x) > key(s[0]) {
      InsertSorted(x, s[1..], key);
      InsertBound(x, s[1..], key, key(s[0]));
    }
  }

  /** A stable sort by ascending key: the model of `Array.prototype.sort` (stable since
      ES2019) with the comparator `(a, b) => key(a) - key(b)`. */
  function SortByKey<T(!new)>(s: seq<T>, key: T -> int): (r: seq<T>)
    ensures |r| == |s|
    ensures multiset(r) == multiset(s)
    ensures SortedBy(r, key)
    decreases |s|
  {
    if s == [] then [] else
      assert s == [s[0]] + s[1..];
      InsertSorted(s[0], SortByKey(s[1..], key), key);
      Insert(s[0], SortByKey(s[1..], key), key)
  }

  /** Key order reversed: the comparator `(a, b) => key(b) - key(a)`. */
  function Negated<T(!new)>(key: T -> int): T -> int {
    x => -key(x)
  }

  /** A stable sort by descending key. */
  function SortByKeyDesc<T(!new)>(s: seq<T>, key: T -> int): (r: seq<T>)
    ensures |r| == |s|
    ensures multiset(r) == multiset(s)
    ensures NonIncreasingBy(r, key)
  {
    var r := SortByKey(s, Negated(key));
    assert forall i, j :: 0 <= i < j < |r| ==> Negated(key)(r[i]) <= Negated(key)(r[j]);
    r
  }

  /** The test "has key `k`". */
  function KeyIs<T>(key: T -> int, k: int): T -> bool {
    y => key(y) == k
  }

  /** Filtering by two tests that agree everywhere gives the same result. */
  lemma {:induction false} FilterAgree<T(!new)>(s: seq<T>, p: T -> bool, q: T -> bool)
    requires forall x :: p(x) == q(x)
    ensures Filter(s, p) == Filter(s, q)
    decreases |s|
  {
    if s != [] {
      FilterAgree(s[..|s| - 1], p, q);
    }
  }

  /** Insertion places `x` after no element of its own key, and among the other
      keys it changes nothing. */
  lemma {:induction false} InsertKeepsTies<T(!new)>(x: T, s: seq<T>, key: T -> int, k: int)
    ensures Filter(Insert(x, s, key), KeyIs(key, k)) ==
      (if key(x) == k then [x] else []) + Filter(s, KeyIs(key, k))
    decreases |s|
  {
    var p := KeyIs(key, k);
    if s == [] || key(x) <= key(s[0]) {
      FilterCons(x, s, p);
    } else {
      assert s == [s[0]] + s[1..];
      InsertKeepsTies(x, s[1..], key, k);
      FilterCons(s[0], Insert(x, s[1..], key), p);
      FilterCons(s[0], s[1..], p);
    }
  }

  /** Stability: the elements of one key come out of the sort in their input order. */
  lemma {:induction false} SortByKeyStable<T(!new)>(s: seq<T>, key: T -> int, k: int)
    ensures Filter(SortByKey(s, key), KeyIs(key, k)) == Filter(s, KeyIs(key, k))
    decreases |s|
  {
    if s != [] {
      assert s == [s[0]] + s[1..];
      SortByKeyStable(s[1..], key, k);
      InsertKeepsTies(s[0], SortByKey(s[1..], key), key, k);
      FilterCons(s[0], s[1..], KeyIs(key, k));
    }
  }

  /** Stability of the descending sort. */
  lemma SortByKeyDescStable<T(!new)>(s: seq<T>, key: T -> int, k: int)
    ensures Filter(SortByKeyDesc(s, key), KeyIs(key, k)) == Filter(s, KeyIs(key, k))
  {
    var r := SortByKeyDesc(s, key);
    SortByKeyStable(s, Negated(key), -k);
    FilterAgree(r, KeyIs(key, k), KeyIs(Negated(key), -k));
    FilterAgree(s, KeyIs(key, k), KeyIs(Negated(key), -k));
  }

  /** The set of keys of the elements of `s`. */
  function KeySet<T(==,!new), K(==,!new)>(s: seq<T>, key: T -> K): set<K> {
    set x | x in s :: key(x)
  }

  /** Reordering a sequence keeps the set of its keys. */
  lemma KeySetPermutation<T(!new), K(!new)>(a: seq<T>, b: seq<T>, key: T -> K)
    requires multiset(a) == multiset(b)
    ensures KeySet(a, key) == KeySet(b, key)
  {
    forall x ensures x in a <==> x in b {
      assert x in a <==> x in multiset(a);
      assert x in b <==> x in multiset(b);
    }
  }

  /** The element keys in order of first appearance (`Object.keys` order of a
      bucket object filled by a loop over `s`). */
  function FirstKeys<T(==,!new), K(==,!new)>(s: seq<T>, key: T -> K): (r: seq<K>)
    decreases |s|
  {
    if s == [] then []
    else
      var p := s[..|s| - 1];
      FirstKeys(p, key) + (if key(s[|s| - 1]) in KeySet(p, key) then [] else [key(s[|s| - 1])])
  }

  /** One more element adds its key to the key set and, when the key is new, to the
      end of the first-appearance order. */
  lemma {:induction false} KeysStep<T(!new), K(!new)>(s: seq<T>, i: nat, key: T -> K)
    requires i < |s|
    ensures KeySet(s[..i + 1], key) == KeySet(s[..i], key) + {key(s[i])}
    ensures FirstKeys(s[..i + 1], key) ==
      FirstKeys(s[..i], key) + (if key(s[i]) in KeySet(s[..i], key) then [] else [key(s[i])])
  {
    var p := s[..i];
    assert s[..i + 1] == p + [s[i]];
    assert s[..i + 1][..i] == p;
    forall k ensures k in KeySet(s[..i + 1], key) <==> k in KeySet(p, key) + {key(s[i])} {
      if k in KeySet(s[..i + 1], key) {
        var x :| x in s[..i + 1] && key(x) == k;
      }
      if k == key(s[i]) {
        assert s[i] in s[..i + 1];
      }
      if k in KeySet(p, key) {
        var x :| x in p && key(x) == k;
        assert x in s[..i + 1];
      }
    }
  }

  /** No value occurs twice. */
  ghost predicate Distinct<K>(s: seq<K>) {
    forall i, j :: 0 <= i < j < |s| ==> s[i] != s[j]
  }

  lemma {:induction false} FirstKeysSpec<T(!new), K(!new)>(s: seq<T>, key: T -> K)
    ensures Distinct(FirstKeys(s, key))
    ensures forall k :: k in FirstKeys(s, key) <==> k in KeySet(s, key)
    decreases |s|
  {
    if s != [] {
      FirstKeysSpec(s[..|s| - 1], key);
    }
  }

  /** The elements of `s` with key `k`, in their original order: one bucket. */
  function Bucket<T(!new), K(==,!new)>(s: seq<T>, key: T -> K, k: K): (r: seq<T>)
    decreases |s|
  {
    if s == [] then []
    else Bucket(s[..|s| - 1], key, k) + (if key(s[|s| - 1]) == k then [s[|s| - 1]] else [])
  }

  /** Each occurrence of `x` lands in the bucket of its own key and in no other. */
  lemma {:induction false} BucketCount<T(!new), K(!new)>(s: seq<T>, key: T -> K, k: K, x: T)
    ensures multiset(Bucket(s, key, k))[x] == if key(x) == k then multiset(s)[x] else 0
    decreases |s|
  {
    if s != [] {
      var s' := s[..|s| - 1];
      assert s == s' + [s[|s| - 1]];
      BucketCount(s', key, k, x);
    }
  }

  /** Keys never increase from left to right. */
  ghost predicate NonIncreasingBy<T(!new)>(s: seq<T>, key: T -> int) {
    forall i, j :: 0 <= i < j < |s| ==> key(s[i]) >= key(s[j])
  }

  /** A bucket is a subsequence, so it keeps a descending order. */
  lemma {:induction false} BucketNonIncreasing<T(!new), K(!new)>(s: seq<T>, key: T -> K, k: K, order: T -> int)
    requires NonIncreasingBy(s, order)
    ensures NonIncreasingBy(Bucket(s, key, k), order)
    decreases |s|
  {
    if s != [] {
      var s' := s[..|s| - 1];
      var last := s[|s| - 1];
      BucketNonIncreasing(s', key, k, order);
      var b := Bucket(s', key, k);
      forall x | x in b ensures order(x) >= order(last) {
        BucketCount(s', key, k, x);
        assert x in multiset(s');
        var i :| 0 <= i < |s'| && s'[i] == x;
      }
      var r := Bucket(s, key, k);
      assert r == b + (if key(last) == k then [last] else []);
      forall i, j | 0 <= i < j < |r| ensures order(r[i]) >= order(r[j]) {
        if j < |b| {
          assert r[i] == b[i] && r[j] == b[j];
        } else {
          assert r[i] == b[i] && b[i] in b;
        }
      }
    }
  }

  /** Filtering keeps a descending order: the elements left keep their relative order. */
  lemma {:induction false} FilterNonIncreasing<T(!new)>(s: seq<T>, p: T -> bool, order: T -> int)
    requires NonIncreasingBy(s, order)
    ensures NonIncreasingBy(Filter(s, p), order)
    decreases |s|
  {
    if s != [] {
      var s' := s[..|s| - 1];
      var last := s[|s| - 1];
      assert NonIncreasingBy(s', order);
      FilterNonIncreasing(s', p, order);
      var f := Filter(s', p);
      forall x | x in f ensures order(x) >= order(last) {
        var i :| 0 <= i < |s'| && s'[i] == x;
      }
      var r := Filter(s, p);
      forall i, j | 0 <= i < j < |r| ensures order(r[i]) >= order(r[j]) {
        if j < |f| {
          assert r[i] == f[i] && r[j] == f[j];
        } else {
          assert r[i] == f[i] && f[i] in f;
        }
      }
    }
  }

  /** One more element extends the bucket of its own key and no other. */
  lemma BucketStep<T(!new), K(!new)>(s: seq<T>, i: nat, key: T -> K, k: K)
    requires i < |s|
    ensures Bucket(s[..i + 1], key, k) == Bucket(s[..i], key, k) + (if key(s[i]) == k then [s[i]] else [])
  {
    assert s[..i + 1][..i] == s[..i];
  }

  lemma BucketEmpty<T(!new), K(!new)>(s: seq<T>, key: T -> K, k: K)
    requires k !in KeySet(s, key)
    ensures Bucket(s, key, k) == []
    decreases |s|
  {
    if s != [] {
      assert s[..|s| - 1] + [s[|s| - 1]] == s;
      BucketEmpty(s[..|s| - 1], key, k);
    }
  }

  /** The grouping loop `for (x of s) (bucket[key(x)] ??= []).push(x)`: after it,
      `order` lists the bucket names as `Object.keys` does and `groups` maps each name
      to its bucket. */
  method GroupBy<T(==,!new), K(==,!new)>(s: seq<T>, key: T -> K) returns (order: seq<K>, groups: map<K, seq<T>>)
    ensures order == FirstKeys(s, key)
    ensures groups.Keys == KeySet(s, key)
    ensures forall k :: k in groups ==> groups[k] == Bucket(s, key, k)
  {
    order, groups := [], map[];
    var i := 0;
    while i < |s|
      invariant 0 <= i <= |s|
      invariant order == FirstKeys(s[..i], key)
      invariant groups.Keys == KeySet(s[..i], key)
      invariant forall k :: k in groups ==> groups[k] == Bucket(s[..i], key, k)
    {
      var x := s[i];
      var k := key(x);
      KeysStep(s, i, key);
      GroupStep(s, i, key, groups);
      if k in groups {
        groups := groups[k := groups[k] + [x]];
      } else {
        order := order + [k];
        assert [] + [x] == [x];
        groups := groups[k := [x]];
      }
      i := i + 1;
    }
    assert s[..|s|] == s;
  }

  /** One turn of the grouping loop keeps `groups` the buckets of the prefix. */
  lemma GroupStep<T(!new), K(!new)>(s: seq<T>, i: nat, key: T -> K, groups: map<K, seq<T>>)
    requires i < |s|
    requires groups.Keys == KeySet(s[..i], key)
    requires forall k :: k in groups ==> groups[k] == Bucket(s[..i], key, k)
    ensures var g := groups[key(s[i]) := (if key(s[i]) in groups then groups[key(s[i])] else []) + [s[i]]];
      g.Keys == KeySet(s[..i + 1], key) &&
      forall k :: k in g ==> g[k] == Bucket(s[..i + 1], key, k)
  {
    var k := key(s[i]);
    var g := groups[k := (if k in groups then groups[k] else []) + [s[i]]];
    KeysStep(s, i, key);
    if k !in groups {
      BucketEmpty(s[..i], key, k);
    }
    forall k' | k' in g
      ensures g[k'] == Bucket(s[..i + 1], key, k')
    {
      BucketStep(s, i, key, k');
    }
  }

  /** `order.forEach(k => { m[k] = f(m[k]) })` over distinct names: each listed
      bucket is transformed once, every other one is left alone. */
  method UpdateListed<K(==,!new), T(!new)>(m: map<K, seq<T>>, order: seq<K>, f: seq<T> -> seq<T>)
    returns (r: map<K, seq<T>>)
    requires Distinct(order)
    ensures r.Keys == m.Keys
    ensures forall k :: k in r ==> r[k] == if k in order then f(m[k]) else m[k]
  {
    r := m;
    var i := 0;
    while i < |order|
      invariant 0 <= i <= |order|
      invariant r.Keys == m.Keys
      invariant forall k :: k in r ==> r[k] == if k in order[..i] then f(m[k]) else m[k]
    {
      var k := order[i];
      assert forall j :: 0 <= j < i ==> order[j] != k;
      if k in r {
        r := r[k := f(r[k])];
      }
      assert order[..i + 1] == order[..i] + [k];
      i := i + 1;
    }
    assert order[..|order|] == order;
  }

  /** `for (const k of Object.keys(m)) m[k] = m[k].filter(p)`: every bucket is
      filtered and every name stays. */
  method FilterEach<K(==,!new), T(!new)>(m: map<K, seq<T>>, p: T -> bool) returns (r: map<K, seq<T>>)
    ensures r.Keys == m.Keys
    ensures forall k :: k in r ==> r[k] == Filter(m[k], p)
  {
    r := m;
    var todo := m.Keys;
    while todo != {}
      invariant todo <= r.Keys && r.Keys == m.Keys
      invariant forall k :: k in todo ==> r[k] == m[k]
      invariant forall k :: k in r && k !in todo ==> r[k] == Filter(m[k], p)
      decreases |todo|
    {
      var k :| k in todo;
      var fk := Filter(r[k], p);
      assert fk == Filter(m[k], p);
      r := r[k := fk];
      todo := todo - {k};
    }
  }

  /** Keeps the first element of each key and drops later ones:
      `s.filter((x, i, a) => i === a.findIndex(y => key(y) === key(x)))`. */
  function DedupBy<T(==,!new), K(==,!new)>(s: seq<T>, key: T -> K): (r: seq<T>)
    ensures |r| <= |s|
    ensures forall x :: x in r ==> x in s
    decreases |s|
  {
    if s == [] then []
    else
      var p := s[..|s| - 1];
      DedupBy(p, key) + (if key(s[|s| - 1]) in KeySet(p, key) then [] else [s[|s| - 1]])
  }

  /** De-duplication keeps every key. */
  lemma {:induction false} DedupByKeys<T(!new), K(!new)>(s: seq<T>, key: T -> K)
    ensures KeySet(DedupBy(s, key), key) == KeySet(s, key)
    decreases |s|
  {
    if s != [] {
      var p := s[..|s| - 1];
      var last := s[|s| - 1];
      DedupByKeys(p, key);
      if key(last) !in KeySet(p, key) {
        KeySetConcat(DedupBy(p, key), [last], key);
      }
      KeySetConcat(p, [last], key);
      assert s == p + [last];
    }
  }

  /** After de-duplication no key occurs twice. */
  lemma {:induction false} DedupByDistinct<T(!new), K(!new)>(s: seq<T>, key: T -> K)
    ensures forall i, j :: 0 <= i < j < |DedupBy(s, key)| ==> key(DedupBy(s, key)[i]) != key(DedupBy(s, key)[j])
    decreases |s|
  {
    if s != [] {
      var p := s[..|s| - 1];
      var last := s[|s| - 1];
      DedupByDistinct(p, key);
      DedupByKeys(p, key);
      var d := DedupBy(p, key);
      var r := DedupBy(s, key);
      assert r == d + (if key(last) in KeySet(p, key) then [] else [last]);
      forall i, j | 0 <= i < j < |r| ensures key(r[i]) != key(r[j]) {
        if j == |d| {
          assert r[i] == d[i];
          assert key(d[i]) in KeySet(d, key);
        } else {
          assert r[i] == d[i] && r[j] == d[j];
        }
      }
    }
  }

  lemma {:induction false} KeySetConcat<T(!new), K(!new)>(a: seq<T>, b: seq<T>, key: T -> K)
    ensures KeySet(a + b, key) == KeySet(a, key) + KeySet(b, key)
    decreases |b|
  {
    if b == [] {
      assert a + b == a;
    } else {
      var b' := b[..|b| - 1];
      assert (a + b)[..|a + b| - 1] == a + b';
      KeySetConcat(a, b', key);
    }
  }

  /** De-duplicating a list that already has distinct keys changes nothing. */
  lemma {:induction false} DedupByIdentity<T(!new), K(!new)>(s: seq<T>, key: T -> K)
    requires forall i, j :: 0 <= i < j < |s| ==> key(s[i]) != key(s[j])
    ensures DedupBy(s, key) == s
    decreases |s|
  {
    if s != [] {
      var p := s[..|s| - 1];
      DedupByIdentity(p, key);
      assert s == p + [s[|s| - 1]];
    }
  }

  /** De-duplicating `a + b` keeps `a` at the front when `a` has distinct keys:
      elements already present never move, later duplicates are dropped. */
  lemma {:induction false} DedupByPrefix<T(!new), K(!new)>(a: seq<T>, b: seq<T>, key: T -> K)
    requires forall i, j :: 0 <= i < j < |a| ==> key(a[i]) != key(a[j])
    ensures |DedupBy(a + b, key)| >= |a|
    ensures DedupBy(a + b, key)[..|a|] == a
    decreases |b|
  {
    if b == [] {
      assert a + b == a;
      DedupByIdentity(a, key);
    } else {
      var b' := b[..|b| - 1];
      assert (a + b)[..|a + b| - 1] == a + b';
      DedupByPrefix(a, b', key);
    }
  }
}
