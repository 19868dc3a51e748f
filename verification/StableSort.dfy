/** Stable sorting of keyed rows through a permutation of their indices. */
module StableSort {
  import opened ByteStrings

  function Keys<K, V>(rows: seq<(K, V)>): (keys: seq<K>)
    ensures |keys| == |rows| && forall i :: 0 <= i < |rows| ==> keys[i] == rows[i].0
  {
    seq(|rows|, i requires 0 <= i < |rows| => rows[i].0)
  }

  /** Whether index `i` belongs before index `j`: smaller key, or equal key and earlier in the input. */
  predicate Before<K(==)>(lt: (K, K) -> bool, keys: seq<K>, i: nat, j: nat)
    requires i < |keys| && j < |keys|
  {
    lt(keys[i], keys[j]) || (keys[i] == keys[j] && i < j)
  }

  ghost predicate Indices<K>(keys: seq<K>, idx: seq<nat>) {
    forall p :: 0 <= p < |idx| ==> idx[p] < |keys|
  }

  /** `idx` lists indices of `keys` in stable ascending order. */
  ghost predicate Ascending<K>(lt: (K, K) -> bool, keys: seq<K>, idx: seq<nat>) {
    Indices(keys, idx) && forall p, q :: 0 <= p < q < |idx| ==> Before(lt, keys, idx[p], idx[q])
  }

  /** The stable sorting permutation, described without an algorithm. */
  ghost predicate IsStableOrder<K>(lt: (K, K) -> bool, keys: seq<K>, idx: seq<nat>) {
    && Ascending(lt, keys, idx)
    && forall i: nat :: i in idx <==> i < |keys|
  }

  function InsertIndex<K(==)>(lt: (K, K) -> bool, keys: seq<K>, i: nat, idx: seq<nat>): (r: seq<nat>)
    requires i < |keys| && forall p :: 0 <= p < |idx| ==> idx[p] < |keys|
    ensures |r| == |idx| + 1
    ensures forall p :: 0 <= p < |r| ==> r[p] < |keys|
  {
    if idx == [] || Before(lt, keys, i, idx[0]) then [i] + idx
    else [idx[0]] + InsertIndex(lt, keys, i, idx[1..])
  }

  function OrderUpTo<K(==)>(lt: (K, K) -> bool, keys: seq<K>, n: nat): (r: seq<nat>)
    requires n <= |keys|
    ensures |r| == n
    ensures forall p :: 0 <= p < |r| ==> r[p] < |keys|
  {
    if n == 0 then [] else InsertIndex(lt, keys, n - 1, OrderUpTo(lt, keys, n - 1))
  }

  /** The stable sorting permutation of `keys`. */
  function Order<K(==)>(lt: (K, K) -> bool, keys: seq<K>): (r: seq<nat>)
    ensures |r| == |keys|
    ensures forall p :: 0 <= p < |r| ==> r[p] < |keys|
  {
    OrderUpTo(lt, keys, |keys|)
  }

  function Select<T>(s: seq<T>, idx: seq<nat>): (r: seq<T>)
    requires forall p :: 0 <= p < |idx| ==> idx[p] < |s|
    ensures |r| == |idx|
    ensures forall p :: 0 <= p < |idx| ==> r[p] == s[idx[p]]
  {
    seq(|idx|, p requires 0 <= p < |idx| => s[idx[p]])
  }

  function Sort<K(==), V>(lt: (K, K) -> bool, rows: seq<(K, V)>): (r: seq<(K, V)>)
    ensures |r| == |rows|
  {
    Select(rows, Order(lt, Keys(rows)))
  }

  lemma {:induction false} InsertIndexMembers<K>(lt: (K, K) -> bool, keys: seq<K>, i: nat, idx: seq<nat>)
    requires i < |keys| && Indices(keys, idx)
    ensures forall x: nat :: x in InsertIndex(lt, keys, i, idx) <==> x == i || x in idx
  {
    if idx != [] {
      assert idx == [idx[0]] + idx[1..];
      if !Before(lt, keys, i, idx[0]) {
        InsertIndexMembers(lt, keys, i, idx[1..]);
      }
    }
  }

  lemma BeforeTransitive<K(!new)>(lt: (K, K) -> bool, keys: seq<K>, i: nat, j: nat, k: nat)
    requires StrictOrder(lt) && i < |keys| && j < |keys| && k < |keys|
    requires Before(lt, keys, i, j) && Before(lt, keys, j, k)
    ensures Before(lt, keys, i, k)
  {
  }

  lemma {:induction false} InsertIndexAscending<K(!new)>(lt: (K, K) -> bool, keys: seq<K>, i: nat, idx: seq<nat>)
    requires StrictOrder(lt)
    requires i < |keys| && Ascending(lt, keys, idx) && i !in idx
    ensures Ascending(lt, keys, InsertIndex(lt, keys, i, idx))
  {
    var r := InsertIndex(lt, keys, i, idx);
    if idx != [] {
      if Before(lt, keys, i, idx[0]) {
        forall p, q | 0 <= p < q < |r| ensures Before(lt, keys, r[p], r[q]) {
          if p == 0 && q > 1 {
            BeforeTransitive(lt, keys, i, idx[0], idx[q - 1]);
          }
        }
      } else {
        var tail := InsertIndex(lt, keys, i, idx[1..]);
        InsertIndexAscending(lt, keys, i, idx[1..]);
        InsertIndexMembers(lt, keys, i, idx[1..]);
        forall p, q | 0 <= p < q < |r| ensures Before(lt, keys, r[p], r[q]) {
          assert r[q] == tail[q - 1];
          if p == 0 {
            assert tail[q - 1] in tail;
            if tail[q - 1] != i {
              var m :| 0 <= m < |idx[1..]| && idx[1..][m] == tail[q - 1];
              assert idx[m + 1] == tail[q - 1];
            } else {
              assert idx[0] != i;
            }
          }
        }
      }
    }
  }

  lemma {:induction false} OrderUpToStable<K(!new)>(lt: (K, K) -> bool, keys: seq<K>, n: nat)
    requires StrictOrder(lt) && n <= |keys|
    ensures Ascending(lt, keys, OrderUpTo(lt, keys, n))
    ensures forall i: nat :: i in OrderUpTo(lt, keys, n) <==> i < n
  {
    if n > 0 {
      OrderUpToStable(lt, keys, n - 1);
      InsertIndexMembers(lt, keys, n - 1, OrderUpTo(lt, keys, n - 1));
      InsertIndexAscending(lt, keys, n - 1, OrderUpTo(lt, keys, n - 1));
    }
  }

  lemma OrderIsStable<K(!new)>(lt: (K, K) -> bool, keys: seq<K>)
    requires StrictOrder(lt)
    ensures IsStableOrder(lt, keys, Order(lt, keys))
  {
    OrderUpToStable(lt, keys, |keys|);
  }

  /** Two lists in strictly ascending order with the same members are the same list. */
  lemma {:induction false} AscendingUnique<T(!new)>(lt: (T, T) -> bool, a: seq<T>, b: seq<T>)
    requires forall x, y :: x in a && y in a && lt(x, y) ==> !lt(y, x)
    requires forall p, q :: 0 <= p < q < |a| ==> lt(a[p], a[q])
    requires forall p, q :: 0 <= p < q < |b| ==> lt(b[p], b[q])
    requires forall x :: x in a <==> x in b
    ensures a == b
  {
    assert a != [] ==> a[0] in b;
    assert b != [] ==> b[0] in a;
    if a != [] && b != [] {
      assert a[0] == b[0];
      forall x ensures x in a[1..] <==> x in b[1..] {
        if x in a[1..] {
          TailMember(lt, a, b, x);
        }
        if x in b[1..] {
          TailMember(lt, b, a, x);
        }
      }
      AscendingUnique(lt, a[1..], b[1..]);
      assert a == [a[0]] + a[1..] && b == [b[0]] + b[1..];
    }
  }

  lemma TailMember<T(!new)>(lt: (T, T) -> bool, a: seq<T>, b: seq<T>, x: T)
    requires a != [] && b != [] && a[0] == b[0] && x in a[1..]
    requires forall p, q :: 0 <= p < q < |a| ==> lt(a[p], a[q])
    requires forall y :: y in a ==> y in b
    requires forall y, z :: y in a && z in a && lt(y, z) ==> !lt(z, y)
    ensures x in b[1..]
  {
    var m :| 0 <= m < |a[1..]| && a[1..][m] == x;
    assert a[m + 1] == x && lt(a[0], a[m + 1]);
    assert a[0] in a && x in a;
    var n :| 0 <= n < |b| && b[n] == x;
    assert n != 0;
    assert b[1..][n - 1] == x;
  }

  /** Only one index list meets the description of a stable sort. */
  lemma StableOrderUnique<K(!new)>(lt: (K, K) -> bool, keys: seq<K>, idx: seq<nat>)
    requires StrictOrder(lt) && IsStableOrder(lt, keys, idx)
    ensures idx == Order(lt, keys)
  {
    OrderIsStable(lt, keys);
    var before := (i: nat, j: nat) => i < |keys| && j < |keys| && Before(lt, keys, i, j);
    AscendingUnique(before, idx, Order(lt, keys));
  }

  /** `indices.sort_by(...)`: the input positions, ordered by key, equal keys in input order. */
  method SortIndices<K(==)>(lt: (K, K) -> bool, keys: seq<K>) returns (indices: seq<nat>)
    ensures indices == Order(lt, keys)
  {
    hide Before, InsertIndex;
    indices := [];
    for i := 0 to |keys|
      invariant indices == OrderUpTo(lt, keys, i)
    {
      indices := PlaceIndex(lt, keys, i, indices);
    }
  }

  lemma InsertLater<K>(lt: (K, K) -> bool, keys: seq<K>, i: nat, indices: seq<nat>, p: nat)
    requires i < |keys| && forall p :: 0 <= p < |indices| ==> indices[p] < |keys|
    requires p < |indices| && !Before(lt, keys, i, indices[p])
    ensures indices[..p] + InsertIndex(lt, keys, i, indices[p..]) ==
            indices[..p + 1] + InsertIndex(lt, keys, i, indices[p + 1..])
  {
    assert indices[p..][1..] == indices[p + 1..];
    assert indices[..p] + [indices[p]] == indices[..p + 1];
  }

  method PlaceIndex<K(==)>(lt: (K, K) -> bool, keys: seq<K>, i: nat, indices: seq<nat>) returns (r: seq<nat>)
    requires i < |keys| && forall p :: 0 <= p < |indices| ==> indices[p] < |keys|
    ensures r == InsertIndex(lt, keys, i, indices)
  {
    hide Before;
    var p := 0;
    while p < |indices| && !Before(lt, keys, i, indices[p])
      invariant 0 <= p <= |indices|
      invariant InsertIndex(lt, keys, i, indices) == indices[..p] + InsertIndex(lt, keys, i, indices[p..])
    {
      InsertLater(lt, keys, i, indices, p);
      p := p + 1;
    }
    r := indices[..p] + [i] + indices[p..];
  }

  predicate DistinctKeys<K(==), V>(rows: seq<(K, V)>) {
    forall i, j :: 0 <= i < j < |rows| ==> rows[i].0 != rows[j].0
  }

  ghost predicate StrictlySorted<K, V>(lt: (K, K) -> bool, rows: seq<(K, V)>) {
    forall i, j :: 0 <= i < j < |rows| ==> lt(rows[i].0, rows[j].0)
  }

  ghost predicate SameMembers<T(!new)>(a: seq<T>, b: seq<T>) {
    forall x :: x in a <==> x in b
  }

  lemma SortMembers<K(!new), V(!new)>(lt: (K, K) -> bool, rows: seq<(K, V)>)
    requires StrictOrder(lt)
    ensures SameMembers(Sort(lt, rows), rows)
  {
    var idx := Order(lt, Keys(rows));
    OrderIsStable(lt, Keys(rows));
    forall x | x in rows ensures x in Sort(lt, rows) {
      var i :| 0 <= i < |rows| && rows[i] == x;
      assert i in idx;
      var p :| 0 <= p < |idx| && idx[p] == i;
      assert Sort(lt, rows)[p] == x;
    }
  }

  /** Equal keys keep the order they came in, and no key sits after a larger one. */
  lemma SortIsSorted<K(!new), V>(lt: (K, K) -> bool, rows: seq<(K, V)>)
    requires StrictOrder(lt)
    ensures forall p, q :: 0 <= p < q < |rows| ==> !lt(Sort(lt, rows)[q].0, Sort(lt, rows)[p].0)
    ensures DistinctKeys(rows) ==> StrictlySorted(lt, Sort(lt, rows))
  {
    OrderIsStable(lt, Keys(rows));
  }

  /** Rows with equal keys come out in the order they went in. */
  lemma SortKeepsDuplicates<K(!new), V>(lt: (K, K) -> bool, rows: seq<(K, V)>, i: nat, j: nat) returns (p: nat, q: nat)
    requires StrictOrder(lt) && i < j < |rows| && rows[i].0 == rows[j].0
    ensures p < q < |rows| && Sort(lt, rows)[p] == rows[i] && Sort(lt, rows)[q] == rows[j]
  {
    var idx := Order(lt, Keys(rows));
    OrderIsStable(lt, Keys(rows));
    assert i in idx && j in idx;
    p :| 0 <= p < |idx| && idx[p] == i;
    q :| 0 <= q < |idx| && idx[q] == j;
  }

  /** Rows already in strict order are left alone. */
  lemma SortSorted<K(!new), V>(lt: (K, K) -> bool, rows: seq<(K, V)>)
    requires StrictOrder(lt)
    requires forall p, q :: 0 <= p < q < |rows| ==> !lt(rows[q].0, rows[p].0)
    ensures Sort(lt, rows) == rows
  {
    var idx := seq(|rows|, p => p);
    assert IsStableOrder(lt, Keys(rows), idx) by {
      forall i: nat ensures i in idx <==> i < |rows| {
        if i < |rows| { assert idx[i] == i; }
      }
    }
    StableOrderUnique(lt, Keys(rows), idx);
  }

  /** Sorting only looks at keys. */
  lemma SortSameKeys<K(!new), V, W>(lt: (K, K) -> bool, a: seq<(K, V)>, b: seq<(K, W)>)
    requires Keys(a) == Keys(b)
    ensures Keys(Sort(lt, a)) == Keys(Sort(lt, b))
    ensures forall p :: 0 <= p < |a| ==>
              Order(lt, Keys(a))[p] < |a| && Sort(lt, a)[p] == a[Order(lt, Keys(a))[p]]
              && Sort(lt, b)[p] == b[Order(lt, Keys(a))[p]]
  {
  }

  /** With distinct keys the sorted list depends on the set of rows only. */
  lemma SortPermutation<K(!new), V(!new)>(lt: (K, K) -> bool, a: seq<(K, V)>, b: seq<(K, V)>)
    requires StrictOrder(lt)
    requires DistinctKeys(a) && DistinctKeys(b) && SameMembers(a, b)
    ensures Sort(lt, a) == Sort(lt, b)
  {
    SortMembers(lt, a);
    SortMembers(lt, b);
    SortIsSorted(lt, a);
    SortIsSorted(lt, b);
    var below := (x: (K, V), y: (K, V)) => lt(x.0, y.0);
    AscendingUnique(below, Sort(lt, a), Sort(lt, b));
  }

  /** The first row stored under a key is found before and after sorting alike. */
  function Lookup<K(==), V>(rows: seq<(K, V)>, key: K): (r: Option<V>)
    ensures r.Some? ==> (key, r.value) in rows
    ensures r.None? <==> forall i :: 0 <= i < |rows| ==> rows[i].0 != key
  {
    if rows == [] then None
    else if rows[0].0 == key then Some(rows[0].1)
    else
      assert forall i :: 1 <= i < |rows| ==> rows[i] == rows[1..][i - 1];
      Lookup(rows[1..], key)
  }

  lemma {:induction false} LookupFirst<K, V>(rows: seq<(K, V)>, key: K, i: nat)
    requires i < |rows| && rows[i].0 == key
    requires forall j :: 0 <= j < i ==> rows[j].0 != key
    ensures Lookup(rows, key) == Some(rows[i].1)
  {
    if i > 0 {
      LookupFirst(rows[1..], key, i - 1);
    }
  }

  lemma LookupAfterSort<K(!new), V>(lt: (K, K) -> bool, rows: seq<(K, V)>, key: K)
    requires StrictOrder(lt)
    ensures Lookup(Sort(lt, rows), key) == Lookup(rows, key)
  {
    var idx := Order(lt, Keys(rows));
    var sorted := Sort(lt, rows);
    OrderIsStable(lt, Keys(rows));
    if Lookup(rows, key).Some? {
      var i := FirstIndex(rows, key);
      assert i in idx;
      var p :| 0 <= p < |idx| && idx[p] == i;
      forall q | 0 <= q < p ensures sorted[q].0 != key {
        assert Before(lt, Keys(rows), idx[q], idx[p]);
      }
      LookupFirst(sorted, key, p);
      LookupFirst(rows, key, i);
    }
  }

  lemma {:induction false} FirstIndex<K, V>(rows: seq<(K, V)>, key: K) returns (i: nat)
    requires Lookup(rows, key).Some?
    ensures i < |rows| && rows[i].0 == key && forall j :: 0 <= j < i ==> rows[j].0 != key
  {
    if rows[0].0 == key {
      i := 0;
    } else {
      var k := FirstIndex(rows[1..], key);
      i := k + 1;
      assert forall j :: 1 <= j < i ==> rows[j] == rows[1..][j - 1];
    }
  }
}
