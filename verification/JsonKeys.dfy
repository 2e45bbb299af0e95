/**
  Object keys: the (length, bytes) order of `object_key_comparator`, the sort `install_object`
  applies, and the lower-bound search of `find_object_key`.
*/
module JsonKeys {
  import opened Bytes
  import opened JsonGrammar

  /** `memcmp(a, b, n) < 0` for two keys of one length. */
  predicate BytesLess(a: seq<Byte>, b: seq<Byte>)
    requires |a| == |b|
  {
    a != [] && (a[0] < b[0] || (a[0] == b[0] && BytesLess(a[1..], b[1..])))
  }

  predicate KeyLess(a: seq<Byte>, b: seq<Byte>) {
    |a| < |b| || (|a| == |b| && BytesLess(a, b))
  }

  lemma {:induction false} BytesTotal(a: seq<Byte>, b: seq<Byte>)
    requires |a| == |b|
    ensures !(BytesLess(a, b) && BytesLess(b, a))
    ensures BytesLess(a, b) || BytesLess(b, a) || a == b
  {
    if a == [] {
    } else {
      BytesTotal(a[1..], b[1..]);
      assert a == [a[0]] + a[1..] && b == [b[0]] + b[1..];
    }
  }

  lemma {:induction false} BytesTransitive(a: seq<Byte>, b: seq<Byte>, c: seq<Byte>)
    requires |a| == |b| == |c| && BytesLess(a, b) && BytesLess(b, c)
    ensures BytesLess(a, c)
  {
    if a[0] == b[0] == c[0] {
      BytesTransitive(a[1..], b[1..], c[1..]);
    }
  }

  /** The comparator is a strict total order on keys, so equal keys are the only incomparable ones. */
  lemma KeyOrder(a: seq<Byte>, b: seq<Byte>, c: seq<Byte>)
    ensures !KeyLess(a, a)
    ensures !KeyLess(a, b) && !KeyLess(b, a) <==> a == b
    ensures KeyLess(a, b) && KeyLess(b, c) ==> KeyLess(a, c)
  {
    BytesTotal(a, a);
    if |a| == |b| {
      BytesTotal(a, b);
      if |b| == |c| && BytesLess(a, b) && BytesLess(b, c) {
        BytesTransitive(a, b, c);
      }
    }
  }

  /** Shorter keys come first, and of two of one length the one that is less at the first place they differ. */
  lemma {:induction false} KeyLessMeans(a: seq<Byte>, b: seq<Byte>, k: nat)
    ensures |a| < |b| ==> KeyLess(a, b)
    ensures |a| == |b| && k < |a| && a[..k] == b[..k] && a[k] < b[k] ==> KeyLess(a, b)
    decreases k
  {
    if |a| == |b| && 0 < k < |a| && a[..k] == b[..k] {
      assert a[..k][0] == b[..k][0] && a[1..][..k - 1] == a[..k][1..] && b[1..][..k - 1] == b[..k][1..];
      KeyLessMeans(a[1..], b[1..], k - 1);
    }
  }

  /** `order` lists each index below `n` once. */
  ghost predicate Permutes(order: seq<nat>, n: nat) {
    && |order| == n
    && (forall i :: 0 <= i < n ==> order[i] < n)
    && (forall i, j :: 0 <= i < j < n ==> order[i] != order[j])
    && (forall i :: 0 <= i < n ==> i in order)
  }

  /** The keys, taken in this order, never go down. */
  ghost predicate SortedBy(keys: seq<seq<Byte>>, order: seq<nat>) {
    && (forall i :: 0 <= i < |order| ==> order[i] < |keys|)
    && forall i, j :: 0 <= i < j < |order| ==> !KeyLess(keys[order[j]], keys[order[i]])
  }

  /** Where key `m` goes in a sorted order: after every key that is not above it. */
  method InsertionPoint(keys: seq<seq<Byte>>, order: seq<nat>, m: nat) returns (k: nat)
    requires SortedBy(keys, order) && m < |keys|
    ensures k <= |order|
    ensures forall i :: 0 <= i < k ==> !KeyLess(keys[m], keys[order[i]])
    ensures forall i :: k <= i < |order| ==> KeyLess(keys[m], keys[order[i]])
  {
    k := |order|;
    while k > 0 && KeyLess(keys[m], keys[order[k - 1]])
      invariant 0 <= k <= |order|
      invariant forall i :: k <= i < |order| ==> KeyLess(keys[m], keys[order[i]])
    {
      k := k - 1;
    }
    forall i | 0 <= i < k ensures !KeyLess(keys[m], keys[order[i]]) {
      if i < k - 1 {
        NotBelow(keys[m], keys[order[k - 1]], keys[order[i]]);
      }
    }
  }

  lemma NotBelow(a: seq<Byte>, b: seq<Byte>, c: seq<Byte>)
    requires !KeyLess(a, b) && !KeyLess(b, c)
    ensures !KeyLess(a, c)
  {
    KeyOrder(a, b, c);
    KeyOrder(b, a, c);
    KeyOrder(a, c, b);
    KeyOrder(c, b, a);
    KeyOrder(b, c, a);
  }

  /** `std::sort` over the records of an object, as the order it leaves them in. */
  method SortKeys(keys: seq<seq<Byte>>) returns (order: seq<nat>)
    ensures Permutes(order, |keys|) && SortedBy(keys, order)
  {
    order := [];
    for m := 0 to |keys|
      invariant Permutes(order, m) && SortedBy(keys, order)
    {
      var k := InsertionPoint(keys, order, m);
      ghost var was := order;
      order := order[..k] + [m] + order[k..];
      assert order[k] == m;
      forall i | 0 <= i < m ensures i in order {
        assert i in was[..k] + was[k..] by { assert was == was[..k] + was[k..]; }
      }
      forall i, j | 0 <= i < j < |order| ensures !KeyLess(keys[order[j]], keys[order[i]]) {
        if i == k {
          KeyOrder(keys[order[j]], keys[m], keys[m]);
          KeyOrder(keys[m], keys[order[j]], keys[m]);
        }
      }
    }
  }

  /** `std::lower_bound`: the first key that is not below the query. */
  method LowerBound(keys: seq<seq<Byte>>, query: seq<Byte>) returns (k: nat)
    requires forall i, j :: 0 <= i < j < |keys| ==> !KeyLess(keys[j], keys[i])
    ensures k <= |keys|
    ensures forall i :: 0 <= i < k ==> KeyLess(keys[i], query)
    ensures forall i :: k <= i < |keys| ==> !KeyLess(keys[i], query)
  {
    k := 0;
    var count: nat := |keys|;
    while count > 0
      invariant k + count <= |keys|
      invariant forall i :: 0 <= i < k ==> KeyLess(keys[i], query)
      invariant forall i :: k + count <= i < |keys| ==> !KeyLess(keys[i], query)
    {
      var step := count / 2;
      var mid := k + step;
      if KeyLess(keys[mid], query) {
        forall i | 0 <= i <= mid ensures KeyLess(keys[i], query) {
          if k <= i < mid && !KeyLess(keys[i], query) {
            NotBelow(keys[mid], keys[i], query);
          }
        }
        k := mid + 1;
        count := count - step - 1;
      } else {
        forall i | mid <= i < |keys| ensures !KeyLess(keys[i], query) {
          if mid < i {
            NotBelow(keys[i], keys[mid], query);
          }
        }
        count := step;
      }
    }
  }

  /** `find_object_key` on sorted keys: the first index with that key, the length when there is none. */
  method FindKey(keys: seq<seq<Byte>>, query: seq<Byte>) returns (k: nat)
    requires forall i, j :: 0 <= i < j < |keys| ==> !KeyLess(keys[j], keys[i])
    ensures k <= |keys|
    ensures k < |keys| ==> keys[k] == query
    ensures forall i :: 0 <= i < k ==> keys[i] != query
  {
    k := LowerBound(keys, query);
    KeyOrder(query, query, query);
    if k < |keys| && keys[k] != query {
      forall i | 0 <= i < |keys| ensures keys[i] != query {
        if k < i && keys[i] == query {
          KeyOrder(keys[k], query, query);
        }
      }
      k := |keys|;
    }
  }
}
