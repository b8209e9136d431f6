// Ordered maps as lists of entries: what the callsign collation takes from the
// omap package.
module OrderedMaps {
  import opened Wrappers
  import opened Orders

  // ---- ordered maps ----

  datatype Entry<K, V> = Entry(key: K, value: V)

  // An ordered map, as the entries its iteration visits.
  ghost predicate Ordered<K, V>(m: seq<Entry<K, V>>, less: (K, K) -> bool) {
    forall i, j :: 0 <= i < j < |m| ==> less(m[i].key, m[j].key)
  }

  function Get<K(==), V>(m: seq<Entry<K, V>>, k: K): Option<V> {
    if m == [] then None
    else if m[0].key == k then Some(m[0].value)
    else Get(m[1..], k)
  }

  function Put<K(==), V>(m: seq<Entry<K, V>>, k: K, v: V, less: (K, K) -> bool): (r: seq<Entry<K, V>>)
    ensures forall e :: e in r ==> e in m || e == Entry(k, v)
  {
    if m == [] || less(k, m[0].key) then [Entry(k, v)] + m
    else if m[0].key == k then [Entry(k, v)] + m[1..]
    else [m[0]] + Put(m[1..], k, v, less)
  }

  lemma {:induction false} GetMember<K, V>(m: seq<Entry<K, V>>, k: K)
    ensures Get(m, k).Some? ==> Entry(k, Get(m, k).value) in m
    ensures Get(m, k).None? ==> forall e :: e in m ==> e.key != k
  {
    if m != [] {
      GetMember(m[1..], k);
      assert m == [m[0]] + m[1..];
      assert m[0].key == k ==> m[0] == Entry(k, m[0].value);
    }
  }

  lemma {:induction false} PutOrdered<K(!new), V>(m: seq<Entry<K, V>>, k: K, v: V, less: (K, K) -> bool)
    requires TotalOrder(less) && Ordered(m, less)
    ensures Ordered(Put(m, k, v, less), less)
  {
    if m == [] || less(k, m[0].key) {
      forall i | 0 <= i < |m| ensures less(k, m[i].key) {
        assert i > 0 ==> less(m[0].key, m[i].key);
      }
    } else if m[0].key != k {
      var tail := Put(m[1..], k, v, less);
      PutOrdered(m[1..], k, v, less);
      forall i | 0 <= i < |tail| ensures less(m[0].key, tail[i].key) {
        assert tail[i] in tail;
        assert tail[i] in m[1..] || tail[i] == Entry(k, v);
      }
    }
  }

  // Putting changes the one key and no other.
  lemma {:induction false} GetPut<K(!new), V>(m: seq<Entry<K, V>>, k: K, v: V, less: (K, K) -> bool, q: K)
    requires TotalOrder(less) && Ordered(m, less)
    ensures Get(Put(m, k, v, less), q) == if q == k then Some(v) else Get(m, q)
  {
    if m == [] || less(k, m[0].key) {
      assert ([Entry(k, v)] + m)[1..] == m;
    } else if m[0].key == k {
      assert ([Entry(k, v)] + m[1..])[1..] == m[1..];
    } else {
      GetPut(m[1..], k, v, less, q);
      var tail := Put(m[1..], k, v, less);
      assert ([m[0]] + tail)[1..] == tail;
    }
  }

  // No key occurs behind the first entry again.
  lemma HeadKeyOnce<K(!new), V>(m: seq<Entry<K, V>>, less: (K, K) -> bool)
    requires TotalOrder(less) && Ordered(m, less) && m != []
    ensures Ordered(m[1..], less) && Get(m[1..], m[0].key) == None
  {
    var k := m[0].key;
    GetMember(m[1..], k);
  }

  // What the last entry adds, and what a member is found as.
  lemma {:induction false} GetSnoc<K(!new), V>(m: seq<Entry<K, V>>, less: (K, K) -> bool, k: K)
    requires TotalOrder(less) && Ordered(m, less) && m != []
    ensures var last := m[|m| - 1];
      Get(m, k) == (if last.key == k then Some(last.value) else Get(m[..|m| - 1], k))
    ensures Get(m[..|m| - 1], m[|m| - 1].key) == None
  {
    var last, init := m[|m| - 1], m[..|m| - 1];
    if |m| > 1 {
      GetSnoc(m[1..], less, k);
      assert m[1..][..|m| - 2] == init[1..];
      assert less(m[0].key, last.key);
    }
  }

  lemma {:induction false} GetOfMember<K(!new), V>(m: seq<Entry<K, V>>, less: (K, K) -> bool, e: Entry<K, V>)
    requires TotalOrder(less) && Ordered(m, less) && e in m
    ensures Get(m, e.key) == Some(e.value)
  {
    if m[0] != e {
      assert m == [m[0]] + m[1..];
      HeadKeyOnce(m, less);
      GetOfMember(m[1..], less, e);
    }
  }
}
