// Total orders and sorting: what slices.Sort and slices.SortFunc give.
module Orders {
  import opened Bytes

  // ---- orders ----

  ghost predicate TotalOrder<K(!new)>(less: (K, K) -> bool) {
    && (forall a, b :: less(a, b) ==> !less(b, a))
    && (forall a, b :: less(a, b) || less(b, a) || a == b)
    && (forall a, b, c :: less(a, b) && less(b, c) ==> less(a, c))
  }

  predicate IntLess(a: int, b: int) {
    a < b
  }

  // Go's order on strings: by bytes, a proper prefix first.
  predicate TextLess(a: bytes, b: bytes) {
    b != [] && (a == [] || a[0] < b[0] || (a[0] == b[0] && TextLess(a[1..], b[1..])))
  }

  lemma {:induction false} TextLessAsymmetric(a: bytes, b: bytes)
    requires TextLess(a, b)
    ensures !TextLess(b, a)
  {
    if a != [] && a[0] == b[0] {
      TextLessAsymmetric(a[1..], b[1..]);
    }
  }

  lemma {:induction false} TextLessTotal(a: bytes, b: bytes)
    ensures TextLess(a, b) || TextLess(b, a) || a == b
  {
    if a != [] && b != [] && a[0] == b[0] {
      TextLessTotal(a[1..], b[1..]);
      assert a == [a[0]] + a[1..] && b == [b[0]] + b[1..];
    }
  }

  lemma {:induction false} TextLessTransitive(a: bytes, b: bytes, c: bytes)
    requires TextLess(a, b) && TextLess(b, c)
    ensures TextLess(a, c)
  {
    if a != [] && a[0] == b[0] && b[0] == c[0] {
      TextLessTransitive(a[1..], b[1..], c[1..]);
    }
  }

  lemma TextOrder()
    ensures TotalOrder(TextLess)
  {
    forall a: bytes, b: bytes | TextLess(a, b) ensures !TextLess(b, a) {
      TextLessAsymmetric(a, b);
    }
    forall a: bytes, b: bytes ensures TextLess(a, b) || TextLess(b, a) || a == b {
      TextLessTotal(a, b);
    }
    forall a: bytes, b: bytes, c: bytes | TextLess(a, b) && TextLess(b, c) ensures TextLess(a, c) {
      TextLessTransitive(a, b, c);
    }
  }

  // The first byte in which the two differ is lower, or the first is the beginning of
  // the second.
  lemma {:induction false} TextLessIff(a: bytes, b: bytes)
    ensures TextLess(a, b) <==>
      exists n: nat :: n <= |a| && n < |b| && a[..n] == b[..n] && (n == |a| || a[n] < b[n])
  {
    if a != [] && b != [] && a[0] == b[0] {
      TextLessIff(a[1..], b[1..]);
      if n: nat :| n <= |a[1..]| && n < |b[1..]| && a[1..][..n] == b[1..][..n] && (n == |a[1..]| || a[1..][n] < b[1..][n]) {
        assert a[..n + 1] == [a[0]] + a[1..][..n] && b[..n + 1] == [b[0]] + b[1..][..n];
        assert n + 1 <= |a| && n + 1 < |b| && a[..n + 1] == b[..n + 1] && (n + 1 == |a| || a[n + 1] < b[n + 1]);
      }
      if n: nat :| n <= |a| && n < |b| && a[..n] == b[..n] && (n == |a| || a[n] < b[n]) {
        assert n > 0;
        assert a[1..][..n - 1] == a[..n][1..] && b[1..][..n - 1] == b[..n][1..];
        assert n - 1 == |a[1..]| || a[1..][n - 1] < b[1..][n - 1];
      }
    } else if TextLess(a, b) {
      assert a[..0] == b[..0];
    }
  }

  // ---- sorting ----

  predicate Ascending<K>(s: seq<K>, less: (K, K) -> bool) {
    forall i, j :: 0 <= i < j < |s| ==> !less(s[j], s[i])
  }

  function Insert<K>(x: K, s: seq<K>, less: (K, K) -> bool): (r: seq<K>)
    ensures multiset(r) == multiset(s) + multiset{x}
  {
    if s == [] || !less(s[0], x) then [x] + s
    else
      assert s == [s[0]] + s[1..];
      [s[0]] + Insert(x, s[1..], less)
  }

  function Sort<K>(s: seq<K>, less: (K, K) -> bool): (r: seq<K>)
    ensures multiset(r) == multiset(s)
  {
    if s == [] then []
    else
      assert s == [s[0]] + s[1..];
      Insert(s[0], Sort(s[1..], less), less)
  }

  lemma SameMembers<K>(s: seq<K>, t: seq<K>, x: K)
    requires multiset(s) == multiset(t)
    ensures x in s <==> x in t
  {
    assert x in s <==> x in multiset(s);
    assert x in t <==> x in multiset(t);
  }

  lemma {:induction false} InsertAscending<K(!new)>(x: K, s: seq<K>, less: (K, K) -> bool)
    requires TotalOrder(less) && Ascending(s, less)
    ensures Ascending(Insert(x, s, less), less)
  {
    if s == [] || !less(s[0], x) {
      forall i | 0 <= i < |s| ensures !less(s[i], x) {
        assert i > 0 ==> !less(s[i], s[0]);
      }
    } else {
      var tail := Insert(x, s[1..], less);
      InsertAscending(x, s[1..], less);
      forall i | 0 <= i < |tail| ensures !less(tail[i], s[0]) {
        assert tail[i] in multiset(tail);
        assert tail[i] == x || tail[i] in s[1..];
      }
    }
  }

  // The sorted list is ascending, with the same members; there is one such list.
  lemma {:induction false} SortAscending<K(!new)>(s: seq<K>, less: (K, K) -> bool)
    requires TotalOrder(less)
    ensures Ascending(Sort(s, less), less)
  {
    if s != [] {
      SortAscending(s[1..], less);
      InsertAscending(s[0], Sort(s[1..], less), less);
    }
  }

  lemma {:induction false} AscendingUnique<K(!new)>(s: seq<K>, t: seq<K>, less: (K, K) -> bool)
    requires TotalOrder(less) && Ascending(s, less) && Ascending(t, less)
    requires multiset(s) == multiset(t)
    ensures s == t
  {
    assert |s| == |multiset(s)| == |multiset(t)| == |t|;
    if s != [] {
      SameMembers(s, t, s[0]);
      SameMembers(s, t, t[0]);
      assert s[0] == t[0];
      assert s == [s[0]] + s[1..] && t == [t[0]] + t[1..];
      assert multiset(s[1..]) == multiset(s) - multiset{s[0]};
      assert multiset(t[1..]) == multiset(t) - multiset{t[0]};
      AscendingUnique(s[1..], t[1..], less);
    }
  }

  lemma SortAgain<K(!new)>(s: seq<K>, less: (K, K) -> bool)
    requires TotalOrder(less)
    ensures Sort(Sort(s, less), less) == Sort(s, less)
  {
    SortAscending(s, less);
    SortAscending(Sort(s, less), less);
    AscendingUnique(Sort(Sort(s, less), less), Sort(s, less), less);
  }

  // slices.Sort and slices.SortFunc
  method SortInPlace<K>(a: array<K>, less: (K, K) -> bool)
    modifies a
    ensures a[..] == Sort(old(a[..]), less)
  {
    var sorted := Sort(a[..], less);
    assert |sorted| == |multiset(sorted)| == |multiset(a[..])| == a.Length;
    for i := 0 to a.Length
      invariant forall k :: 0 <= k < i ==> a[k] == sorted[k]
    {
      a[i] := sorted[i];
    }
  }
}
