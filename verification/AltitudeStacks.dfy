// Altitude stacks: a greedy cover of altitudes by windows of 9900 feet, in exact
// arithmetic on feet.
module AltitudeStacks {
  import Orders

  datatype Stack = Stack(altitude: real, count: nat)

  const SEPARATION := 9900.0

  // ---- normalisation ----

  function Abs(x: real): real {
    if x < 0.0 then -x else x
  }

  // math.Round, for what is not negative
  function Round(x: real): int {
    (x + 0.5).Floor
  }

  // NormalizeAltitude
  function Normalize(altitude: real): real {
    var a := Abs(altitude);
    var bucketWidth := if a < 1000.0 then 100 else 1000;
    (bucketWidth * Round(a / bucketWidth as real)) as real
  }

  lemma RoundWhole(n: nat)
    ensures Round(n as real) == n
  {
  }

  // A normalised altitude is a number of hundreds up to 1000 ft, of thousands
  // from there on.
  lemma NormalizeShape(altitude: real) returns (n: nat)
    ensures Normalize(altitude) == (1000 * n) as real || (n < 10 && Normalize(altitude) == (100 * n) as real)
  {
    var a := Abs(altitude);
    if a < 1000.0 {
      n := Round(a / 100.0);
      assert n <= 10;
      if n == 10 {
        n := 1;
      }
    } else {
      n := Round(a / 1000.0);
    }
  }

  // Below 1000 ft the nearest number of hundreds, from there on of thousands, halves
  // up; the sign does not matter.
  lemma NormalizeNearest(altitude: real) returns (n: nat)
    ensures Normalize(-altitude) == Normalize(altitude)
    ensures var a, width := Abs(altitude), if Abs(altitude) < 1000.0 then 100.0 else 1000.0;
      Normalize(altitude) == width * n as real && -width / 2.0 < Normalize(altitude) - a <= width / 2.0
  {
    var a := Abs(altitude);
    assert Abs(-altitude) == a;
    n := if a < 1000.0 then Round(a / 100.0) else Round(a / 1000.0);
  }

  lemma NormalizeTwice(altitude: real)
    ensures Normalize(altitude) >= 0.0 && Normalize(Normalize(altitude)) == Normalize(altitude)
  {
    var n := NormalizeShape(altitude);
    var x := Normalize(altitude);
    if x == (1000 * n) as real {
      if n == 0 {
        assert x / 100.0 == 0.0;
      } else {
        assert x / 1000.0 == n as real;
      }
    } else {
      assert x / 100.0 == n as real;
    }
    RoundWhole(n);
  }

  function Normalized(a: seq<real>): (b: seq<real>)
    ensures |b| == |a| && forall i :: 0 <= i < |a| ==> b[i] == Normalize(a[i])
  {
    seq(|a|, i requires 0 <= i < |a| => Normalize(a[i]))
  }

  // ---- sorting ----

  ghost predicate Ascending(a: seq<real>) {
    forall i, j :: 0 <= i < j < |a| ==> a[i] <= a[j]
  }

  predicate Lower(a: real, b: real) {
    a < b
  }

  function Sorted(a: seq<real>): seq<real> {
    Orders.Sort(a, Lower)
  }

  lemma SortedAscending(a: seq<real>)
    ensures Ascending(Sorted(a)) && multiset(Sorted(a)) == multiset(a) && |Sorted(a)| == |a|
  {
    var s := Sorted(a);
    assert Orders.TotalOrder(Lower);
    Orders.SortAscending(a, Lower);
    forall i, j | 0 <= i < j < |s| ensures s[i] <= s[j] {
      assert !Lower(s[j], s[i]);
    }
    assert |s| == |multiset(s)| == |multiset(a)|;
  }

  lemma AscendingUnique(a: seq<real>, b: seq<real>)
    requires Ascending(a) && Ascending(b) && multiset(a) == multiset(b)
    ensures a == b
  {
    assert Orders.TotalOrder(Lower);
    Orders.AscendingUnique(a, b, Lower);
  }

  // ---- the greedy cover ----

  // The stacks of the altitudes from i on, taken from the highest down.
  function StacksFrom(a: seq<real>, i: nat): seq<Stack>
    requires i <= |a|
    decreases |a| - i
  {
    if i == |a| then []
    else
      var stacks := StacksFrom(a, i + 1);
      if a[i] == 0.0 then stacks
      else if stacks == [] then [Stack(a[i], 1)]
      else
        var j := |stacks| - 1;
        if a[i] <= stacks[j].altitude - SEPARATION then stacks + [Stack(a[i], 1)]
        else stacks[j := Stack(stacks[j].altitude, stacks[j].count + 1)]
  }

  function StacksOf(a: seq<real>): seq<Stack> {
    StacksFrom(Sorted(Normalized(a)), 0)
  }

  // Stacks
  method Stacks(a: array<real>) returns (stacks: seq<Stack>)
    modifies a
    ensures a[..] == Sorted(Normalized(old(a[..])))
    ensures stacks == StacksOf(old(a[..]))
  {
    hide Normalize, Orders.Sort;
    for i := 0 to a.Length
      invariant forall k :: 0 <= k < i ==> a[k] == Normalize(old(a[k]))
      invariant forall k :: i <= k < a.Length ==> a[k] == old(a[k])
    {
      a[i] := Normalize(a[i]);
    }
    assert a[..] == Normalized(old(a[..]));
    Orders.SortInPlace(a, Lower);

    stacks := [];
    var i := a.Length - 1;
    while i >= 0
      invariant -1 <= i < a.Length
      invariant stacks == StacksFrom(a[..], i + 1)
    {
      if a[i] != 0.0 {
        if |stacks| == 0 {
          stacks := stacks + [Stack(a[i], 1)];
        } else {
          var j := |stacks| - 1;
          var highest := stacks[j].altitude;
          if a[i] <= highest - SEPARATION {
            stacks := stacks + [Stack(a[i], 1)];
          } else {
            stacks := stacks[j := Stack(stacks[j].altitude, stacks[j].count + 1)];
          }
        }
      }
      i := i - 1;
    }
  }

  // ---- what the stacks are ----

  // The altitudes from i on that are not zero and lie in the window below top.
  function CountIn(a: seq<real>, i: nat, top: real): nat
    requires i <= |a|
    decreases |a| - i
  {
    if i == |a| then 0
    else CountIn(a, i + 1, top) + (if a[i] != 0.0 && InWindow(a[i], top) then 1 else 0)
  }

  function CountNonZero(a: seq<real>, i: nat): nat
    requires i <= |a|
    decreases |a| - i
  {
    if i == |a| then 0 else CountNonZero(a, i + 1) + (if a[i] != 0.0 then 1 else 0)
  }

  predicate InWindow(x: real, top: real) {
    top - 9900.0 < x <= top
  }

  function TotalCount(stacks: seq<Stack>): nat {
    if stacks == [] then 0 else TotalCount(stacks[..|stacks| - 1]) + stacks[|stacks| - 1].count
  }

  predicate Spaced(stacks: seq<Stack>) {
    forall j, k :: 0 <= j < k < |stacks| ==> stacks[k].altitude <= stacks[j].altitude - 9900.0
  }

  ghost predicate InSome(stacks: seq<Stack>, x: real) {
    exists j :: 0 <= j < |stacks| && InWindow(x, stacks[j].altitude)
  }

  // Every altitude from i on is in the window of some stack.
  ghost predicate Covers(stacks: seq<Stack>, a: seq<real>, i: nat) {
    forall k :: i <= k < |a| && a[k] != 0.0 ==> InSome(stacks, a[k])
  }

  ghost predicate Occurs(a: seq<real>, i: nat, x: real) {
    exists k :: i <= k < |a| && a[k] == x
  }

  // Tops are altitudes, and counts those in the windows below them.
  ghost predicate Counted(stacks: seq<Stack>, a: seq<real>, i: nat)
    requires i <= |a|
  {
    forall j :: 0 <= j < |stacks| ==>
      && stacks[j].count == CountIn(a, i, stacks[j].altitude)
      && stacks[j].altitude != 0.0 && Occurs(a, i, stacks[j].altitude)
  }

  ghost predicate Partition(stacks: seq<Stack>, a: seq<real>, i: nat)
    requires i <= |a|
  {
    && Spaced(stacks) && Covers(stacks, a, i) && Counted(stacks, a, i)
    && TotalCount(stacks) == CountNonZero(a, i)
  }

  lemma InSomeMore(stacks: seq<Stack>, s: Stack, x: real)
    ensures InSome(stacks + [s], x) <==> InSome(stacks, x) || InWindow(x, s.altitude)
  {
    var more := stacks + [s];
    if InSome(stacks, x) {
      var j :| 0 <= j < |stacks| && InWindow(x, stacks[j].altitude);
      assert InWindow(x, more[j].altitude);
    }
    if InWindow(x, s.altitude) {
      assert InWindow(x, more[|stacks|].altitude);
    }
  }

  lemma OccursEarlier(a: seq<real>, i: nat, x: real)
    ensures Occurs(a, i + 1, x) ==> Occurs(a, i, x)
    ensures i < |a| ==> Occurs(a, i, a[i])
  {
  }

  lemma TotalCountMore(stacks: seq<Stack>, s: Stack)
    ensures TotalCount(stacks + [s]) == TotalCount(stacks) + s.count
  {
    assert (stacks + [s])[..|stacks|] == stacks;
  }

  lemma TotalCountUp(stacks: seq<Stack>, s: Stack)
    requires stacks != []
    ensures TotalCount(stacks[|stacks| - 1 := s]) == TotalCount(stacks) - stacks[|stacks| - 1].count + s.count
  {
    assert stacks[|stacks| - 1 := s][..|stacks| - 1] == stacks[..|stacks| - 1];
  }

  // Above a, below every window seen so far, a new top counts itself only.
  lemma {:induction false} CountNoneBelow(a: seq<real>, i: nat, top: real)
    requires i <= |a| && forall k :: i <= k < |a| && a[k] != 0.0 ==> a[k] > top
    ensures CountIn(a, i, top) == 0
    decreases |a| - i
  {
    if i < |a| {
      CountNoneBelow(a, i + 1, top);
    }
  }

  lemma NextZero(a: seq<real>, i: nat, stacks: seq<Stack>)
    requires i < |a| && a[i] == 0.0 && Partition(stacks, a, i + 1)
    ensures Partition(stacks, a, i)
  {
    forall x ensures Occurs(a, i + 1, x) ==> Occurs(a, i, x) {
      OccursEarlier(a, i, x);
    }
  }

  // All stacks are at least as far above x as the last one.
  lemma AllAbove(stacks: seq<Stack>, x: real)
    requires Spaced(stacks) && (stacks != [] ==> x <= stacks[|stacks| - 1].altitude - SEPARATION)
    ensures forall j :: 0 <= j < |stacks| ==> x <= stacks[j].altitude - SEPARATION
  {
    forall j | 0 <= j < |stacks| ensures x <= stacks[j].altitude - SEPARATION {
      assert j < |stacks| - 1 ==> stacks[|stacks| - 1].altitude <= stacks[j].altitude - SEPARATION;
    }
  }

  // What is in the window of a stack that far above x is above x.
  lemma CoveredAbove(a: seq<real>, i: nat, stacks: seq<Stack>, x: real)
    requires Covers(stacks, a, i) && forall j :: 0 <= j < |stacks| ==> x <= stacks[j].altitude - SEPARATION
    ensures forall k :: i <= k < |a| && a[k] != 0.0 ==> a[k] > x
  {
    forall k | i <= k < |a| && a[k] != 0.0 ensures a[k] > x {
      assert InSome(stacks, a[k]);
      var j :| 0 <= j < |stacks| && InWindow(a[k], stacks[j].altitude);
    }
  }

  // A new stack: everything above is in the windows of the stacks above it.
  lemma NextStack(a: seq<real>, i: nat, stacks: seq<Stack>)
    requires Ascending(a) && i < |a| && a[i] != 0.0 && Partition(stacks, a, i + 1)
    requires stacks != [] ==> a[i] <= stacks[|stacks| - 1].altitude - SEPARATION
    ensures Partition(stacks + [Stack(a[i], 1)], a, i)
  {
    hide Ascending, InSome, Occurs;
    var s := Stack(a[i], 1);
    var more := stacks + [s];
    TotalCountMore(stacks, s);
    AllAbove(stacks, a[i]);
    CoveredAbove(a, i + 1, stacks, a[i]);
    CountNoneBelow(a, i + 1, a[i]);
    forall k | i <= k < |a| && a[k] != 0.0 ensures InSome(more, a[k]) {
      InSomeMore(stacks, s, a[k]);
    }
    forall j | 0 <= j < |more|
      ensures more[j].count == CountIn(a, i, more[j].altitude) && more[j].altitude != 0.0 && Occurs(a, i, more[j].altitude)
    {
      OccursEarlier(a, i, more[j].altitude);
      if j < |stacks| {
        assert more[j] == stacks[j] && !InWindow(a[i], stacks[j].altitude);
      }
    }
  }

  // One more altitude in the window of the lowest stack, and of no other.
  lemma NextCount(a: seq<real>, i: nat, stacks: seq<Stack>)
    requires Ascending(a) && i < |a| && a[i] != 0.0 && Partition(stacks, a, i + 1)
    requires stacks != [] && a[i] > stacks[|stacks| - 1].altitude - SEPARATION
    ensures var last := |stacks| - 1;
            Partition(stacks[last := Stack(stacks[last].altitude, stacks[last].count + 1)], a, i)
  {
    hide Ascending, InSome, Occurs;
    var last := |stacks| - 1;
    var next := stacks[last := Stack(stacks[last].altitude, stacks[last].count + 1)];
    TotalCountUp(stacks, next[last]);
    LowestYet(a, i, stacks[last].altitude);
    assert InWindow(a[i], stacks[last].altitude);
    forall x: real ensures InSome(next, x) <==> InSome(stacks, x) {
      SameTops(stacks, next, x);
    }
    assert InSome(stacks, a[i]) by { InSomeAt(stacks, last, a[i]); }
    forall j | 0 <= j < |next|
      ensures next[j].count == CountIn(a, i, next[j].altitude) && next[j].altitude != 0.0 && Occurs(a, i, next[j].altitude)
    {
      assert next[j].altitude == stacks[j].altitude;
      OccursEarlier(a, i, stacks[j].altitude);
      if j < last {
        assert stacks[last].altitude <= stacks[j].altitude - SEPARATION;
        assert !InWindow(a[i], stacks[j].altitude);
      }
    }
  }

  lemma LowestYet(a: seq<real>, i: nat, x: real)
    requires Ascending(a) && i < |a| && Occurs(a, i + 1, x)
    ensures a[i] <= x
  {
  }

  lemma SameTops(stacks: seq<Stack>, next: seq<Stack>, x: real)
    requires |next| == |stacks| && forall j :: 0 <= j < |stacks| ==> next[j].altitude == stacks[j].altitude
    ensures InSome(next, x) <==> InSome(stacks, x)
  {
    if InSome(stacks, x) {
      var j :| 0 <= j < |stacks| && InWindow(x, stacks[j].altitude);
      assert InWindow(x, next[j].altitude);
    }
    if InSome(next, x) {
      var j :| 0 <= j < |next| && InWindow(x, next[j].altitude);
      assert InWindow(x, stacks[j].altitude);
    }
  }

  lemma InSomeAt(stacks: seq<Stack>, j: nat, x: real)
    requires j < |stacks| && InWindow(x, stacks[j].altitude)
    ensures InSome(stacks, x)
  {
  }

  lemma {:induction false} StacksFromPartition(a: seq<real>, i: nat)
    requires Ascending(a) && i <= |a|
    ensures Partition(StacksFrom(a, i), a, i)
    decreases |a| - i
  {
    hide Partition, Ascending;
    if i == |a| {
      EmptyPartition(a);
    } else {
      StacksFromPartition(a, i + 1);
      var stacks := StacksFrom(a, i + 1);
      if a[i] == 0.0 {
        NextZero(a, i, stacks);
      } else if stacks == [] || a[i] <= stacks[|stacks| - 1].altitude - SEPARATION {
        NextStack(a, i, stacks);
        assert stacks == [] ==> stacks + [Stack(a[i], 1)] == [Stack(a[i], 1)];
      } else {
        NextCount(a, i, stacks);
      }
    }
  }

  lemma EmptyPartition(a: seq<real>)
    ensures Partition([], a, |a|)
  {
  }

  // The stacks partition the altitudes that do not normalise to zero: each lies in
  // the window of a stack, windows do not overlap, and counts say how many there
  // are in each and in all.
  lemma StacksPartition(a: seq<real>)
    ensures Partition(StacksOf(a), Sorted(Normalized(a)), 0)
  {
    SortedAscending(Normalized(a));
    StacksFromPartition(Sorted(Normalized(a)), 0);
  }

  // ---- optimality ----

  lemma {:induction false} Pigeons(s: seq<nat>, m: nat)
    requires forall i :: 0 <= i < |s| ==> s[i] < m
    requires forall i, j :: 0 <= i < j < |s| ==> s[i] != s[j]
    ensures |s| <= m
    decreases m
  {
    assert s != [] ==> s[0] < m;
    if m > 0 {
      if i :| 0 <= i < |s| && s[i] == m - 1 {
        Pigeons(s[..i] + s[i + 1..], m - 1);
      } else {
        Pigeons(s, m - 1);
      }
    }
  }

  // The altitudes that do not normalise to zero are all in windows below the tops.
  ghost predicate CoveredBy(a: seq<real>, tops: seq<real>) {
    forall k :: 0 <= k < |a| && Normalize(a[k]) != 0.0 ==> exists t :: t in tops && InWindow(Normalize(a[k]), t)
  }

  // No cover of the altitudes by windows of this size uses fewer windows.
  lemma StacksOptimal(a: seq<real>, tops: seq<real>)
    requires CoveredBy(a, tops)
    ensures |StacksOf(a)| <= |tops|
  {
    hide CoveredBy, Sorted, Normalized, StacksOf, Covers;
    var s := Sorted(Normalized(a));
    var stacks := StacksOf(a);
    StacksPartition(a);
    var holes: seq<nat> := [];
    for j := 0 to |stacks|
      invariant |holes| == j && forall i :: 0 <= i < j ==> holes[i] < |tops| && InWindow(stacks[i].altitude, tops[holes[i]])
    {
      var h := HoleFor(a, tops, stacks[j].altitude);
      holes := holes + [h];
    }
    forall i, j | 0 <= i < j < |holes| ensures holes[i] != holes[j] {
      assert stacks[j].altitude <= stacks[i].altitude - SEPARATION;
    }
    Pigeons(holes, |tops|);
  }

  lemma HoleFor(a: seq<real>, tops: seq<real>, x: real) returns (h: nat)
    requires CoveredBy(a, tops) && x != 0.0 && Occurs(Sorted(Normalized(a)), 0, x)
    ensures h < |tops| && InWindow(x, tops[h])
  {
    SortedAscending(Normalized(a));
    assert x in multiset(Sorted(Normalized(a)));
    assert x in multiset(Normalized(a));
    var k :| 0 <= k < |a| && Normalized(a)[k] == x;
    var t :| t in tops && InWindow(Normalize(a[k]), t);
    h :| 0 <= h < |tops| && tops[h] == t;
  }

  // ---- stacking the tops again ----

  function Tops(stacks: seq<Stack>): (tops: seq<real>)
    ensures |tops| == |stacks| && forall j :: 0 <= j < |stacks| ==> tops[j] == stacks[j].altitude
  {
    seq(|stacks|, j requires 0 <= j < |stacks| => stacks[j].altitude)
  }

  function Reversed(a: seq<real>): (b: seq<real>)
    ensures |b| == |a| && forall i :: 0 <= i < |a| ==> b[i] == a[|a| - 1 - i]
  {
    seq(|a|, i requires 0 <= i < |a| => a[|a| - 1 - i])
  }

  lemma {:induction false} ReversedPermutes(a: seq<real>)
    ensures multiset(Reversed(a)) == multiset(a)
  {
    if a != [] {
      ReversedPermutes(a[1..]);
      assert Reversed(a) == Reversed(a[1..]) + [a[0]];
      assert a == [a[0]] + a[1..];
    }
  }

  // Altitudes a window apart make one stack each.
  lemma {:induction false} SpacedStacks(a: seq<real>, i: nat)
    requires i <= |a| && forall k :: 0 <= k < |a| ==> a[k] != 0.0
    requires forall j, k :: 0 <= j < k < |a| ==> a[j] <= a[k] - SEPARATION
    ensures |StacksFrom(a, i)| == |a| - i
    ensures forall j :: 0 <= j < |a| - i ==> StacksFrom(a, i)[j] == Stack(a[|a| - 1 - j], 1)
    decreases |a| - i
  {
    if i < |a| {
      SpacedStacks(a, i + 1);
    }
  }

  // Every altitude of a stack is already normalised.
  lemma TopsNormal(a: seq<real>, j: nat)
    requires j < |StacksOf(a)|
    ensures Normalize(StacksOf(a)[j].altitude) == StacksOf(a)[j].altitude
  {
    hide StacksOf, Sorted, Normalize;
    var s, x := Sorted(Normalized(a)), StacksOf(a)[j].altitude;
    StacksPartition(a);
    SortedAscending(Normalized(a));
    assert Occurs(s, 0, x);
    assert x in multiset(s);
    assert x in multiset(Normalized(a));
    var k :| 0 <= k < |a| && Normalized(a)[k] == x;
    NormalizeTwice(a[k]);
  }

  // The stacks of normalised altitudes a window apart, given from the highest down.
  lemma StacksOfSpaced(tops: seq<real>)
    requires forall j :: 0 <= j < |tops| ==> tops[j] != 0.0 && Normalize(tops[j]) == tops[j]
    requires forall j, k :: 0 <= j < k < |tops| ==> tops[k] <= tops[j] - SEPARATION
    ensures |StacksOf(tops)| == |tops|
    ensures forall j :: 0 <= j < |tops| ==> StacksOf(tops)[j] == Stack(tops[j], 1)
  {
    hide Sorted, Normalize;
    assert Normalized(tops) == tops;
    var up := Reversed(tops);
    forall j, k | 0 <= j < k < |up| ensures up[j] <= up[k] - SEPARATION {
      assert tops[|tops| - 1 - j] <= tops[|tops| - 1 - k] - SEPARATION;
    }
    ReversedPermutes(tops);
    SortedAscending(tops);
    AscendingUnique(Sorted(tops), up);
    SpacedStacks(up, 0);
    forall j | 0 <= j < |tops| ensures StacksOf(tops)[j] == Stack(tops[j], 1) {
      assert up[|up| - 1 - j] == tops[j];
    }
  }

  // Stacking the tops of the stacks gives the same tops, each counting one.
  lemma StacksAgain(a: seq<real>)
    ensures Tops(StacksOf(Tops(StacksOf(a)))) == Tops(StacksOf(a))
    ensures forall s :: s in StacksOf(Tops(StacksOf(a))) ==> s.count == 1
  {
    hide StacksOf, Sorted, Normalize, Covers;
    var stacks := StacksOf(a);
    var tops := Tops(stacks);
    StacksPartition(a);
    forall j | 0 <= j < |tops| ensures tops[j] != 0.0 && Normalize(tops[j]) == tops[j] {
      TopsNormal(a, j);
    }
    StacksOfSpaced(tops);
  }
}
