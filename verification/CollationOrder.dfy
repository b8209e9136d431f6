// The order of a collated call: it does not depend on the order of what it was
// made from, and follows codewords, flights and positions.
module CollationOrder {
  import opened Bytes
  import opened Callsigns
  import opened Orders
  import opened OrderedMaps
  import opened Collation
  import opened CollationMeaning

  lemma SameSort(s: seq<bytes>, t: seq<bytes>)
    requires multiset(s) == multiset(t)
    ensures Sort(s, TextLess) == Sort(t, TextLess)
  {
    TextOrder();
    SortAscending(s, TextLess);
    SortAscending(t, TextLess);
    AscendingUnique(Sort(s, TextLess), Sort(t, TextLess), TextLess);
  }

  // The same receivers among the same callsigns, in any order, give the same list.
  lemma CollatedOrderless(receivers: seq<bytes>, everyone: seq<bytes>, receivers': seq<bytes>, everyone': seq<bytes>)
    requires multiset(receivers) == multiset(receivers') && multiset(everyone) == multiset(everyone')
    ensures Collated(receivers, everyone) == Collated(receivers', everyone')
  {
    hide Sort, TrieOf, TrieCalls, FreeOf, RenderAll, StrictOf;
    assert |receivers| == |multiset(receivers)| == |multiset(receivers')| == |receivers'|;
    SameSort(receivers, receivers');
    SameSort(everyone, everyone');
    if |receivers| == 1 {
      assert receivers[0] in multiset(receivers');
    }
  }

  // ---- order ----

  predicate IsHead(c: Call) {
    c.Full? || c.WholeFlight?
  }

  // The codeword and flight that a full or whole-flight call is about.
  function Head(c: Call): Strict
    requires IsHead(c)
  {
    if c.Full? then c.callsign.(position := 0) else Strict(c.codeword, c.flight, 0)
  }

  // A bare call goes on with the flight of the call before it, at a higher position.
  predicate Continues(before: Call, c: Call) {
    c.Bare?
    && match before
       case Full(s) => s.flight == c.flight && s.position < c.position
       case Bare(flight, position) => flight == c.flight && position < c.position
       case _ => false
  }

  // Flights come one after the other, by codeword and number, each with its
  // positions ascending.
  predicate InOrder(calls: seq<Call>) {
    && (forall i, j :: 0 <= i < j < |calls| && IsHead(calls[i]) && IsHead(calls[j]) ==>
          StrictLess(Head(calls[i]), Head(calls[j])))
    && (forall i :: 0 <= i < |calls| && calls[i].Bare? ==> i > 0 && Continues(calls[i - 1], calls[i]))
  }

  // The heads of a come before those of b.
  predicate HeadsBefore(a: seq<Call>, b: seq<Call>) {
    forall c, d :: c in a && d in b && IsHead(c) && IsHead(d) ==> StrictLess(Head(c), Head(d))
  }

  lemma InOrderConcat(a: seq<Call>, b: seq<Call>)
    requires InOrder(a) && InOrder(b) && HeadsBefore(a, b)
    ensures InOrder(a + b)
  {
    hide StrictLess, Continues;
    var calls := a + b;
    forall i, j | 0 <= i < j < |calls| && IsHead(calls[i]) && IsHead(calls[j])
      ensures StrictLess(Head(calls[i]), Head(calls[j]))
    {
      assert i < |a| <= j ==> calls[i] in a && calls[j] in b;
    }
  }

  // Everything is about the one flight.
  predicate AllOf(calls: seq<Call>, codeword: bytes, flight: int) {
    forall c :: c in calls && IsHead(c) ==> Head(c) == Strict(codeword, flight, 0)
  }

  // The calls of one flight up to a position: about it alone, the last one of a
  // lower position than the bound.
  predicate OfFlight(calls: seq<Call>, codeword: bytes, flight: int, bound: int) {
    && InOrder(calls) && AllOf(calls, codeword, flight)
    && (calls != [] ==>
          match calls[|calls| - 1]
          case Full(s) => s.flight == flight && s.position < bound
          case Bare(f, p) => f == flight && p < bound
          case _ => false)
  }

  lemma OfFlightMore(calls: seq<Call>, codeword: bytes, flight: int, position: int)
    requires OfFlight(calls, codeword, flight, position)
    ensures var c := if calls == [] then Full(Strict(codeword, flight, position)) else Bare(flight, position);
      OfFlight(calls + [c], codeword, flight, position + 1)
  {
    hide StrictLess;
  }

  lemma {:induction false} SinglesInOrder(codeword: bytes, flight: int, positions: Positions, bound: int)
    requires Ordered(positions, IntLess) && forall e :: e in positions ==> e.key < bound
    ensures OfFlight(Singles(codeword, flight, positions), codeword, flight, bound)
  {
    hide InOrder, AllOf;
    if positions == [] {
      NoneInOrder();
    } else {
      var init, p := positions[..|positions| - 1], positions[|positions| - 1];
      assert positions == init + [p];
      forall e | e in init ensures e.key < p.key {
        var i :| 0 <= i < |init| && init[i] == e;
        assert positions[i] == e;
      }
      assert p in positions;
      SinglesInOrder(codeword, flight, init, p.key);
      var calls := Singles(codeword, flight, init);
      OfFlightMore(calls, codeword, flight, p.key);
      assert calls == [] ==> calls + [Full(Strict(codeword, flight, p.key))] == [Full(Strict(codeword, flight, p.key))];
    }
  }

  lemma FlightInOrder(codeword: bytes, flight: int, positions: Positions)
    requires Ordered(positions, IntLess)
    ensures var calls := FlightCalls(codeword, flight, positions); InOrder(calls) && AllOf(calls, codeword, flight)
  {
    if positions != [] {
      var last := positions[|positions| - 1].key;
      forall e | e in positions ensures e.key < last + 1 {
        var i :| 0 <= i < |positions| && positions[i] == e;
      }
      SinglesInOrder(codeword, flight, positions, last + 1);
    }
  }

  lemma {:induction false} CodewordInOrder(codeword: bytes, flights: Flights)
    requires OrderedFlights(flights)
    ensures var calls := CodewordCalls(codeword, flights);
      && InOrder(calls)
      && forall c :: c in calls && IsHead(c) ==>
           Head(c).codeword == codeword && exists e :: e in flights && e.key == Head(c).flight
  {
    hide InOrder, FlightCalls;
    if flights == [] {
      NoneInOrder();
    } else {
      var init, f := flights[..|flights| - 1], flights[|flights| - 1];
      assert flights == init + [f];
      CodewordInOrder(codeword, init);
      FlightInOrder(codeword, f.key, f.value);
      var a, b := CodewordCalls(codeword, init), FlightCalls(codeword, f.key, f.value);
      forall c | c in a && IsHead(c) ensures Head(c).flight < f.key && exists e :: e in flights && e.key == Head(c).flight {
        var e :| e in init && e.key == Head(c).flight;
        assert e in flights;
      }
      assert f in flights;
      InOrderConcat(a, b);
    }
  }

  lemma NoneInOrder()
    ensures InOrder([]) && forall codeword, flight :: AllOf([], codeword, flight)
  {
  }

  lemma {:induction false} TrieInOrder(t: Trie)
    requires OrderedTrie(t)
    ensures InOrder(TrieCalls(t))
    ensures forall c :: c in TrieCalls(t) && IsHead(c) ==> exists e :: e in t && e.key == Head(c).codeword
  {
    hide InOrder, CodewordCalls, TextLess;
    if t == [] {
      NoneInOrder();
    } else {
      var init, e := t[..|t| - 1], t[|t| - 1];
      assert t == init + [e];
      TrieInOrder(init);
      CodewordInOrder(e.key, e.value);
      TextOrder();
      forall c | c in TrieCalls(init) && IsHead(c)
        ensures TextLess(Head(c).codeword, e.key) && exists d :: d in t && d.key == Head(c).codeword
      {
        var d :| d in init && d.key == Head(c).codeword;
        assert d in t;
      }
      assert e in t;
      InOrderConcat(TrieCalls(init), CodewordCalls(e.key, e.value));
    }
  }

  lemma {:induction false} FreeAscending(names: seq<bytes>)
    requires Ascending(names, TextLess)
    ensures forall c :: c in FreeOf(names) ==> c.Free? && c.name in names
    ensures forall i, j :: 0 <= i < j < |FreeOf(names)| ==> !TextLess(FreeOf(names)[j].name, FreeOf(names)[i].name)
  {
    hide TextLess, ParseStrict;
    if names != [] {
      var init, last := names[..|names| - 1], names[|names| - 1];
      assert names == init + [last];
      FreeAscending(init);
      forall i | 0 <= i < |FreeOf(init)| ensures !TextLess(last, FreeOf(init)[i].name) {
        assert FreeOf(init)[i] in FreeOf(init);
        var j :| 0 <= j < |init| && init[j] == FreeOf(init)[i].name;
        assert !TextLess(names[|init|], names[j]);
      }
    }
  }

  // First the flights in order, then the other names in order.
  lemma CollatedInOrder(receivers: seq<bytes>, everyone: seq<bytes>) returns (walked: seq<Call>, free: seq<Call>)
    ensures Meant(receivers, everyone) == walked + free
    ensures InOrder(walked) && forall c :: c in walked ==> !c.Free?
    ensures forall c :: c in free ==> c.Free?
    ensures forall i, j :: 0 <= i < j < |free| ==> !TextLess(free[j].name, free[i].name)
  {
    hide Sort, TrieOf, TrieCalls, InOrder, FreeOf, TextLess, Roster, Members, ParseStrict;
    NoneInOrder();
    if |receivers| > 1 {
      var sorted := Sort(receivers, TextLess);
      var t := TrieOf(Roster(everyone), sorted);
      walked, free := TrieCalls(t), FreeOf(sorted);
      CollatedLookup(receivers, everyone, Strict([], 0, 0));
      TrieInOrder(t);
      TrieKinds(t, [], 0);
      FreeHeard(sorted, {});
      TextOrder();
      SortAscending(receivers, TextLess);
      FreeAscending(sorted);
    } else {
      var meant := Meant(receivers, everyone);
      walked, free := meant, [];
      if meant != [] {
        OneInOrder(meant[0]);
        if meant[0].Free? {
          walked, free := [], meant;
        }
      }
    }
  }

  lemma OneInOrder(c: Call)
    ensures IsHead(c) ==> InOrder([c])
  {
  }
}
