// What a collated call means to those who hear it, and that collating keeps it.
module CollationMeaning {
  import opened Wrappers
  import opened Bytes
  import opened Callsigns
  import opened Orders
  import opened OrderedMaps
  import opened Collation

  // ---- who is addressed ----

  // The codeword a bare flight and position belongs to: that of the last full
  // callsign.
  function ContextOf(calls: seq<Call>): Option<bytes> {
    if calls == [] then None
    else
      var last := calls[|calls| - 1];
      if last.Full? then Some(last.callsign.codeword) else ContextOf(calls[..|calls| - 1])
  }

  function Sense(c: Call, context: Option<bytes>, roster: set<Strict>): multiset<Strict> {
    match c
    case WholeFlight(codeword, flight) =>
      multiset(set s | s in roster && s.codeword == codeword && s.flight == flight)
    case Full(callsign) => multiset{callsign}
    case Bare(flight, position) =>
      if context.Some? then multiset{Strict(context.value, flight, position)} else multiset{}
    case Free(_) => multiset{}
  }

  // Everyone a list of calls addresses, as often as it does; a whole flight is
  // every member the roster has of it.
  function Heard(calls: seq<Call>, roster: set<Strict>): multiset<Strict> {
    if calls == [] then multiset{}
    else
      var init := calls[..|calls| - 1];
      Heard(init, roster) + Sense(calls[|calls| - 1], ContextOf(init), roster)
  }

  // No bare call comes before a full one.
  predicate Anchored(calls: seq<Call>) {
    calls == []
    || var init := calls[..|calls| - 1];
       Anchored(init) && (calls[|calls| - 1].Bare? ==> ContextOf(init).Some?)
  }

  lemma HeardNone(roster: set<Strict>)
    ensures Heard([], roster) == multiset{} && ContextOf([]) == None && Anchored([])
  {
  }

  lemma HeardSnoc(a: seq<Call>, c: Call, roster: set<Strict>)
    ensures Heard(a + [c], roster) == Heard(a, roster) + Sense(c, ContextOf(a), roster)
    ensures ContextOf(a + [c]) == if c.Full? then Some(c.callsign.codeword) else ContextOf(a)
    ensures Anchored(a + [c]) <==> Anchored(a) && (c.Bare? ==> ContextOf(a).Some?)
  {
    hide Sense;
    assert (a + [c])[..|a|] == a;
  }

  // Only a bare call depends on what came before it.
  lemma SenseAnchored(c: Call, own: Option<bytes>, before: Option<bytes>, roster: set<Strict>)
    requires c.Bare? ==> own.Some?
    ensures Sense(c, if own.Some? then own else before, roster) == Sense(c, own, roster)
  {
  }

  lemma {:induction false} HeardConcat(a: seq<Call>, b: seq<Call>, roster: set<Strict>)
    requires Anchored(a) && Anchored(b)
    ensures Anchored(a + b)
    ensures ContextOf(a + b) == if ContextOf(b).Some? then ContextOf(b) else ContextOf(a)
    ensures Heard(a + b, roster) == Heard(a, roster) + Heard(b, roster)
  {
    hide Sense, Heard, Anchored, ContextOf;
    if b == [] {
      assert a + b == a;
      HeardNone(roster);
    } else {
      var init, last := b[..|b| - 1], b[|b| - 1];
      assert a + b == (a + init) + [last] && b == init + [last];
      HeardSnoc(init, last, roster);
      HeardConcat(a, init, roster);
      HeardSnoc(a + init, last, roster);
      SenseAnchored(last, ContextOf(init), ContextOf(a), roster);
    }
  }

  // ---- what a trie holds ----

  ghost predicate OrderedFlights(f: Flights) {
    Ordered(f, IntLess) && forall e :: e in f ==> Ordered(e.value, IntLess)
  }

  ghost predicate OrderedTrie(t: Trie) {
    Ordered(t, TextLess) && forall e :: e in t ==> OrderedFlights(e.value)
  }

  function FlightsOf(t: Trie, codeword: bytes): Flights {
    OrEmpty(Get(t, codeword))
  }

  function PositionsOf(f: Flights, flight: int): Positions {
    OrEmpty(Get(f, flight))
  }

  function Lookup(t: Trie, s: Strict): Option<bool> {
    Get(PositionsOf(FlightsOf(t, s.codeword), s.flight), s.position)
  }

  lemma FlightsOrdered(t: Trie, codeword: bytes)
    requires OrderedTrie(t)
    ensures OrderedFlights(FlightsOf(t, codeword))
  {
    GetMember(t, codeword);
  }

  lemma PositionsOrdered(f: Flights, flight: int)
    requires OrderedFlights(f)
    ensures Ordered(PositionsOf(f, flight), IntLess)
  {
    GetMember(f, flight);
  }

  lemma AddStrictLookup(t: Trie, c: Strict, isReceiver: bool, s: Strict)
    requires OrderedTrie(t)
    ensures OrderedTrie(AddStrict(t, c, isReceiver))
    ensures Lookup(AddStrict(t, c, isReceiver), s) == if s == c then Some(isReceiver) else Lookup(t, s)
  {
    TextOrder();
    FlightsOrdered(t, c.codeword);
    var flights := FlightsOf(t, c.codeword);
    PositionsOrdered(flights, c.flight);
    var positions := PositionsOf(flights, c.flight);
    var newPositions := Put(positions, c.position, isReceiver, IntLess);
    var newFlights := Put(flights, c.flight, newPositions, IntLess);
    PutOrdered(positions, c.position, isReceiver, IntLess);
    PutOrdered(flights, c.flight, newPositions, IntLess);
    PutOrdered(t, c.codeword, newFlights, TextLess);
    GetPut(positions, c.position, isReceiver, IntLess, s.position);
    GetPut(flights, c.flight, newPositions, IntLess, s.flight);
    GetPut(t, c.codeword, newFlights, TextLess, s.codeword);
  }

  // The trie holds the callsigns it was built from, each with whether it receives.
  lemma {:induction false} TrieLookup(cs: seq<Strict>, receivers: seq<bytes>, s: Strict)
    ensures OrderedTrie(TrieOf(cs, receivers))
    ensures Lookup(TrieOf(cs, receivers), s) == if s in cs then Some(FormatStrict(s) in receivers) else None
  {
    if cs != [] {
      var init, c := cs[..|cs| - 1], cs[|cs| - 1];
      assert cs == init + [c];
      TrieLookup(init, receivers, s);
      AddStrictLookup(TrieOf(init, receivers), c, FormatStrict(c) in receivers, s);
    }
  }

  // ---- one flight ----

  function Once(b: bool): nat {
    if b then 1 else 0
  }

  lemma {:induction false} SinglesHeard(codeword: bytes, flight: int, positions: Positions, roster: set<Strict>, s: Strict)
    requires Ordered(positions, IntLess)
    ensures var calls := Singles(codeword, flight, positions);
      && Anchored(calls)
      && (calls != [] ==> ContextOf(calls) == Some(codeword))
      && Heard(calls, roster)[s]
         == Once(s.codeword == codeword && s.flight == flight && Get(positions, s.position) == Some(true))
  {
    if positions != [] {
      var init, p := positions[..|positions| - 1], positions[|positions| - 1];
      SinglesHeard(codeword, flight, init, roster, s);
      GetSnoc(positions, IntLess, s.position);
      var calls := Singles(codeword, flight, init);
      if p.value {
        var c := if calls == [] then Full(Strict(codeword, flight, p.key)) else Bare(flight, p.key);
        var all := calls + [c];
        assert all == Singles(codeword, flight, positions) && all[..|all| - 1] == calls;
      }
    }
  }

  // The roster's members of a flight are the keys of its positions.
  ghost predicate Enrolled(codeword: bytes, flight: int, positions: Positions, roster: set<Strict>) {
    forall p :: Strict(codeword, flight, p) in roster <==> Get(positions, p).Some?
  }

  lemma FlightHeard(codeword: bytes, flight: int, positions: Positions, roster: set<Strict>, s: Strict)
    requires Ordered(positions, IntLess) && Enrolled(codeword, flight, positions, roster)
    ensures var calls := FlightCalls(codeword, flight, positions);
      && Anchored(calls)
      && Heard(calls, roster)[s]
         == Once(s.codeword == codeword && s.flight == flight && Get(positions, s.position) == Some(true))
  {
    SinglesHeard(codeword, flight, positions, roster, s);
    GetMember(positions, s.position);
    if AllReceive(positions) && |positions| > 1 {
      var c := WholeFlight(codeword, flight);
      assert [c][..0] == [];
      assert Heard([c], roster) == Sense(c, None, roster);
      assert s == Strict(s.codeword, s.flight, s.position);
    }
  }

  // ---- the whole walk ----

  lemma {:induction false} CodewordHeard(codeword: bytes, flights: Flights, roster: set<Strict>, s: Strict)
    requires OrderedFlights(flights)
    requires forall e :: e in flights ==> Enrolled(codeword, e.key, e.value, roster)
    ensures var calls := CodewordCalls(codeword, flights);
      && Anchored(calls)
      && Heard(calls, roster)[s]
         == Once(s.codeword == codeword && Get(PositionsOf(flights, s.flight), s.position) == Some(true))
  {
    if flights != [] {
      var init, f := flights[..|flights| - 1], flights[|flights| - 1];
      assert flights == init + [f];
      CodewordHeard(codeword, init, roster, s);
      FlightHeard(codeword, f.key, f.value, roster, s);
      GetSnoc(flights, IntLess, s.flight);
      GetSnoc(flights, IntLess, f.key);
      HeardConcat(CodewordCalls(codeword, init), FlightCalls(codeword, f.key, f.value), roster);
    }
  }

  lemma {:induction false} TrieHeard(t: Trie, roster: set<Strict>, s: Strict)
    requires OrderedTrie(t)
    requires forall e, f :: e in t && f in e.value ==> Enrolled(e.key, f.key, f.value, roster)
    ensures var calls := TrieCalls(t);
      Anchored(calls) && Heard(calls, roster)[s] == Once(Lookup(t, s) == Some(true))
  {
    if t != [] {
      var init, c := t[..|t| - 1], t[|t| - 1];
      assert t == init + [c];
      TextOrder();
      TrieHeard(init, roster, s);
      CodewordHeard(c.key, c.value, roster, s);
      GetSnoc(t, TextLess, s.codeword);
      HeardConcat(TrieCalls(init), CodewordCalls(c.key, c.value), roster);
    }
  }

  lemma TrieEnrolls(t: Trie, roster: set<Strict>)
    requires OrderedTrie(t)
    requires forall s :: s in roster <==> Lookup(t, s).Some?
    ensures forall e, f :: e in t && f in e.value ==> Enrolled(e.key, f.key, f.value, roster)
  {
    TextOrder();
    forall e, f | e in t && f in e.value ensures Enrolled(e.key, f.key, f.value, roster) {
      GetOfMember(t, TextLess, e);
      GetOfMember(e.value, IntLess, f);
      forall p ensures Strict(e.key, f.key, p) in roster <==> Get(f.value, p).Some? {
        assert Lookup(t, Strict(e.key, f.key, p)) == Get(f.value, p);
      }
    }
  }

  // ---- names that are not strict ----

  lemma {:induction false} FreeHeard(names: seq<bytes>, roster: set<Strict>)
    ensures Anchored(FreeOf(names)) && Heard(FreeOf(names), roster) == multiset{}
    ensures forall c :: c in FreeOf(names) ==> c.Free? && ParseStrict(c.name).None?
  {
    if names != [] {
      var init, last := names[..|names| - 1], names[|names| - 1];
      FreeHeard(init, roster);
      if ParseStrict(last).None? {
        var calls := FreeOf(init) + [Free(last)];
        assert calls[..|calls| - 1] == FreeOf(init);
      }
    }
  }

  lemma {:induction false} FreeCount(names: seq<bytes>, name: bytes)
    ensures multiset(FreeOf(names))[Free(name)] == if ParseStrict(name).None? then multiset(names)[name] else 0
  {
    if names != [] {
      var init, last := names[..|names| - 1], names[|names| - 1];
      assert names == init + [last];
      FreeCount(init, name);
    }
  }

  // ---- the meaning of a collated call ----

  lemma {:induction false} StrictOfMembers(names: seq<bytes>, s: Strict)
    ensures s in StrictOf(names) <==> exists n :: n in names && ParseStrict(n) == Some(s)
  {
    if names != [] {
      var init, last := names[..|names| - 1], names[|names| - 1];
      assert names == init + [last];
      StrictOfMembers(init, s);
      assert last in names;
      if n :| n in names && ParseStrict(n) == Some(s) {
        assert n in init || n == last;
      }
    }
  }

  // The strict callsigns the names stand for.
  ghost function Members(names: seq<bytes>): (r: set<Strict>)
    ensures forall s :: s in r <==> exists n :: n in names && ParseStrict(n) == Some(s)
  {
    forall s ensures s in StrictOf(names) <==> exists n :: n in names && ParseStrict(n) == Some(s) {
      StrictOfMembers(names, s);
    }
    set s | s in StrictOf(names)
  }

  lemma RosterMembers(everyone: seq<bytes>, s: Strict)
    ensures s in Roster(everyone) <==> s in Members(everyone)
  {
    hide Sort, StrictOf, ParseStrict;
    var sorted := Sort(everyone, TextLess);
    SameMembers(Roster(everyone), StrictOf(sorted), s);
    StrictOfMembers(sorted, s);
    forall n ensures n in sorted <==> n in everyone {
      SameMembers(sorted, everyone, n);
    }
  }

  lemma CollatedLookup(receivers: seq<bytes>, everyone: seq<bytes>, s: Strict)
    ensures var t := TrieOf(Roster(everyone), Sort(receivers, TextLess));
      OrderedTrie(t)
      && Lookup(t, s) == if s in Members(everyone) then Some(FormatStrict(s) in receivers) else None
  {
    hide Sort, Roster, Members, TrieOf, Lookup, OrderedTrie, FormatStrict;
    var sorted := Sort(receivers, TextLess);
    TrieLookup(Roster(everyone), sorted, s);
    RosterMembers(everyone, s);
    SameMembers(sorted, receivers, FormatStrict(s));
  }

  // In the calls made for two or more receivers, every strict callsign of everyone's
  // that receives is addressed exactly once, and no other callsign is.
  lemma CallsHeard(receivers: seq<bytes>, everyone: seq<bytes>, s: Strict)
    ensures Heard(CollatedCalls(receivers, everyone), Members(everyone))[s]
         == Once(s in Members(everyone) && FormatStrict(s) in receivers)
  {
    hide Sort, Roster, Members, TrieOf, Lookup, OrderedTrie, FormatStrict, Heard, Anchored, TrieCalls, FreeOf, ContextOf;
    var sorted, roster := Sort(receivers, TextLess), Members(everyone);
    var t := TrieOf(Roster(everyone), sorted);
    forall q ensures OrderedTrie(t) && (q in roster <==> Lookup(t, q).Some?) {
      CollatedLookup(receivers, everyone, q);
    }
    CollatedLookup(receivers, everyone, s);
    TrieEnrolls(t, roster);
    TrieHeard(t, roster, s);
    FreeHeard(sorted, roster);
    HeardConcat(TrieCalls(t), FreeOf(sorted), roster);
  }

  // ---- whole flights ----

  predicate Collapses(positions: Positions) {
    AllReceive(positions) && |positions| > 1
  }

  lemma {:induction false} SinglesKinds(codeword: bytes, flight: int, positions: Positions)
    ensures forall c :: c in Singles(codeword, flight, positions) ==> c.Full? || c.Bare?
  {
    if positions != [] {
      SinglesKinds(codeword, flight, positions[..|positions| - 1]);
    }
  }

  lemma {:induction false} CodewordKinds(codeword: bytes, flights: Flights, flight: int)
    requires Ordered(flights, IntLess)
    ensures forall c :: c in CodewordCalls(codeword, flights) ==> !c.Free? && (c.WholeFlight? ==> c.codeword == codeword)
    ensures WholeFlight(codeword, flight) in CodewordCalls(codeword, flights)
       <==> Collapses(PositionsOf(flights, flight))
  {
    if flights != [] {
      var init, f := flights[..|flights| - 1], flights[|flights| - 1];
      CodewordKinds(codeword, init, flight);
      SinglesKinds(codeword, f.key, f.value);
      GetSnoc(flights, IntLess, flight);
    }
  }

  lemma {:induction false} TrieKinds(t: Trie, codeword: bytes, flight: int)
    requires OrderedTrie(t)
    ensures forall c :: c in TrieCalls(t) ==> !c.Free?
    ensures WholeFlight(codeword, flight) in TrieCalls(t)
       <==> Collapses(PositionsOf(FlightsOf(t, codeword), flight))
  {
    if t != [] {
      var init, e := t[..|t| - 1], t[|t| - 1];
      assert t == init + [e];
      TextOrder();
      TrieKinds(init, codeword, flight);
      CodewordKinds(e.key, e.value, flight);
      GetSnoc(t, TextLess, codeword);
    }
  }

  lemma TwoKeys(positions: Positions, p: int, q: int)
    requires Ordered(positions, IntLess) && p != q && Get(positions, p).Some? && Get(positions, q).Some?
    ensures |positions| > 1
  {
    GetMember(positions, p);
    GetMember(positions, q);
  }

  lemma AllReceiveIff(positions: Positions)
    requires Ordered(positions, IntLess)
    ensures AllReceive(positions) <==> forall p :: Get(positions, p) != Some(false)
  {
    if i :| 0 <= i < |positions| && !positions[i].value {
      GetOfMember(positions, IntLess, positions[i]);
      assert Get(positions, positions[i].key) == Some(false);
    }
    forall p | AllReceive(positions) ensures Get(positions, p) != Some(false) {
      GetMember(positions, p);
    }
  }

  // What the trie of a collation says of one flight.
  lemma CollatedPositions(receivers: seq<bytes>, everyone: seq<bytes>, codeword: bytes, flight: int)
    ensures var positions := PositionsOf(FlightsOf(TrieOf(Roster(everyone), Sort(receivers, TextLess)), codeword), flight);
      && Ordered(positions, IntLess)
      && (forall p :: Get(positions, p) == var s := Strict(codeword, flight, p);
            if s in Members(everyone) then Some(FormatStrict(s) in receivers) else None)
  {
    hide Sort, Roster, Members, TrieOf, FormatStrict;
    var t := TrieOf(Roster(everyone), Sort(receivers, TextLess));
    CollatedLookup(receivers, everyone, Strict(codeword, flight, 0));
    FlightsOrdered(t, codeword);
    PositionsOrdered(FlightsOf(t, codeword), flight);
    forall p ensures Get(PositionsOf(FlightsOf(t, codeword), flight), p) == Lookup(t, Strict(codeword, flight, p)) {
    }
    forall p ensures Lookup(t, Strict(codeword, flight, p)) == var s := Strict(codeword, flight, p);
      if s in Members(everyone) then Some(FormatStrict(s) in receivers) else None {
      CollatedLookup(receivers, everyone, Strict(codeword, flight, p));
    }
  }

  lemma WalkCollapses(receivers: seq<bytes>, everyone: seq<bytes>, codeword: bytes, flight: int)
    ensures var positions := PositionsOf(FlightsOf(TrieOf(Roster(everyone), Sort(receivers, TextLess)), codeword), flight);
      WholeFlight(codeword, flight) in CollatedCalls(receivers, everyone) <==> Collapses(positions)
  {
    hide Sort, Roster, Members, TrieOf, FormatStrict, TrieCalls, FreeOf, Collapses, Lookup, OrderedTrie, PositionsOf, FlightsOf;
    var sorted := Sort(receivers, TextLess);
    CollatedLookup(receivers, everyone, Strict(codeword, flight, 0));
    TrieKinds(TrieOf(Roster(everyone), sorted), codeword, flight);
    FreeHeard(sorted, {});
  }

  ghost predicate HasTwo(codeword: bytes, flight: int, members: set<Strict>) {
    exists p, q :: p != q && Strict(codeword, flight, p) in members && Strict(codeword, flight, q) in members
  }

  ghost predicate AllAmong(codeword: bytes, flight: int, members: set<Strict>, receivers: seq<bytes>) {
    forall p :: Strict(codeword, flight, p) in members ==> FormatStrict(Strict(codeword, flight, p)) in receivers
  }

  ghost predicate Mirrors(positions: Positions, codeword: bytes, flight: int, members: set<Strict>, receivers: seq<bytes>) {
    forall p :: Get(positions, p) == var s := Strict(codeword, flight, p);
      if s in members then Some(FormatStrict(s) in receivers) else None
  }

  lemma MirroredTwo(positions: Positions, codeword: bytes, flight: int, members: set<Strict>, receivers: seq<bytes>)
    requires Ordered(positions, IntLess) && Mirrors(positions, codeword, flight, members, receivers)
    ensures HasTwo(codeword, flight, members) <==> |positions| > 1
  {
    if |positions| > 1 {
      var p, q := positions[0].key, positions[1].key;
      GetOfMember(positions, IntLess, positions[0]);
      GetOfMember(positions, IntLess, positions[1]);
      assert p < q && Strict(codeword, flight, p) in members && Strict(codeword, flight, q) in members;
    }
    if p, q :| p != q && Strict(codeword, flight, p) in members && Strict(codeword, flight, q) in members {
      TwoKeys(positions, p, q);
    }
  }

  lemma MirroredAll(positions: Positions, codeword: bytes, flight: int, members: set<Strict>, receivers: seq<bytes>)
    requires Ordered(positions, IntLess) && Mirrors(positions, codeword, flight, members, receivers)
    ensures AllAmong(codeword, flight, members, receivers) <==> AllReceive(positions)
  {
    hide Get, FormatStrict, AllReceive;
    AllReceiveIff(positions);
    if p :| Strict(codeword, flight, p) in members && FormatStrict(Strict(codeword, flight, p)) !in receivers {
      assert Get(positions, p) == Some(false);
    }
    if p :| Get(positions, p) == Some(false) {
      assert Strict(codeword, flight, p) in members;
    }
  }

  lemma CallsWholeFlight(receivers: seq<bytes>, everyone: seq<bytes>, codeword: bytes, flight: int)
    ensures WholeFlight(codeword, flight) in CollatedCalls(receivers, everyone)
       <==> HasTwo(codeword, flight, Members(everyone)) && AllAmong(codeword, flight, Members(everyone), receivers)
  {
    hide HasTwo, AllAmong, CollatedCalls, Members, PositionsOf, FlightsOf, TrieOf, Sort, Roster, AllReceive, FormatStrict, Get, Ordered;
    var positions := PositionsOf(FlightsOf(TrieOf(Roster(everyone), Sort(receivers, TextLess)), codeword), flight);
    CollatedPositions(receivers, everyone, codeword, flight);
    assert Mirrors(positions, codeword, flight, Members(everyone), receivers);
    WalkCollapses(receivers, everyone, codeword, flight);
    MirroredTwo(positions, codeword, flight, Members(everyone), receivers);
    MirroredAll(positions, codeword, flight, Members(everyone), receivers);
  }

  lemma CallsFree(receivers: seq<bytes>, everyone: seq<bytes>, name: bytes)
    ensures multiset(CollatedCalls(receivers, everyone))[Free(name)]
         == if ParseStrict(name).None? then multiset(receivers)[name] else 0
  {
    hide Sort, Roster, TrieOf, ParseStrict, TrieCalls, FreeOf;
    var sorted := Sort(receivers, TextLess);
    var t := TrieOf(Roster(everyone), sorted);
    CollatedLookup(receivers, everyone, Strict([], 0, 0));
    TrieKinds(t, [], 0);
    FreeCount(sorted, name);
    assert Free(name) !in TrieCalls(t);
  }

  // ---- what is returned ----

  function NameCall(name: bytes): Call {
    if ParseStrict(name).Some? then Full(ParseStrict(name).value) else Free(name)
  }

  // What the returned list is meant to say: a single receiver, or none, is returned
  // as it is; otherwise the list is made of calls.
  function Meant(receivers: seq<bytes>, everyone: seq<bytes>): seq<Call> {
    if receivers == [] then []
    else if |receivers| == 1 then [NameCall(receivers[0])]
    else CollatedCalls(receivers, everyone)
  }

  // The callsigns the returned list is meant for: that of a single receiver;
  // otherwise those of everyone's whose print is a receiver.
  ghost predicate Receives(receivers: seq<bytes>, everyone: seq<bytes>, s: Strict) {
    if |receivers| <= 1 then exists r :: r in receivers && ParseStrict(r) == Some(s)
    else s in Members(everyone) && FormatStrict(s) in receivers
  }

  lemma SingleHeard(c: Call, roster: set<Strict>)
    ensures Heard([c], roster) == Sense(c, None, roster) && [c][..0] == []
  {
    assert [c][..0] == [];
  }

  // The returned list addresses every callsign that it is meant for exactly once,
  // and no other.
  lemma CollatedHeard(receivers: seq<bytes>, everyone: seq<bytes>, s: Strict)
    ensures Heard(Meant(receivers, everyone), Members(everyone))[s] == Once(Receives(receivers, everyone, s))
  {
    hide Members, ParseStrict, FormatStrict, CollatedCalls;
    if |receivers| > 1 {
      CallsHeard(receivers, everyone, s);
    } else if |receivers| == 1 {
      SingleHeard(NameCall(receivers[0]), Members(everyone));
      assert receivers[0] in receivers;
    }
  }

  // A flight is called as one exactly when everyone has two or more of it and
  // all of them receive.
  lemma WholeFlightIff(receivers: seq<bytes>, everyone: seq<bytes>, codeword: bytes, flight: int)
    ensures WholeFlight(codeword, flight) in Meant(receivers, everyone)
       <==> HasTwo(codeword, flight, Members(everyone)) && AllAmong(codeword, flight, Members(everyone), receivers)
  {
    hide ParseStrict, CollatedCalls, FormatStrict;
    if |receivers| > 1 {
      CallsWholeFlight(receivers, everyone, codeword, flight);
    } else if HasTwo(codeword, flight, Members(everyone)) && AllAmong(codeword, flight, Members(everyone), receivers) {
      var p, q :| p != q && Strict(codeword, flight, p) in Members(everyone) && Strict(codeword, flight, q) in Members(everyone);
      MemberPrint(everyone, Strict(codeword, flight, p));
      MemberPrint(everyone, Strict(codeword, flight, q));
      assert false;
    }
  }

  // Members are told apart by their prints.
  lemma MemberPrint(everyone: seq<bytes>, s: Strict)
    requires s in Members(everyone)
    ensures ParseStrict(FormatStrict(s)) == Some(s)
  {
    var n :| n in everyone && ParseStrict(n) == Some(s);
    ParseNormal(n);
    ParseFormat(s);
  }

  // A receiver that is not strict is called as often as it was given.
  lemma FreeKept(receivers: seq<bytes>, everyone: seq<bytes>, name: bytes)
    ensures multiset(Meant(receivers, everyone))[Free(name)]
         == if ParseStrict(name).None? then multiset(receivers)[name] else 0
  {
    hide ParseStrict, CollatedCalls;
    if |receivers| > 1 {
      CallsFree(receivers, everyone, name);
    } else if |receivers| == 1 {
      assert receivers == [receivers[0]];
    }
  }

  // ---- who is heard at which call ----

  // What one call of a list says is heard.
  lemma {:induction false} HeardAt(calls: seq<Call>, roster: set<Strict>, i: nat)
    requires i < |calls|
    ensures Sense(calls[i], ContextOf(calls[..i]), roster) <= Heard(calls, roster)
  {
    hide Sense;
    var init := calls[..|calls| - 1];
    if i < |init| {
      assert init[..i] == calls[..i];
      HeardAt(init, roster, i);
    } else {
      assert calls[..i] == init;
    }
  }

  // Whoever is heard is heard at some call.
  lemma {:induction false} HeardFrom(calls: seq<Call>, roster: set<Strict>, s: Strict) returns (i: nat)
    requires s in Heard(calls, roster)
    ensures i < |calls| && s in Sense(calls[i], ContextOf(calls[..i]), roster)
  {
    hide Sense;
    var init := calls[..|calls| - 1];
    if s in Heard(init, roster) {
      i := HeardFrom(init, roster, s);
      assert init[..i] == calls[..i];
    } else {
      i := |init|;
      assert calls[..i] == init;
    }
  }

  lemma {:induction false} HeardTwice(calls: seq<Call>, roster: set<Strict>, i: nat, j: nat, s: Strict)
    requires i < j < |calls|
    requires s in Sense(calls[i], ContextOf(calls[..i]), roster) && s in Sense(calls[j], ContextOf(calls[..j]), roster)
    ensures Heard(calls, roster)[s] >= 2
    decreases |calls|
  {
    hide Sense;
    var init := calls[..|calls| - 1];
    assert init[..i] == calls[..i];
    if j < |init| {
      assert init[..j] == calls[..j];
      HeardTwice(init, roster, i, j, s);
    } else {
      assert calls[..j] == init;
      HeardAt(init, roster, i);
    }
  }

  // ---- the receivers as names ----

  // An entry of the returned list names a callsign by a full callsign or a free
  // name, or by the numbers or the flight of someone of that print.
  ghost predicate NamesAs(text: bytes, c: Call, context: Option<bytes>, roster: set<Strict>, name: bytes) {
    if c.Full? || c.Free? then text == name
    else exists s :: s in Sense(c, context, roster) && FormatStrict(s) == name
  }

  ghost predicate Addressed(receivers: seq<bytes>, everyone: seq<bytes>, name: bytes) {
    var texts, calls := Collated(receivers, everyone), Meant(receivers, everyone);
    && |texts| == |calls|
    && exists i :: 0 <= i < |calls| && NamesAs(texts[i], calls[i], ContextOf(calls[..i]), Members(everyone), name)
  }

  // What one of several receivers must be for the collated call to reach it.
  ghost predicate Reachable(name: bytes, everyone: seq<bytes>) {
    ParseStrict(name).None?
    || (Canonical(name) && exists n :: n in everyone && ParseStrict(n) == ParseStrict(name))
  }

  lemma NamedReceives(receivers: seq<bytes>, everyone: seq<bytes>, name: bytes, i: nat)
    requires |receivers| > 1 && i < |CollatedCalls(receivers, everyone)|
    requires var calls := CollatedCalls(receivers, everyone);
      NamesAs(Render(calls[i]), calls[i], ContextOf(calls[..i]), Members(everyone), name)
    ensures name in receivers && Reachable(name, everyone)
  {
    hide FormatStrict, ParseStrict, CollatedCalls, Heard, ContextOf, Members;
    var calls, members := CollatedCalls(receivers, everyone), Members(everyone);
    var c, context := calls[i], ContextOf(calls[..i]);
    if c.Free? {
      CallsFree(receivers, everyone, name);
      assert calls[i] in multiset(calls);
    } else {
      var s: Strict;
      if c.Full? {
        s := c.callsign;
      } else {
        s :| s in Sense(c, context, members) && FormatStrict(s) == name;
      }
      HeardAt(calls, members, i);
      assert s in Heard(calls, members);
      CallsHeard(receivers, everyone, s);
      var n :| n in everyone && ParseStrict(n) == Some(s);
      ParseNormal(n);
      ParseFormat(s);
    }
  }

  lemma ReceiverNamed(receivers: seq<bytes>, everyone: seq<bytes>, name: bytes) returns (i: nat)
    requires |receivers| > 1 && name in receivers && Reachable(name, everyone)
    ensures var calls := CollatedCalls(receivers, everyone);
      i < |calls| && NamesAs(Render(calls[i]), calls[i], ContextOf(calls[..i]), Members(everyone), name)
  {
    hide FormatStrict, ParseStrict, CollatedCalls, Heard, ContextOf, Members;
    var calls, members := CollatedCalls(receivers, everyone), Members(everyone);
    if ParseStrict(name).None? {
      CallsFree(receivers, everyone, name);
      assert name in multiset(receivers);
      assert Free(name) in multiset(calls);
      i :| 0 <= i < |calls| && calls[i] == Free(name);
    } else {
      var s := ParseStrict(name).value;
      CallsHeard(receivers, everyone, s);
      assert s in Heard(calls, members);
      i := HeardFrom(calls, members, s);
    }
  }

  // A name is addressed exactly when it is the only receiver, or one of several that
  // is not strict or is in its own print and has a callsign someone has.
  lemma AddressedIff(receivers: seq<bytes>, everyone: seq<bytes>, name: bytes)
    ensures Addressed(receivers, everyone, name)
       <==> name in receivers && (|receivers| == 1 || Reachable(name, everyone))
  {
    hide CollatedCalls, Reachable, ContextOf, Members, ParseStrict, NamesAs, RenderAll, Render;
    var texts, calls := Collated(receivers, everyone), Meant(receivers, everyone);
    if |receivers| > 1 {
      forall i | 0 <= i < |calls| ensures texts[i] == Render(calls[i]) {
        RenderAt(calls, i);
      }
      if i :| 0 <= i < |calls| && NamesAs(texts[i], calls[i], ContextOf(calls[..i]), Members(everyone), name) {
        NamedReceives(receivers, everyone, name, i);
      }
      if name in receivers && Reachable(name, everyone) {
        var i := ReceiverNamed(receivers, everyone, name);
        assert NamesAs(texts[i], calls[i], ContextOf(calls[..i]), Members(everyone), name);
      }
    } else if |receivers| == 1 {
      SingleNamed(receivers[0], Members(everyone), name);
      assert calls[0] == NameCall(receivers[0]) && calls[..0] == [];
    }
  }

  lemma SingleNamed(r: bytes, roster: set<Strict>, name: bytes)
    ensures NamesAs(r, NameCall(r), ContextOf([]), roster, name) <==> r == name
  {
  }

  // With every receiver among everyone, the names addressed are the receivers just
  // when there is at most one or every strict one is in its own print.
  lemma AddressesReceivers(receivers: seq<bytes>, everyone: seq<bytes>)
    requires forall r :: r in receivers ==> r in everyone
    ensures (forall n :: Addressed(receivers, everyone, n) <==> n in receivers)
       <==> |receivers| <= 1 || (forall r :: r in receivers ==> ParseStrict(r).None? || Canonical(r))
  {
    hide Addressed, Canonical, ParseStrict;
    forall n ensures Addressed(receivers, everyone, n)
                <==> n in receivers && (|receivers| == 1 || ParseStrict(n).None? || Canonical(n)) {
      AddressedIff(receivers, everyone, n);
    }
  }
}
