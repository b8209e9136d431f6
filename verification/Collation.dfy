// Collation of the callsigns a broadcast addresses: whole flights are named
// once, the other members of a flight after the first by their numbers only.
module Collation {
  import opened Wrappers
  import opened Bytes
  import opened LuaText
  import opened Callsigns
  import opened Orders
  import opened OrderedMaps

  // flight, for the word
  const FLIGHT_WORD: bytes := [0x66, 0x6C, 0x69, 0x67, 0x68, 0x74]

  type Positions = seq<Entry<int, bool>>
  type Flights = seq<Entry<int, Positions>>
  type Trie = seq<Entry<bytes, Flights>>

  // What one entry of the collated list says.
  datatype Call =
    | WholeFlight(codeword: bytes, flight: int)
    | Full(callsign: Strict)
    | Bare(flight: int, position: int)
    | Free(name: bytes)

  function Render(c: Call): bytes {
    match c
    case WholeFlight(codeword, flight) => codeword + [SPACE] + IntText(flight) + [SPACE] + FLIGHT_WORD
    case Full(callsign) => FormatStrict(callsign)
    case Bare(flight, position) => IntText(flight) + [SPACE] + IntText(position)
    case Free(name) => name
  }

  function RenderAll(calls: seq<Call>): (r: seq<bytes>)
    ensures |r| == |calls|
  {
    if calls == [] then [] else RenderAll(calls[..|calls| - 1]) + [Render(calls[|calls| - 1])]
  }

  lemma {:induction false} RenderAt(calls: seq<Call>, i: nat)
    requires i < |calls|
    ensures RenderAll(calls)[i] == Render(calls[i])
  {
    hide Render;
    if i < |calls| - 1 {
      RenderAt(calls[..|calls| - 1], i);
    }
  }

  lemma {:induction false} RenderAllConcat(a: seq<Call>, b: seq<Call>)
    ensures RenderAll(a + b) == RenderAll(a) + RenderAll(b)
  {
    hide Render;
    if b == [] {
      assert a + b == a;
    } else {
      assert (a + b)[..|a + b| - 1] == a + b[..|b| - 1];
      RenderAllConcat(a, b[..|b| - 1]);
    }
  }

  lemma RenderNone()
    ensures RenderAll([]) == []
  {
  }

  lemma RenderSnoc(a: seq<Call>, c: Call)
    ensures RenderAll(a + [c]) == RenderAll(a) + [Render(c)]
  {
    assert (a + [c])[..|a|] == a;
  }

  // ---- the strict callsigns of a list of names ----

  predicate StrictLess(a: Strict, b: Strict) {
    if a.codeword != b.codeword then TextLess(a.codeword, b.codeword)
    else if a.flight != b.flight then a.flight < b.flight
    else a.position < b.position
  }

  function StrictOf(names: seq<bytes>): seq<Strict> {
    if names == [] then []
    else
      var init := StrictOf(names[..|names| - 1]);
      var c := ParseStrict(names[|names| - 1]);
      if c.Some? then init + [c.value] else init
  }

  function FreeOf(names: seq<bytes>): seq<Call> {
    if names == [] then []
    else
      var init, last := FreeOf(names[..|names| - 1]), names[|names| - 1];
      if ParseStrict(last).Some? then init else init + [Free(last)]
  }

  // ---- the trie ----

  function OrEmpty<T>(o: Option<seq<T>>): seq<T> {
    if o.Some? then o.value else []
  }

  function AddStrict(t: Trie, c: Strict, isReceiver: bool): Trie {
    var flights := OrEmpty(Get(t, c.codeword));
    var positions := OrEmpty(Get(flights, c.flight));
    Put(t, c.codeword, Put(flights, c.flight, Put(positions, c.position, isReceiver, IntLess), IntLess), TextLess)
  }

  function TrieOf(cs: seq<Strict>, receivers: seq<bytes>): Trie {
    if cs == [] then []
    else
      var c := cs[|cs| - 1];
      AddStrict(TrieOf(cs[..|cs| - 1], receivers), c, FormatStrict(c) in receivers)
  }

  // ---- the walk ----

  function AllReceive(positions: Positions): bool {
    forall i :: 0 <= i < |positions| ==> positions[i].value
  }

  // The receivers of a flight, the first by its full callsign.
  function Singles(codeword: bytes, flight: int, positions: Positions): (r: seq<Call>)
    ensures r != [] ==> r[0].Full?
  {
    if positions == [] then []
    else
      var init, p := Singles(codeword, flight, positions[..|positions| - 1]), positions[|positions| - 1];
      if !p.value then init
      else if init == [] then [Full(Strict(codeword, flight, p.key))]
      else init + [Bare(flight, p.key)]
  }

  function FlightCalls(codeword: bytes, flight: int, positions: Positions): seq<Call> {
    if AllReceive(positions) && |positions| > 1 then [WholeFlight(codeword, flight)]
    else Singles(codeword, flight, positions)
  }

  function CodewordCalls(codeword: bytes, flights: Flights): seq<Call> {
    if flights == [] then []
    else
      var f := flights[|flights| - 1];
      CodewordCalls(codeword, flights[..|flights| - 1]) + FlightCalls(codeword, f.key, f.value)
  }

  function TrieCalls(t: Trie): seq<Call> {
    if t == [] then []
    else
      var c := t[|t| - 1];
      TrieCalls(t[..|t| - 1]) + CodewordCalls(c.key, c.value)
  }

  // ---- collation ----

  function Roster(everyone: seq<bytes>): seq<Strict> {
    Sort(StrictOf(Sort(everyone, TextLess)), StrictLess)
  }

  function CollatedCalls(receivers: seq<bytes>, everyone: seq<bytes>): seq<Call> {
    var sorted := Sort(receivers, TextLess);
    TrieCalls(TrieOf(Roster(everyone), sorted)) + FreeOf(sorted)
  }

  function Collated(receivers: seq<bytes>, everyone: seq<bytes>): seq<bytes> {
    if |receivers| <= 1 then receivers
    else RenderAll(CollatedCalls(receivers, everyone))
  }

  // ---- the loops ----

  method ParseAll(names: seq<bytes>) returns (cs: seq<Strict>)
    ensures cs == StrictOf(names)
  {
    cs := [];
    for i := 0 to |names|
      invariant cs == StrictOf(names[..i])
    {
      assert names[..i + 1][..i] == names[..i];
      var c := ParseStrict(names[i]);
      if c.Some? {
        cs := cs + [c.value];
      }
    }
    assert names[..|names|] == names;
  }

  method BuildTrie(cs: seq<Strict>, receivers: seq<bytes>) returns (members: Trie)
    ensures members == TrieOf(cs, receivers)
  {
    members := [];
    for i := 0 to |cs|
      invariant members == TrieOf(cs[..i], receivers)
    {
      assert cs[..i + 1][..i] == cs[..i];
      var c := cs[i];
      var flights := Get(members, c.codeword);
      if flights.None? {
        flights := Some([]);
      }
      var positions := Get(flights.value, c.flight);
      if positions.None? {
        positions := Some([]);
      }
      var isReceiver := FormatStrict(c) in receivers;
      var newPositions := Put(positions.value, c.position, isReceiver, IntLess);
      members := Put(members, c.codeword, Put(flights.value, c.flight, newPositions, IntLess), TextLess);
    }
    assert cs[..|cs|] == cs;
  }

  // the first pass over the positions of a flight
  method IsEntireFlightReceiver(positions: Positions) returns (yes: bool)
    ensures yes == AllReceive(positions)
  {
    for i := 0 to |positions|
      invariant forall j :: 0 <= j < i ==> positions[j].value
    {
      if !positions[i].value {
        return false;
      }
    }
    return true;
  }

  lemma SinglesNext(codeword: bytes, flight: int, positions: Positions, k: nat)
    requires k < |positions|
    ensures var before, p := Singles(codeword, flight, positions[..k]), positions[k];
      Singles(codeword, flight, positions[..k + 1])
      == if !p.value then before
         else if before == [] then [Full(Strict(codeword, flight, p.key))]
         else before + [Bare(flight, p.key)]
  {
    assert positions[..k + 1][..k] == positions[..k];
  }

  method CollateFlight(codeword: bytes, flight: int, positions: Positions) returns (r: seq<bytes>)
    ensures r == RenderAll(FlightCalls(codeword, flight, positions))
  {
    hide Singles, Render, RenderAll;
    r := [];
    RenderNone();
    var isEntireFlightReceiver := IsEntireFlightReceiver(positions);
    if isEntireFlightReceiver && |positions| > 1 {
      r := r + [Render(WholeFlight(codeword, flight))];
      RenderSnoc([], WholeFlight(codeword, flight));
      assert [] + [WholeFlight(codeword, flight)] == [WholeFlight(codeword, flight)];
    } else {
      var isFirstReceiverInFlight := true;
      assert positions[..0] == [] && Singles(codeword, flight, []) == [] by {
        NoSingles(codeword, flight);
      }
      for k := 0 to |positions|
        invariant r == RenderAll(Singles(codeword, flight, positions[..k]))
        invariant isFirstReceiverInFlight == (Singles(codeword, flight, positions[..k]) == [])
      {
        ghost var before := Singles(codeword, flight, positions[..k]);
        SinglesNext(codeword, flight, positions, k);
        if positions[k].value {
          var call := Bare(flight, positions[k].key);
          if isFirstReceiverInFlight {
            call := Full(Strict(codeword, flight, positions[k].key));
            isFirstReceiverInFlight := false;
          }
          RenderSnoc(before, call);
          assert before == [] ==> before + [call] == [call];
          r := r + [Render(call)];
        }
      }
      assert positions[..|positions|] == positions;
    }
  }

  lemma NoSingles(codeword: bytes, flight: int)
    ensures Singles(codeword, flight, []) == []
  {
  }

  method WalkFlights(codeword: bytes, flights: Flights) returns (collated: seq<bytes>)
    ensures collated == RenderAll(CodewordCalls(codeword, flights))
  {
    hide RenderAll, Render, FlightCalls;
    collated := [];
    RenderNone();
    for i := 0 to |flights|
      invariant collated == RenderAll(CodewordCalls(codeword, flights[..i]))
    {
      assert flights[..i + 1][..i] == flights[..i];
      var r := CollateFlight(codeword, flights[i].key, flights[i].value);
      RenderAllConcat(CodewordCalls(codeword, flights[..i]), FlightCalls(codeword, flights[i].key, flights[i].value));
      collated := collated + r;
    }
    assert flights[..|flights|] == flights;
  }

  method WalkTrie(members: Trie) returns (collated: seq<bytes>)
    ensures collated == RenderAll(TrieCalls(members))
  {
    hide RenderAll, Render, CodewordCalls;
    collated := [];
    RenderNone();
    for i := 0 to |members|
      invariant collated == RenderAll(TrieCalls(members[..i]))
    {
      assert members[..i + 1][..i] == members[..i];
      var r := WalkFlights(members[i].key, members[i].value);
      RenderAllConcat(TrieCalls(members[..i]), CodewordCalls(members[i].key, members[i].value));
      collated := collated + r;
    }
    assert members[..|members|] == members;
  }

  // The receivers that are not strict, after the walk.
  method AppendFree(receivers: seq<bytes>, ghost walked: seq<Call>, collated: seq<bytes>) returns (r: seq<bytes>)
    requires collated == RenderAll(walked)
    ensures r == RenderAll(walked + FreeOf(receivers))
  {
    hide RenderAll, ParseStrict;
    r := collated;
    assert walked + [] == walked;
    for i := 0 to |receivers|
      invariant r == RenderAll(walked + FreeOf(receivers[..i]))
    {
      assert receivers[..i + 1][..i] == receivers[..i];
      var s := receivers[i];
      if ParseStrict(s).None? {
        r := r + [s];
        RenderSnoc(walked + FreeOf(receivers[..i]), Free(s));
        assert walked + FreeOf(receivers[..i]) + [Free(s)] == walked + (FreeOf(receivers[..i]) + [Free(s)]);
      }
    }
    assert receivers[..|receivers|] == receivers;
  }

  // collateCallsigns: both slices are left sorted unless there is at most one
  // receiver.
  method CollateCallsigns(receivers: array<bytes>, everyone: array<bytes>) returns (collated: seq<bytes>)
    modifies receivers, everyone
    ensures collated == Collated(old(receivers[..]), old(everyone[..]))
    ensures receivers.Length <= 1 ==> receivers[..] == old(receivers[..]) && everyone[..] == old(everyone[..])
    ensures receivers.Length > 1 ==> receivers[..] == Sort(old(receivers[..]), TextLess)
    ensures receivers.Length > 1 ==> everyone[..] == Sort(old(everyone[..]), TextLess)
  {
    if receivers.Length <= 1 {
      return receivers[..];
    }
    hide RenderAll, Sort, StrictOf, TrieOf, TrieCalls, FreeOf;
    TextOrder();
    SortAgain(receivers[..], TextLess);
    SortInPlace(receivers, TextLess);
    SortInPlace(everyone, TextLess);
    var strictCallsigns := ParseAll(everyone[..]);
    strictCallsigns := Sort(strictCallsigns, StrictLess);
    var members := BuildTrie(strictCallsigns, receivers[..]);
    collated := WalkTrie(members);
    collated := AppendFree(receivers[..], TrieCalls(members), collated);
  }
}
