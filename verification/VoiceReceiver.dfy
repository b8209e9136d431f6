// Reassembling transmissions on one radio from the voice packets that arrive.
module VoiceReceiver {
  import opened Wrappers
  import opened Bytes
  import opened VoicePacket
  import opened VoiceRoundTrip

  // milliseconds
  const MAX_RX_GAP := 300
  const MIN_RX_DURATION := 1000
  const FRAME_LENGTH := 40

  // ---- the state machine ----

  datatype State = State(buffer: seq<Packet>, origin: bytes, deadline: int, packetNumber: nat)

  const EMPTY := State([], [], 0, 0)

  // A datagram is decoded, admitted or not by the coalition filter, and offered
  // once for each of its frequencies that the radio is tuned to. A tick checks for
  // the end of a transmission if no datagrams are waiting.
  datatype Event =
    | Datagram(b: bytes, admitted: bool, now: int)
    | Tick(idle: bool, now: int)

  // The end of a transmission: it is published or, if too short, discarded.
  datatype Closed = Closed(packets: seq<Packet>, published: bool, now: int)

  type Tuning = Frequency -> bool

  predicate Accepts(s: State, p: Packet) {
    (s.origin == [] && s.packetNumber == 0) || (p.packetID > s.packetNumber && s.origin == p.originGUID)
  }

  // receive
  function Received(s: State, p: Packet, now: int): State {
    if Accepts(s, p) then State(s.buffer + [p], p.originGUID, now + MAX_RX_GAP, p.packetID) else s
  }

  function ReceiveAll(s: State, p: Packet, fs: seq<Frequency>, tuned: Tuning, now: int): State {
    if fs == [] then s
    else
      var t := ReceiveAll(s, p, fs[..|fs| - 1], tuned, now);
      if tuned(fs[|fs| - 1]) then Received(t, p, now) else t
  }

  predicate IsComplete(s: State, now: int) {
    |s.buffer| > 0 && now > s.deadline
  }

  predicate LongEnough(packets: seq<Packet>) {
    |packets| * FRAME_LENGTH > MIN_RX_DURATION
  }

  function Next(s: State, e: Event, tuned: Tuning): State {
    match e
    case Datagram(b, admitted, now) =>
      var p := Decode(b);
      if p.Some? && admitted then ReceiveAll(s, p.value, p.value.frequencies, tuned, now) else s
    case Tick(idle, now) => if idle && IsComplete(s, now) then EMPTY else s
  }

  // The transmissions that an event closes: at most one.
  function Closes(s: State, e: Event): seq<Closed> {
    if e.Tick? && e.idle && IsComplete(s, e.now) then [Closed(s.buffer, LongEnough(s.buffer), e.now)] else []
  }

  // The packets that an event adds to the buffer.
  function Accepted(s: State, e: Event, tuned: Tuning): seq<Packet> {
    if e.Datagram? && |Next(s, e, tuned).buffer| > |s.buffer| then Next(s, e, tuned).buffer[|s.buffer|..] else []
  }

  // ---- the receiver ----

  class Receiver {
    var buffer: seq<Packet>
    var origin: bytes
    var deadline: int
    var packetNumber: nat

    function View(): State
      reads this
    {
      State(buffer, origin, deadline, packetNumber)
    }

    constructor ()
      ensures View() == EMPTY
    {
      buffer, origin, deadline, packetNumber := [], [], 0, 0;
    }

    // receive
    method Receive(packet: Packet, now: int)
      modifies this
      ensures View() == Received(old(View()), packet, now)
    {
      var isNewTransmission := origin == [] && packetNumber == 0;
      var isNewerPacket := packet.packetID > packetNumber;
      var isSameOrigin := origin == packet.originGUID;
      var shouldAcceptPacket := isNewTransmission || (isNewerPacket && isSameOrigin);
      if !shouldAcceptPacket {
        return;
      }
      buffer := buffer + [packet];
      origin := packet.originGUID;
      deadline := now + MAX_RX_GAP;
      packetNumber := packet.packetID;
    }

    // hasTransmission
    method HasTransmission(now: int) returns (has: bool)
      ensures has <==> IsComplete(View(), now)
    {
      var hasPackets := |buffer| > 0;
      var isComplete := now > deadline;
      has := hasPackets && isComplete;
    }

    // reset
    method Reset()
      modifies this
      ensures View() == EMPTY
    {
      buffer, origin, deadline, packetNumber := [], [], 0, 0;
    }
  }

  // receiveVoice, the case of a datagram, for one radio
  method HandleDatagram(r: Receiver, b: bytes, admitted: bool, tuned: Tuning, now: int)
    modifies r
    ensures r.View() == Next(old(r.View()), Datagram(b, admitted, now), tuned)
  {
    var packet := DecodePacket(b);
    if packet.None? {
      return;
    }
    if !admitted {
      return;
    }
    var fs := packet.value.frequencies;
    for i := 0 to |fs|
      invariant r.View() == ReceiveAll(old(r.View()), packet.value, fs[..i], tuned, now)
    {
      assert fs[..i + 1][..i] == fs[..i];
      if tuned(fs[i]) {
        r.Receive(packet.value, now);
      }
    }
    assert fs[..|fs|] == fs;
  }

  // receiveVoice, the case of a tick, for one radio: what goes to the out channel
  method HandleTick(r: Receiver, idle: bool, now: int) returns (out: seq<seq<Packet>>)
    modifies r
    ensures r.View() == Next(old(r.View()), Tick(idle, now), f => true)
    ensures out == Published(Closes(old(r.View()), Tick(idle, now)))
  {
    out := [];
    if idle {
      var has := r.HasTransmission(now);
      if has {
        var duration := |r.buffer| * FRAME_LENGTH;
        if duration > MIN_RX_DURATION {
          out := [r.buffer];
        }
        r.Reset();
      }
    }
  }

  function Published(closed: seq<Closed>): seq<seq<Packet>> {
    if closed == [] then []
    else
      var c := closed[|closed| - 1];
      Published(closed[..|closed| - 1]) + (if c.published then [c.packets] else [])
  }

  // ---- whole runs ----

  function After(events: seq<Event>, i: nat, tuned: Tuning): State
    requires i <= |events|
  {
    if i == 0 then EMPTY else Next(After(events, i - 1, tuned), events[i - 1], tuned)
  }

  function AllAccepted(events: seq<Event>, i: nat, tuned: Tuning): seq<Packet>
    requires i <= |events|
  {
    if i == 0 then []
    else AllAccepted(events, i - 1, tuned) + Accepted(After(events, i - 1, tuned), events[i - 1], tuned)
  }

  function AllClosed(events: seq<Event>, i: nat, tuned: Tuning): seq<Closed>
    requires i <= |events|
  {
    if i == 0 then []
    else AllClosed(events, i - 1, tuned) + Closes(After(events, i - 1, tuned), events[i - 1])
  }

  function Packets(closed: seq<Closed>): seq<Packet> {
    if closed == [] then [] else Packets(closed[..|closed| - 1]) + closed[|closed| - 1].packets
  }

  // Packets of one origin with increasing numbers.
  predicate OneTransmission(packets: seq<Packet>) {
    && (forall i :: 0 <= i < |packets| ==> packets[i].originGUID == packets[0].originGUID && |packets[i].originGUID| == GUID_LENGTH)
    && (forall i, j :: 0 <= i < j < |packets| ==> packets[i].packetID < packets[j].packetID)
  }

  // The receiver listens to the origin of its last packet, or to nobody.
  predicate Valid(s: State) {
    && OneTransmission(s.buffer)
    && (s.buffer == [] ==> s == EMPTY)
    && (s.buffer != [] ==>
          var last := s.buffer[|s.buffer| - 1];
          s.origin == last.originGUID && s.packetNumber == last.packetID)
  }

  lemma ReceiveValid(s: State, p: Packet, now: int)
    requires Valid(s) && |p.originGUID| == GUID_LENGTH
    ensures Valid(Received(s, p, now))
    ensures Accepts(s, p) <==>
              s.buffer == [] || (s.buffer[0].originGUID == p.originGUID && forall q :: q in s.buffer ==> q.packetID < p.packetID)
  {
    var t := Received(s, p, now);
    if s.buffer != [] {
      var last := s.buffer[|s.buffer| - 1];
      if Accepts(s, p) {
        forall i | 0 <= i < |s.buffer| ensures s.buffer[i].packetID < p.packetID {
          assert i < |s.buffer| - 1 ==> s.buffer[i].packetID < last.packetID;
        }
      } else {
        assert last in s.buffer;
      }
    }
  }

  // However many of its frequencies the radio is tuned to, a datagram's packet is
  // taken at most once: as soon as there is one.
  lemma {:induction false} OfferedOnce(s: State, p: Packet, fs: seq<Frequency>, tuned: Tuning, now: int)
    requires Valid(s) && |p.originGUID| == GUID_LENGTH
    ensures ReceiveAll(s, p, fs, tuned, now) == if exists f :: f in fs && tuned(f) then Received(s, p, now) else s
  {
    if fs != [] {
      var init, last := fs[..|fs| - 1], fs[|fs| - 1];
      OfferedOnce(s, p, init, tuned, now);
      assert forall f :: f in fs <==> f in init || f == last;
      ReceiveValid(s, p, now);
      assert last in fs;
    }
  }

  // One event keeps the receiver valid, and moves packets only from the accepted
  // ones through the buffer to a closed transmission.
  lemma StepConserves(s: State, e: Event, tuned: Tuning)
    requires Valid(s)
    ensures Valid(Next(s, e, tuned))
    ensures Packets(Closes(s, e)) + Next(s, e, tuned).buffer == s.buffer + Accepted(s, e, tuned)
    ensures |Accepted(s, e, tuned)| <= 1
  {
    match e {
      case Datagram(b, admitted, now) =>
        var d := Decode(b);
        if d.Some? && admitted {
          DecodedGUIDs(b);
          OfferedOnce(s, d.value, d.value.frequencies, tuned, now);
          ReceiveValid(s, d.value, now);
        }
      case Tick(idle, now) =>
        if idle && IsComplete(s, now) {
          var c := Closes(s, e)[0];
          assert Closes(s, e)[..0] == [];
        }
    }
  }

  lemma PacketsConcat(a: seq<Closed>, b: seq<Closed>)
    requires |b| <= 1
    ensures Packets(a + b) == Packets(a) + Packets(b)
  {
    if |b| == 1 {
      assert (a + b)[..|a|] == a && b[..0] == [];
    } else {
      assert a + b == a;
    }
  }

  // Over any run, the accepted packets are, in order, those of the closed
  // transmissions followed by those in the buffer: none is lost, repeated or
  // reordered.
  lemma {:induction false} RunConserves(events: seq<Event>, i: nat, tuned: Tuning)
    requires i <= |events|
    ensures Valid(After(events, i, tuned))
    ensures Packets(AllClosed(events, i, tuned)) + After(events, i, tuned).buffer == AllAccepted(events, i, tuned)
  {
    hide Next, Closes, Accepted, Valid, Packets;
    if i == 0 {
      EmptyValid();
    } else {
      var s, e := After(events, i - 1, tuned), events[i - 1];
      RunConserves(events, i - 1, tuned);
      StepConserves(s, e, tuned);
      ClosesOne(s, e);
      var closed, now := AllClosed(events, i - 1, tuned), Closes(s, e);
      PacketsConcat(closed, now);
      Regroup(Packets(closed), Packets(now), Next(s, e, tuned).buffer, s.buffer, Accepted(s, e, tuned));
    }
  }

  lemma Regroup(a: seq<Packet>, b: seq<Packet>, c: seq<Packet>, d: seq<Packet>, e: seq<Packet>)
    requires b + c == d + e
    ensures (a + b) + c == (a + d) + e
  {
    assert (a + b) + c == a + (b + c);
    assert (a + d) + e == a + (d + e);
  }

  lemma EmptyValid()
    ensures Valid(EMPTY) && Packets([]) == []
  {
  }

  lemma ClosesOne(s: State, e: Event)
    ensures |Closes(s, e)| <= 1
  {
  }

  predicate Fine(c: Closed) {
    && c.packets != [] && OneTransmission(c.packets)
    && (c.published <==> |c.packets| >= 26)
  }

  lemma ClosesFine(s: State, e: Event)
    requires Valid(s)
    ensures forall c :: c in Closes(s, e) ==> Fine(c) && e.Tick? && c.now == e.now && c.now > s.deadline
  {
  }

  // Every closed transmission is of one origin with increasing numbers, and it is
  // published exactly when it has at least 26 packets.
  lemma {:induction false} ClosedTransmissions(events: seq<Event>, i: nat, tuned: Tuning)
    requires i <= |events|
    ensures forall c :: c in AllClosed(events, i, tuned) ==> Fine(c)
  {
    hide Next, Valid, Fine, Closes, OneTransmission;
    if i > 0 {
      var s, e := After(events, i - 1, tuned), events[i - 1];
      ClosedTransmissions(events, i - 1, tuned);
      RunConserves(events, i - 1, tuned);
      ClosesFine(s, e);
      forall c | c in AllClosed(events, i, tuned) ensures Fine(c) {
        assert c in AllClosed(events, i - 1, tuned) || c in Closes(s, e);
      }
    }
  }

  // ---- silence ----

  lemma AcceptedSetsDeadline(s: State, e: Event, tuned: Tuning)
    requires Valid(s)
    ensures Accepted(s, e, tuned) != [] ==> e.Datagram? && Next(s, e, tuned).deadline == e.now + MAX_RX_GAP
    ensures Accepted(s, e, tuned) == [] ==> Next(s, e, tuned) == s || Next(s, e, tuned) == EMPTY
  {
    if e.Datagram? && Decode(e.b).Some? && e.admitted {
      var p := Decode(e.b).value;
      DecodedGUIDs(e.b);
      OfferedOnce(s, p, p.frequencies, tuned, e.now);
    }
  }

  // Event k adds a packet to the buffer.
  predicate Takes(events: seq<Event>, k: nat, tuned: Tuning)
    requires k < |events|
  {
    Accepted(After(events, k, tuned), events[k], tuned) != []
  }

  // No event adds one from k on before j.
  predicate Silent(events: seq<Event>, k: nat, j: nat, tuned: Tuning)
    requires j <= |events|
  {
    forall m :: k <= m < j ==> !Takes(events, m, tuned)
  }

  // Without another accepted packet the deadline stays, or the receiver is empty.
  lemma {:induction false} DeadlineStays(events: seq<Event>, k: nat, j: nat, tuned: Tuning)
    requires k < j <= |events|
    ensures Takes(events, k, tuned) ==> events[k].Datagram?
    ensures Takes(events, k, tuned) && Silent(events, k + 1, j, tuned) ==>
              After(events, j, tuned).deadline == events[k].now + MAX_RX_GAP || After(events, j, tuned) == EMPTY
    decreases j
  {
    hide Next, Accepted, Valid, After, AllClosed, AllAccepted, Packets;
    var s := After(events, j - 1, tuned);
    RunConserves(events, j - 1, tuned);
    AcceptedSetsDeadline(s, events[j - 1], tuned);
    AfterNext(events, j - 1, tuned);
    if k < j - 1 {
      DeadlineStays(events, k, j - 1, tuned);
      assert Silent(events, k + 1, j, tuned) ==> !Takes(events, j - 1, tuned);
    }
  }

  lemma AfterNext(events: seq<Event>, i: nat, tuned: Tuning)
    requires i < |events|
    ensures After(events, i + 1, tuned) == Next(After(events, i, tuned), events[i], tuned)
  {
  }

  // A transmission is closed only by a tick more than 300 ms after the last accepted
  // packet.
  lemma SilenceBeforeClose(events: seq<Event>, k: nat, i: nat, tuned: Tuning)
    requires k < i < |events|
    ensures Closes(After(events, i, tuned), events[i]) != [] ==> events[i].Tick?
    ensures Takes(events, k, tuned) && Silent(events, k + 1, i, tuned) && Closes(After(events, i, tuned), events[i]) != [] ==>
              events[k].Datagram? && events[i].now > events[k].now + 300
  {
    hide Next, Takes, Silent, After;
    DeadlineStays(events, k, i, tuned);
  }

  // ---- when a transmission is closed ----

  // A packet is taken just when its datagram decodes, is admitted and is on a tuned
  // frequency, and nothing is buffered or the buffer is of its origin and older.
  lemma TakesIff(events: seq<Event>, k: nat, tuned: Tuning)
    requires k < |events|
    ensures var s, e := After(events, k, tuned), events[k];
      Takes(events, k, tuned) <==>
        && e.Datagram? && Decode(e.b).Some? && e.admitted
        && var p := Decode(e.b).value;
           && (exists f :: f in p.frequencies && tuned(f))
           && (s.buffer == []
               || (s.buffer[0].originGUID == p.originGUID && forall q :: q in s.buffer ==> q.packetID < p.packetID))
    ensures Takes(events, k, tuned) ==>
      After(events, k + 1, tuned).buffer == After(events, k, tuned).buffer + [Decode(events[k].b).value]
  {
    hide After, Valid, AllClosed, AllAccepted, Packets;
    var s, e := After(events, k, tuned), events[k];
    AfterNext(events, k, tuned);
    RunConserves(events, k, tuned);
    if e.Datagram? && Decode(e.b).Some? && e.admitted {
      var p := Decode(e.b).value;
      DecodedGUIDs(e.b);
      OfferedOnce(s, p, p.frequencies, tuned, e.now);
      ReceiveValid(s, p, e.now);
    }
  }

  // Event k took the last packet before i, and no idle tick came more than 300 ms
  // later.
  ghost predicate Open(events: seq<Event>, k: nat, i: nat, tuned: Tuning)
    requires i <= |events|
  {
    && k < i && Takes(events, k, tuned) && Silent(events, k + 1, i, tuned)
    && forall m :: k < m < i && events[m].Tick? && events[m].idle ==> events[m].now <= events[k].now + 300
  }

  lemma TakenStep(s: State, e: Event, tuned: Tuning)
    requires Valid(s)
    ensures e.Datagram? && Accepted(s, e, tuned) == [] ==> Next(s, e, tuned) == s
    ensures Accepted(s, e, tuned) != [] ==>
              && Next(s, e, tuned).buffer == s.buffer + Accepted(s, e, tuned)
              && Next(s, e, tuned).deadline == e.now + 300
  {
    if e.Datagram? && Decode(e.b).Some? && e.admitted {
      var p := Decode(e.b).value;
      DecodedGUIDs(e.b);
      OfferedOnce(s, p, p.frequencies, tuned, e.now);
    }
  }

  lemma TickStep(s: State, e: Event, tuned: Tuning)
    requires e.Tick?
    ensures Next(s, e, tuned) == if e.idle && s.buffer != [] && e.now > s.deadline then EMPTY else s
    ensures Accepted(s, e, tuned) == []
  {
  }

  // Until then the buffer stays as the packet left it.
  lemma {:induction false} OpenBuffer(events: seq<Event>, k: nat, i: nat, tuned: Tuning)
    requires i <= |events| && Open(events, k, i, tuned)
    ensures var s := After(events, i, tuned);
      s == After(events, k + 1, tuned) && s.buffer != [] && s.deadline == events[k].now + 300
    decreases i
  {
    hide Next, Accepted, Valid, After, AllClosed, AllAccepted, Packets;
    var before := After(events, i - 1, tuned);
    RunConserves(events, i - 1, tuned);
    AfterNext(events, i - 1, tuned);
    TakenStep(before, events[i - 1], tuned);
    if k < i - 1 {
      assert Open(events, k, i - 1, tuned);
      OpenBuffer(events, k, i - 1, tuned);
      assert !Takes(events, i - 1, tuned);
      if events[i - 1].Tick? {
        TickStep(before, events[i - 1], tuned);
      }
    }
  }

  lemma OpenFirst(events: seq<Event>, k: nat, tuned: Tuning)
    requires k < |events| && Takes(events, k, tuned)
    ensures Open(events, k, k + 1, tuned)
  {
  }

  lemma OpenMore(events: seq<Event>, k: nat, i: nat, tuned: Tuning)
    requires i < |events| && Open(events, k, i, tuned) && !Takes(events, i, tuned)
    requires events[i].Tick? && events[i].idle ==> events[i].now <= events[k].now + 300
    ensures Open(events, k, i + 1, tuned)
  {
    hide Takes;
  }

  lemma QuietNext(events: seq<Event>, i: nat, tuned: Tuning)
    requires i < |events| && !Takes(events, i, tuned)
    ensures var s, e := After(events, i, tuned), events[i];
      After(events, i + 1, tuned) == if e.Tick? && e.idle && s.buffer != [] && e.now > s.deadline then EMPTY else s
  {
    hide Next, Accepted, Valid, After, AllClosed, AllAccepted, Packets;
    var s, e := After(events, i, tuned), events[i];
    RunConserves(events, i, tuned);
    AfterNext(events, i, tuned);
    TakenStep(s, e, tuned);
    if e.Tick? {
      TickStep(s, e, tuned);
    }
  }

  // The receiver is empty or holds what the last packet taken left.
  lemma {:induction false} EmptyOrOpen(events: seq<Event>, i: nat, tuned: Tuning)
    requires i <= |events|
    ensures After(events, i, tuned) == EMPTY || exists k: nat :: Open(events, k, i, tuned)
  {
    hide *;
    if i == 0 {
      AfterNone(events, tuned);
    } else {
      var before, e := After(events, i - 1, tuned), events[i - 1];
      EmptyOrOpen(events, i - 1, tuned);
      if Takes(events, i - 1, tuned) {
        OpenFirst(events, i - 1, tuned);
      } else if before == EMPTY {
        QuietNext(events, i - 1, tuned);
      } else {
        QuietNext(events, i - 1, tuned);
        var k: nat :| Open(events, k, i - 1, tuned);
        OpenBuffer(events, k, i - 1, tuned);
        OpenTaken(events, k, i - 1, tuned);
        if !(e.Tick? && e.idle && e.now > events[k].now + 300) {
          OpenMore(events, k, i - 1, tuned);
        }
      }
    }
  }

  lemma AfterNone(events: seq<Event>, tuned: Tuning)
    ensures After(events, 0, tuned) == EMPTY
  {
  }

  lemma OpenTaken(events: seq<Event>, k: nat, i: nat, tuned: Tuning)
    requires i <= |events| && Open(events, k, i, tuned)
    ensures k < i && Takes(events, k, tuned) && events[k].Datagram?
  {
    hide After;
  }

  // A transmission is closed by exactly the first idle tick more than 300 ms after
  // its last packet: it is all that is buffered, published from 26 packets on, and
  // leaves the receiver empty.
  lemma ClosesIff(events: seq<Event>, i: nat, tuned: Tuning)
    requires i < |events|
    ensures var s, e := After(events, i, tuned), events[i];
      && (Closes(s, e) != [] <==>
            e.Tick? && e.idle && exists k: nat :: k < i && Open(events, k, i, tuned) && e.now > events[k].now + 300)
      && (Closes(s, e) != [] ==>
            && Closes(s, e) == [Closed(s.buffer, |s.buffer| >= 26, e.now)]
            && s.buffer != [] && After(events, i + 1, tuned) == EMPTY)
  {
    hide After, Open;
    var s, e := After(events, i, tuned), events[i];
    EmptyOrOpen(events, i, tuned);
    AfterNext(events, i, tuned);
    forall k: nat | Open(events, k, i, tuned) ensures k < i && s.buffer != [] && s.deadline == events[k].now + 300 {
      OpenTaken(events, k, i, tuned);
      OpenBuffer(events, k, i, tuned);
    }
  }
}
