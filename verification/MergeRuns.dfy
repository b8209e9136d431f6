// Merges over whole runs: when a pair is merged, and when a call is due.
module MergeRuns {
  import opened Trackfiles
  import opened Merges

  ghost function After(events: seq<Event>, i: nat): set<Pair>
    requires i <= |events|
  {
    if i == 0 then {} else Next(After(events, i - 1), events[i - 1])
  }

  ghost function Played(pairs: set<Pair>, events: seq<Event>): set<Pair> {
    if events == [] then pairs else Next(Played(pairs, events[..|events| - 1]), events[|events| - 1])
  }

  lemma {:induction false} PlayedConcat(pairs: set<Pair>, a: seq<Event>, b: seq<Event>)
    ensures Played(pairs, a + b) == Played(Played(pairs, a), b)
  {
    hide Next;
    if b == [] {
      assert a + b == a;
    } else {
      assert (a + b)[..|a + b| - 1] == a + b[..|b| - 1];
      PlayedConcat(pairs, a, b[..|b| - 1]);
    }
  }

  lemma {:induction false} AfterPlayed(events: seq<Event>, i: nat)
    requires i <= |events|
    ensures After(events, i) == Played({}, events[..i])
  {
    hide Next;
    if i > 0 {
      AfterPlayed(events, i - 1);
      assert events[..i][..i - 1] == events[..i - 1];
    }
  }

  // ---- the update for a group as events ----

  // Hostiles are seen with the given friendlies, separated from others, or removed.
  predicate Concerns(e: Event, hostiles: seq<nat>, friends: set<nat>) {
    match e
    case Sight(h, f, _) => h in hostiles && f in friends
    case SeparateEvent(h, f) => h in hostiles && f !in friends
    case RemoveEvent(id) => id in hostiles
    case _ => false
  }

  predicate AllConcern(events: seq<Event>, hostiles: seq<nat>, friends: set<nat>) {
    forall e :: e in events ==> Concerns(e, hostiles, friends)
  }

  lemma NoneConcern(hostiles: seq<nat>, friends: set<nat>)
    ensures AllConcern([], hostiles, friends)
  {
  }

  lemma AllConcernConcat(a: seq<Event>, b: seq<Event>, hostiles: seq<nat>, more: seq<nat>, friends: set<nat>)
    requires AllConcern(a, hostiles, friends) && AllConcern(b, more, friends)
    ensures AllConcern(a + b, hostiles + more, friends)
    ensures hostiles == more ==> AllConcern(a + b, hostiles, friends)
  {
  }

  lemma {:induction false} SeparatedEvents(pairs: set<Pair>, h: nat, friends: set<nat>, gone: set<nat>) returns (events: seq<Event>)
    requires forall f :: f in gone <==> (h, f) in pairs && f !in friends
    ensures Played(pairs, events) == Separated(pairs, h, friends)
    ensures AllConcern(events, [h], friends)
    decreases gone
  {
    events := [];
    if gone != {} {
      var f :| f in gone;
      var e := SeparateEvent(h, f);
      var rest := SeparatedEvents(Next(pairs, e), h, friends, gone - {f});
      events := [e] + rest;
      PlayedConcat(pairs, [e], rest);
      assert [e][..0] == [];
      assert Separated(Next(pairs, e), h, friends) == Separated(pairs, h, friends);
    } else {
      assert Separated(pairs, h, friends) == pairs;
    }
  }

  lemma {:induction false} SightedEvents(w: World, hostile: Track, pairs: set<Pair>, friendlies: seq<Track>) returns (events: seq<Event>)
    ensures Played(pairs, events) == Sighted(w, hostile, pairs, friendlies).pairs
    ensures AllConcern(events, [hostile.id], FriendIDs(friendlies))
    ensures forall e :: e in events ==> e.Sight?
  {
    hide Next;
    events := [];
    if friendlies != [] {
      var init, t := friendlies[..|friendlies| - 1], friendlies[|friendlies| - 1];
      var before := SightedEvents(w, hostile, pairs, init);
      events := before + [Sight(hostile.id, t.id, Observe(w, hostile, t))];
      assert events[..|events| - 1] == before;
      assert FriendIDs(init) <= FriendIDs(friendlies) && t.id in FriendIDs(friendlies);
      forall e | e in before ensures Concerns(e, [hostile.id], FriendIDs(friendlies)) {
        assert Concerns(e, [hostile.id], FriendIDs(init));
      }
    }
  }

  lemma HostileStepEvents(w: World, scope: Contacts, pairs: set<Pair>, h: nat, friendlies: seq<Track>) returns (events: seq<Event>)
    requires Keyed(scope)
    ensures Played(pairs, events) == HostileStep(w, scope, pairs, h, friendlies).pairs
    ensures AllConcern(events, [h], FriendIDs(friendlies))
  {
    hide Next, Sighted, FriendIDs, Separated;
    var friends := FriendIDs(friendlies);
    var first := SeparatedEvents(pairs, h, friends, set p | p in pairs && p.0 == h && p.1 !in friends :: p.1);
    var rest := Separated(pairs, h, friends);
    var then_ := [RemoveEvent(h)];
    if h in scope {
      then_ := SightedEvents(w, scope[h], rest, friendlies);
    } else {
      assert then_[..0] == [];
    }
    events := first + then_;
    PlayedConcat(pairs, first, then_);
    AllConcernConcat(first, then_, [h], [h], friends);
  }

  // Updating a group is playing events of its hostiles: the runs over which
  // hysteresis holds are those of the tracker.
  lemma {:induction false} GroupStepEvents(w: World, scope: Contacts, pairs: set<Pair>, hostiles: seq<nat>, friendlies: seq<Track>)
    returns (events: seq<Event>)
    requires Keyed(scope)
    ensures Played(pairs, events) == GroupStep(w, scope, pairs, hostiles, friendlies).pairs
    ensures AllConcern(events, hostiles, FriendIDs(friendlies))
  {
    hide HostileStep, Next, FriendIDs, AllConcern;
    events := [];
    NoneConcern(hostiles, FriendIDs(friendlies));
    if hostiles != [] {
      var init, h := hostiles[..|hostiles| - 1], hostiles[|hostiles| - 1];
      assert hostiles == init + [h];
      var friends := FriendIDs(friendlies);
      var before := GroupStepEvents(w, scope, pairs, init, friendlies);
      var last := HostileStepEvents(w, scope, Played(pairs, before), h, friendlies);
      events := before + last;
      PlayedConcat(pairs, before, last);
      AllConcernConcat(before, last, init, [h], friends);
    }
  }

  // A group update after any run makes a longer run, of the same roles.
  lemma GroupStepRun(w: World, scope: Contacts, events: seq<Event>, hostiles: seq<nat>, friendlies: seq<Track>, roles: set<nat>)
    returns (more: seq<Event>)
    requires Keyed(scope) && Roles(events, roles)
    requires forall h :: h in hostiles ==> h in roles
    requires forall t :: t in friendlies ==> t.id !in roles
    ensures After(events + more, |events + more|)
         == GroupStep(w, scope, After(events, |events|), hostiles, friendlies).pairs
    ensures Roles(events + more, roles)
  {
    hide GroupStep, Played, After;
    AfterPlayed(events, |events|);
    more := GroupStepEvents(w, scope, After(events, |events|), hostiles, friendlies);
    AfterPlayed(events + more, |events + more|);
    assert events[..|events|] == events && (events + more)[..|events + more|] == events + more;
    PlayedConcat({}, events, more);
    forall i | |events| <= i < |events + more| ensures (events + more)[i] in more {
    }
  }

  // ---- hysteresis ----

  predicate Enters(e: Event, h: nat, f: nat) {
    e.Sight? && e.hostile == h && e.friend == f && e.seen.Distance? && e.seen.miles < 3.0
  }

  // The pair is seen apart, or taken out of the tracker.
  predicate Ends(e: Event, h: nat, f: nat) {
    match e
    case Sight(a, b, o) => a == h && b == f && (o.NoPosition? || o.miles > 5.0)
    case SeparateEvent(a, b) => a == h && b == f
    case KeepEvent(ids) => h !in ids
    case RemoveEvent(id) => id == h || id == f
    case ResetEvent => true
  }

  ghost predicate MergedSince(events: seq<Event>, i: nat, h: nat, f: nat)
    requires i <= |events|
  {
    exists k :: 0 <= k < i && Enters(events[k], h, f) && forall m :: k < m < i ==> !Ends(events[m], h, f)
  }

  // Hostiles and friendlies are told apart by ID.
  predicate Roles(events: seq<Event>, hostiles: set<nat>) {
    forall i :: 0 <= i < |events| && events[i].Sight? ==> events[i].hostile in hostiles && events[i].friend !in hostiles
  }

  lemma {:induction false} PairsKeepRoles(events: seq<Event>, hostiles: set<nat>, i: nat)
    requires i <= |events| && Roles(events, hostiles)
    ensures forall p :: p in After(events, i) ==> p.0 in hostiles && p.1 !in hostiles
  {
    if i > 0 {
      PairsKeepRoles(events, hostiles, i - 1);
    }
  }

  // One event makes a pair merged, ends its merge, or leaves it alone.
  lemma StepOfPair(pairs: set<Pair>, e: Event, hostiles: set<nat>, h: nat, f: nat)
    requires forall p :: p in pairs ==> p.0 in hostiles && p.1 !in hostiles
    ensures (h, f) in Next(pairs, e) <==> Enters(e, h, f) || ((h, f) in pairs && !Ends(e, h, f))
  {
    if e.RemoveEvent? && (h, f) in pairs {
      if e.id == h {
        assert IsHostile(pairs, e.id);
      }
    }
  }

  // A pair is merged exactly when some observation below 3 NM has been followed by
  // none above 5 NM, none without a position, and no removal.
  lemma {:induction false} Hysteresis(events: seq<Event>, hostiles: set<nat>, i: nat, h: nat, f: nat)
    requires i <= |events| && Roles(events, hostiles)
    ensures (h, f) in After(events, i) <==> MergedSince(events, i, h, f)
  {
    if i > 0 {
      var e := events[i - 1];
      Hysteresis(events, hostiles, i - 1, h, f);
      PairsKeepRoles(events, hostiles, i - 1);
      StepOfPair(After(events, i - 1), e, hostiles, h, f);
      MergedSinceStep(events, i, h, f);
    }
  }

  lemma MergedSinceStep(events: seq<Event>, i: nat, h: nat, f: nat)
    requires 0 < i <= |events|
    ensures MergedSince(events, i, h, f)
        <==> Enters(events[i - 1], h, f) || (MergedSince(events, i - 1, h, f) && !Ends(events[i - 1], h, f))
  {
    if MergedSince(events, i - 1, h, f) && !Ends(events[i - 1], h, f) {
      var k :| 0 <= k < i - 1 && Enters(events[k], h, f) && forall m :: k < m < i - 1 ==> !Ends(events[m], h, f);
      assert forall m :: k < m < i ==> !Ends(events[m], h, f);
    }
    if MergedSince(events, i, h, f) && !Enters(events[i - 1], h, f) {
      var k :| 0 <= k < i && Enters(events[k], h, f) && forall m :: k < m < i ==> !Ends(events[m], h, f);
      assert k < i - 1;
    }
  }

  // Removing an ID leaves no pair with it, unless it is the hostile of one pair and
  // the friendly of another: then the latter stays.
  lemma RemoveComplete(pairs: set<Pair>, id: nat)
    ensures (forall p :: p in Next(pairs, RemoveEvent(id)) ==> p.0 != id && p.1 != id)
        <==> !(IsHostile(pairs, id) && exists h :: h != id && (h, id) in pairs)
  {
    if IsHostile(pairs, id) && exists h :: h != id && (h, id) in pairs {
      var h :| h != id && (h, id) in pairs;
      assert (h, id) in Next(pairs, RemoveEvent(id));
    }
  }

  // Hostile 1 is seen close to friendly 2, and hostile 2 to friendly 3: the first pair
  // outlives the removal of 2.
  lemma RemovedButKept()
    ensures var events := [Sight(1, 2, Distance(1.0)), Sight(2, 3, Distance(1.0)), RemoveEvent(2)];
      After(events, 2) == {(1, 2), (2, 3)} && After(events, 3) == {(1, 2)}
  {
    var events := [Sight(1, 2, Distance(1.0)), Sight(2, 3, Distance(1.0)), RemoveEvent(2)];
    assert After(events, 0) == {};
    assert After(events, 1) == {(1, 2)};
    assert After(events, 2) == {(1, 2), (2, 3)};
    assert (2, 3) in After(events, 2);
    assert IsHostile(After(events, 2), 2);
    assert After(events, 3) == Next(After(events, 2), RemoveEvent(2));
  }
}
