// The radar's handlers, proved to be the steps of the state machine in Fades and
// to keep the callsign index sound.
module RadarScope {
  import opened Wrappers
  import opened Trackfiles
  import opened ContactDatabase
  import opened Grouping
  import opened Fades

  // The groups handed to the callback are those of the machine.
  ghost predicate SameGroups(groups: seq<Group>, specs: seq<FadedGroup>)
    reads groups
  {
    && |groups| == |specs|
    && forall k :: 0 <= k < |groups| ==> SameGroup(groups[k], specs[k])
  }

  ghost predicate SameGroup(g: Group, spec: FadedGroup)
    reads g
  {
    g.contacts != [] && g.contacts[0] == spec.seed && Members(g.contacts) == spec.members
  }

  class Radar {
    const store: ContactStore
    var pendingFades: seq<nat>
    var completedFades: map<nat, int>
    // local to collectFadedTrackfiles
    var deadline: int
    var extensions: nat

    ghost predicate Valid()
      reads this, store
    {
      store.Valid() && Disciplined(store.history)
    }

    function View(): State
      reads this, store
    {
      State(store.contacts, pendingFades, completedFades, deadline, extensions)
    }

    constructor ()
      ensures Valid() && View() == INITIAL && fresh(store)
    {
      store := new ContactStore();
      pendingFades, completedFades, deadline, extensions := [], map[], 0, 0;
    }

    // handleUpdate
    method HandleUpdate(labels: Labels, frame: Frame)
      requires Valid()
      modifies this, store
      ensures Valid() && View() == Next(old(View()), Update(labels, frame))
    {
      ghost var ops := store.history;
      var trackfile := store.GetByID(labels.id);
      if trackfile.Some? {
        DisciplinedMore(ops, FrameOp(labels.id, frame));
        store.Update(labels.id, frame);
      } else {
        DisciplinedMore(ops, SetOp(NewTrack(labels)));
        store.Set(NewTrack(labels));
      }
    }

    // a fade notification
    method HandleFade(id: nat, now: int)
      requires Valid()
      modifies this
      ensures Valid() && View() == Next(old(View()), Fade(id, now))
    {
      var trackfile := store.GetByID(id);
      if trackfile.None? {
        return;
      }
      var extension := SHORT_EXTENSION;
      if extensions < MAX_LONG_EXTENSIONS {
        extension := LONG_EXTENSION;
      }
      deadline := now + extension;
      extensions := extensions + 1;
      pendingFades := pendingFades + [id];
    }

    // collectFadedGroups
    method CollectFadedGroups(w: World, fades: seq<nat>, now: int) returns (groups: seq<Group>)
      requires Valid()
      modifies `completedFades
      ensures Valid() && completedFades == Completed(fades, old(completedFades), now)
      ensures fresh(groups) && SameGroups(groups, FadedGroups(w, store.contacts, fades, old(completedFades)))
    {
      hide GroupSet, FadedGroups, Completed, Sound, Grouped, AllProper, SameGroups;
      ghost var before := completedFades;
      groups := [];
      ProperNone(store.contacts);
      FadedNone(w, store.contacts, before, now);
      for i := 0 to |fades|
        modifies `completedFades
        invariant completedFades == Completed(fades[..i], before, now)
        invariant fresh(groups) && SameGroups(groups, FadedGroups(w, store.contacts, fades[..i], before))
        invariant AllProper(store.contacts, groups)
      {
        var id := fades[i];
        ghost var specs := FadedGroups(w, store.contacts, fades[..i], before);
        FadedNext(w, store.contacts, fades, i, before, now);
        if id in completedFades {
          continue;
        }
        completedFades := completedFades[id := now];
        var trackfile := store.GetByID(id);
        if trackfile.None? {
          continue;
        }
        groups := AddUngrouped(w, store.contacts, groups, trackfile.value, specs);
      }
      assert fades[..|fades|] == fades;
    }

    // handleFaded: the groups passed to the faded callback, if there is one
    method HandleFaded(w: World, fades: seq<nat>, now: int, hasCallback: bool) returns (calls: seq<Group>)
      requires Valid()
      modifies `completedFades, store
      ensures Valid() && completedFades == Completed(fades, old(completedFades), now)
      ensures store.contacts == old(store.contacts) - (set f | f in fades)
      ensures fresh(calls)
      ensures SameGroups(calls, if hasCallback then FadedGroups(w, old(store.contacts), fades, old(completedFades)) else [])
    {
      hide Run, Disciplined, Removed, FadedGroups, SameGroup, GroupSet;
      var groups := CollectFadedGroups(w, fades, now);
      ghost var before := store.contacts;
      for i := 0 to |fades|
        modifies store
        invariant Valid()
        invariant store.contacts == before - (set f | f in fades[..i])
      {
        assert fades[..i + 1] == fades[..i] + [fades[i]];
        var ok := DeleteContact(fades[i]);
      }
      assert fades[..|fades|] == fades;
      calls := if hasCallback then groups else [];
    }

    // a tick of the fade collector
    method HandleTick(w: World, now: int, hasCallback: bool) returns (calls: seq<Group>)
      requires Valid()
      modifies this, store
      ensures Valid() && View() == Next(old(View()), Tick(now))
      ensures fresh(calls) && SameGroups(calls, if hasCallback then Calls(w, old(View()), Tick(now)) else [])
    {
      calls := [];
      if |pendingFades| > 0 && now > deadline {
        calls := HandleFaded(w, pendingFades, now, hasCallback);
        pendingFades := [];
      }
      CleanCompleted(now);
      extensions := 0;
    }

    method CleanCompleted(now: int)
      modifies `completedFades
      ensures completedFades == Cleaned(old(completedFades), now)
    {
      ghost var before := completedFades;
      var rest := completedFades.Keys;
      while rest != {}
        invariant rest <= before.Keys && completedFades.Keys <= before.Keys
        invariant forall id :: id in before ==>
                    (id in completedFades <==> id in rest || now - before[id] <= HISTORY)
        invariant forall id :: id in completedFades ==> completedFades[id] == before[id]
        decreases rest
      {
        var id :| id in rest;
        rest := rest - {id};
        var age := now - completedFades[id];
        if age > HISTORY {
          completedFades := completedFades - {id};
        }
      }
      assert completedFades == Cleaned(before, now);
    }

    // handleGarbageCollection: the trackfiles passed to the removal callback, if
    // there is one
    method HandleGarbageCollection(missionTime: int, hasCallback: bool) returns (removed: seq<Track>)
      requires Valid()
      modifies this, store
      ensures Valid() && View() == Next(old(View()), CollectGarbage(missionTime))
      ensures forall t :: t in removed <==>
                hasCallback && t in old(store.contacts).Values && t.id !in store.contacts
      ensures DistinctIDs(removed)
    {
      hide Run, Disciplined, Removed, Lists, ExpiredOf, IDs, DistinctIDs;
      NothingExpired(missionTime);
      removed := [];
      KeyedValues(store.contacts);
      if |pendingFades| > 0 {
        return;
      }
      ghost var before := store.contacts;
      var order := Values(store.contacts);
      ListedValues(before, order);
      for i := 0 to |order|
        modifies store
        invariant Valid()
        invariant store.contacts == before - IDs(ExpiredOf(order[..i], missionTime))
        invariant removed == if hasCallback then ExpiredOf(order[..i], missionTime) else []
      {
        var trackfile := order[i];
        ExpiredNext(before, order, i, missionTime);
        if trackfile.lastSeen.Some? && trackfile.lastSeen.value < missionTime - EXPIRY {
          var ok := DeleteContact(trackfile.id);
          if ok && hasCallback {
            removed := removed + [trackfile];
          }
        }
      }
      assert order[..|order|] == order;
      ExpiredGone(before, order, missionTime);
    }

    method DeleteContact(id: nat) returns (ok: bool)
      requires Valid()
      modifies store
      ensures Valid() && store.contacts == old(store.contacts) - {id} && ok == (id in old(store.contacts))
    {
      DisciplinedMore(store.history, DeleteOp(id));
      ok := store.Delete(id);
    }

    // handleStarted: whether the started callback is called
    method HandleStarted(hasCallback: bool) returns (called: bool)
      requires Valid()
      modifies this, store
      ensures Valid() && View() == Next(old(View()), Start) && called == hasCallback
    {
      DisciplinedMore(store.history, ResetOp);
      store.Reset();
      pendingFades := [];
      completedFades := map[];
      called := hasCallback;
    }

    // FindCallsign, up to the fuzzy search: in a run of the handlers that kept the
    // names in use, with no two of them heard alike, it agrees with a scan of the
    // contacts.
    method FindCallsign(callsign: string, c: Coalition, parse: string -> Option<string>)
      returns (foundCallsign: string, found: Option<Track>)
      requires Valid()
      ensures NamesKept(store.history) && HeardApart(store.Contents(), c, parse) ==>
                Scan(store.Contents(), callsign, c, parse, found)
      ensures foundCallsign == callsign
    {
      RunSound(store.history);
      ExactIff(store.history);
      foundCallsign, found := store.GetByCallsign(callsign, c, parse);
      if NamesKept(store.history) && HeardApart(store.Contents(), c, parse) {
        LookupIsScan(store.Contents(), callsign, c, parse, found);
      }
      foundCallsign := callsign;
    }
  }

  lemma KeyedValues(db: Contacts)
    requires Keyed(db)
    ensures forall t :: t in db.Values ==> t.id in db
  {
  }

  // The trackfiles of a listing that are too old.
  function ExpiredOf(ts: seq<Track>, missionTime: int): seq<Track> {
    if ts == [] then []
    else
      var init, t := ExpiredOf(ts[..|ts| - 1], missionTime), ts[|ts| - 1];
      if Expired(t, missionTime) then init + [t] else init
  }

  lemma {:induction false} ExpiredMembers(ts: seq<Track>, missionTime: int)
    ensures forall t :: t in ExpiredOf(ts, missionTime) <==> t in ts && Expired(t, missionTime)
    ensures DistinctIDs(ts) ==> DistinctIDs(ExpiredOf(ts, missionTime))
  {
    if ts != [] {
      var init, t := ts[..|ts| - 1], ts[|ts| - 1];
      assert ts == init + [t];
      ExpiredMembers(init, missionTime);
      forall u | DistinctIDs(ts) && u in ExpiredOf(init, missionTime) ensures u.id != t.id {
        assert u in init;
      }
    }
  }

  lemma NothingExpired(missionTime: int)
    ensures ExpiredOf([], missionTime) == [] && IDs([]) == {} && DistinctIDs([])
  {
  }

  // The next trackfile of a listing is still in the database.
  lemma ExpiredNext(db: Contacts, ts: seq<Track>, i: nat, missionTime: int)
    requires DistinctIDs(ts) && i < |ts| && (forall t :: t in ts <==> t in db.Values) && Keyed(db)
    ensures var before, after := ExpiredOf(ts[..i], missionTime), ExpiredOf(ts[..i + 1], missionTime);
      && ts[i].id in db - IDs(before)
      && after == (if Expired(ts[i], missionTime) then before + [ts[i]] else before)
      && IDs(after) == (if Expired(ts[i], missionTime) then IDs(before) + {ts[i].id} else IDs(before))
  {
    hide Expired;
    assert ts[..i + 1][..i] == ts[..i];
    ExpiredMembers(ts[..i], missionTime);
    assert ts[i] in ts;
  }

  // What is left, and what was removed, when all of a listing was looked at.
  lemma ExpiredGone(db: Contacts, ts: seq<Track>, missionTime: int)
    requires DistinctIDs(ts) && (forall t :: t in ts <==> t in db.Values) && Keyed(db)
    ensures var expired := ExpiredOf(ts, missionTime);
      && db - IDs(expired) == (map id | id in db && !Expired(db[id], missionTime) :: db[id])
      && DistinctIDs(expired)
      && forall t :: t in expired <==> t in db.Values && t.id !in db - IDs(expired)
  {
    hide Expired;
    ExpiredMembers(ts, missionTime);
    forall id | id in db ensures id in IDs(ExpiredOf(ts, missionTime)) <==> Expired(db[id], missionTime) {
      assert db[id] in db.Values;
    }
  }

  // A listing holds the values, and no two with one ID.
  lemma ListedValues(db: Contacts, order: seq<Track>)
    requires Keyed(db) && Lists(db, order)
    ensures DistinctIDs(order) && forall t :: t in order <==> t in db.Values
  {
    forall t | t in order ensures t in db.Values {
      var i :| 0 <= i < |order| && order[i] == t;
      assert Holds(db, order[i]);
    }
    forall t | t in db.Values ensures t in order {
      var id :| id in db && db[id] == t;
    }
  }

  // isTrackfileInGroup
  method IsTrackfileInGroup(candidate: Track, members: seq<Track>) returns (found: bool)
    ensures found <==> candidate.id in IDs(members)
  {
    found := false;
    for i := 0 to |members|
      invariant found <==> candidate.id in IDs(members[..i])
    {
      assert members[..i + 1] == members[..i] + [members[i]];
      if members[i].id == candidate.id {
        found := true;
      }
    }
    assert members[..|members|] == members;
  }

  ghost predicate AllProper(db: Contacts, groups: seq<Group>)
    reads groups
  {
    forall k :: 0 <= k < |groups| ==> Proper(db, groups[k].contacts)
  }

  lemma ProperNone(db: Contacts)
    ensures AllProper(db, []) && SameGroups([], [])
  {
  }

  lemma ProperMore(db: Contacts, groups: seq<Group>, g: Group)
    requires AllProper(db, groups) && Proper(db, g.contacts)
    ensures AllProper(db, groups + [g])
  {
  }

  // the loop over the groups so far
  method IsGrouped(db: Contacts, groups: seq<Group>, t: Track) returns (found: bool)
    requires AllProper(db, groups) && Holds(db, t)
    ensures found <==> exists k :: 0 <= k < |groups| && t in groups[k].contacts
  {
    hide Proper;
    found := false;
    for j := 0 to |groups|
      invariant forall k :: 0 <= k < j ==> t !in groups[k].contacts
    {
      KnownID(db, groups[j].contacts, t);
      found := IsTrackfileInGroup(t, groups[j].contacts);
      if found {
        break;
      }
    }
  }

  // a group for the trackfile unless one has it
  method AddUngrouped(w: World, db: Contacts, groups: seq<Group>, t: Track, ghost specs: seq<FadedGroup>)
    returns (after: seq<Group>)
    requires Keyed(db) && Holds(db, t) && AllProper(db, groups) && SameGroups(groups, specs)
    ensures AllProper(db, after)
    ensures SameGroups(after, if Grouped(specs, t) then specs else specs + [FadedGroup(t, GroupSet(w, db, t))])
    ensures after == groups || (exists g :: fresh(g) && after == groups + [g])
  {
    hide GroupSet, InGroup, Proper, Grouped, Members, AllProper;
    after := groups;
    var isGrouped := IsGrouped(db, groups, t);
    SameGrouped(groups, specs, t);
    if !isGrouped {
      var grp := FindGroupForAircraft(w, db, t);
      MembersAreGroup(w, db, t, grp.contacts);
      ProperStart(db, grp.contacts);
      ProperMore(db, groups, grp);
      after := groups + [grp];
    }
  }

  lemma ProperStart(db: Contacts, members: seq<Track>)
    requires Proper(db, members)
    ensures members != []
  {
  }

  lemma FadedNone(w: World, db: Contacts, completed: map<nat, int>, now: int)
    ensures FadedGroups(w, db, [], completed) == [] && Completed([], completed, now) == completed
  {
  }

  // One more fade.
  lemma FadedNext(w: World, db: Contacts, fades: seq<nat>, i: nat, completed: map<nat, int>, now: int)
    requires i < |fades|
    ensures var id, groups, done := fades[i], FadedGroups(w, db, fades[..i], completed), Completed(fades[..i], completed, now);
            && FadedGroups(w, db, fades[..i + 1], completed)
               == (if id in done || id !in db || Grouped(groups, db[id]) then groups
                   else groups + [FadedGroup(db[id], GroupSet(w, db, db[id]))])
            && Completed(fades[..i + 1], completed, now) == (if id in done then done else done[id := now])
  {
    hide GroupSet, Grouped;
    assert fades[..i + 1][..i] == fades[..i] && fades[..i + 1] == fades[..i] + [fades[i]];
  }

  lemma SameGrouped(groups: seq<Group>, specs: seq<FadedGroup>, t: Track)
    requires SameGroups(groups, specs)
    ensures Grouped(specs, t) <==> exists k :: 0 <= k < |groups| && t in groups[k].contacts
  {
    forall k | 0 <= k < |groups| ensures t in groups[k].contacts <==> t in specs[k].members {
      assert SameGroup(groups[k], specs[k]);
    }
    if k :| 0 <= k < |groups| && t in groups[k].contacts {
      assert specs[k] in specs && t in specs[k].members;
    }
    if Grouped(specs, t) {
      var g :| g in specs && t in g.members;
      var k :| 0 <= k < |specs| && specs[k] == g;
      assert t in groups[k].contacts;
    }
  }
}
