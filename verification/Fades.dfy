// How contacts enter and leave the radar: updates, fades that are collected and
// handled together, garbage collection, and mission starts.
module Fades {
  import opened Wrappers
  import opened Trackfiles
  import opened ContactDatabase
  import opened Grouping

  // Times are in seconds: those of the fade collector on the wall clock, those of
  // garbage collection on the mission clock.
  const SHORT_EXTENSION := 5
  const LONG_EXTENSION := 15
  const MAX_LONG_EXTENSIONS := 2
  const HISTORY := 300
  const EXPIRY := 60

  // ---- the state machine ----

  datatype State = State(
    contacts: Contacts, pending: seq<nat>, completed: map<nat, int>, deadline: int, extensions: nat)

  const INITIAL := State(map[], [], map[], 0, 0)

  datatype Event =
    | Update(labels: Labels, frame: Frame)
    | Fade(id: nat, now: int)
    | Tick(now: int)
    | CollectGarbage(missionTime: int)
    | Start

  // A group as it is passed to the faded callback.
  datatype FadedGroup = FadedGroup(seed: Track, members: set<Track>)

  ghost predicate Grouped(groups: seq<FadedGroup>, t: Track) {
    exists g :: g in groups && t in g.members
  }

  // collectFadedGroups: a group for every fade that was not handled recently, is
  // still tracked, and is not in a group already.
  ghost function FadedGroups(w: World, db: Contacts, fades: seq<nat>, completed: map<nat, int>): seq<FadedGroup> {
    if fades == [] then []
    else
      var init, id := fades[..|fades| - 1], fades[|fades| - 1];
      var groups := FadedGroups(w, db, init, completed);
      if id in completed || id in init || id !in db || Grouped(groups, db[id]) then groups
      else groups + [FadedGroup(db[id], GroupSet(w, db, db[id]))]
  }

  function Completed(fades: seq<nat>, completed: map<nat, int>, now: int): map<nat, int> {
    map id | id in completed.Keys + (set f | f in fades) :: if id in completed then completed[id] else now
  }

  function Cleaned(completed: map<nat, int>, now: int): map<nat, int> {
    map id | id in completed && now - completed[id] <= HISTORY :: completed[id]
  }

  predicate Due(s: State, now: int) {
    |s.pending| > 0 && now > s.deadline
  }

  predicate Expired(t: Track, missionTime: int) {
    t.lastSeen.Some? && t.lastSeen.value < missionTime - EXPIRY
  }

  function Handled(s: State, now: int): State {
    s.(contacts := s.contacts - (set f | f in s.pending),
       completed := Completed(s.pending, s.completed, now), pending := [])
  }

  function Next(s: State, e: Event): State {
    match e
    case Update(l, f) =>
      s.(contacts := s.contacts[l.id := if l.id in s.contacts then UpdateTrack(s.contacts[l.id], f) else NewTrack(l)])
    case Fade(id, now) =>
      if id !in s.contacts then s
      else
        s.(pending := s.pending + [id],
           deadline := now + (if s.extensions < MAX_LONG_EXTENSIONS then LONG_EXTENSION else SHORT_EXTENSION),
           extensions := s.extensions + 1)
    case Tick(now) =>
      var h := if Due(s, now) then Handled(s, now) else s;
      h.(completed := Cleaned(h.completed, now), extensions := 0)
    case CollectGarbage(missionTime) =>
      if |s.pending| > 0 then s
      else s.(contacts := map id | id in s.contacts && !Expired(s.contacts[id], missionTime) :: s.contacts[id])
    case Start => s.(contacts := map[], pending := [], completed := map[])
  }

  // The groups that an event passes to the faded callback.
  ghost function Calls(w: World, s: State, e: Event): seq<FadedGroup> {
    if e.Tick? && Due(s, e.now) then FadedGroups(w, s.contacts, s.pending, s.completed) else []
  }

  // The state after the first i events of a run.
  function After(events: seq<Event>, i: nat): State
    requires i <= |events|
  {
    if i == 0 then INITIAL else Next(After(events, i - 1), events[i - 1])
  }

  // ---- what every reachable state keeps ----

  ghost predicate Tracked(s: State) {
    Keyed(s.contacts) && forall id :: id in s.pending ==> id in s.contacts
  }

  // Every pending fade still has its trackfile.
  lemma {:induction false} PendingTracked(events: seq<Event>, i: nat)
    requires i <= |events|
    ensures Tracked(After(events, i))
  {
    if i > 0 {
      PendingTracked(events, i - 1);
    }
  }

  // ---- what handling the pending fades does ----

  // Each group is that of a pending fade that was not handled recently, which no
  // earlier group holds; every such fade is in some group.
  ghost predicate GroupsCover(w: World, db: Contacts, fades: seq<nat>, completed: map<nat, int>, groups: seq<FadedGroup>) {
    && (forall id :: id in fades && id !in completed && id in db ==> Grouped(groups, db[id]))
    && (forall k :: 0 <= k < |groups| ==>
          && groups[k].seed.id in fades && groups[k].seed.id !in completed
          && Holds(db, groups[k].seed) && groups[k].seed in groups[k].members
          && groups[k].members == GroupSet(w, db, groups[k].seed))
    && (forall j, k :: 0 <= j < k < |groups| ==> groups[k].seed !in groups[j].members)
  }

  lemma SeedIn(w: World, db: Contacts, t: Track)
    requires Holds(db, t)
    ensures t in GroupSet(w, db, t)
  {
    ReachesSelf(w, db, GroupCategory(w, t), t);
  }

  lemma GroupedMore(groups: seq<FadedGroup>, g: FadedGroup, t: Track)
    ensures Grouped(groups + [g], t) <==> Grouped(groups, t) || t in g.members
  {
    if Grouped(groups, t) {
      var h :| h in groups && t in h.members;
      assert h in groups + [g];
    }
    if t in g.members {
      assert g in groups + [g];
    }
  }

  lemma CoverMore(w: World, db: Contacts, fades: seq<nat>, completed: map<nat, int>, before: seq<FadedGroup>, id: nat)
    requires Keyed(db) && GroupsCover(w, db, fades, completed, before)
    requires id !in completed && id in db && !Grouped(before, db[id])
    ensures GroupsCover(w, db, fades + [id], completed, before + [FadedGroup(db[id], GroupSet(w, db, db[id]))])
  {
    hide GroupSet, Grouped;
    var g := FadedGroup(db[id], GroupSet(w, db, db[id]));
    var groups := before + [g];
    SeedIn(w, db, db[id]);
    forall f | f in fades + [id] && f !in completed && f in db ensures Grouped(groups, db[f]) {
      GroupedMore(before, g, db[f]);
    }
    forall j | 0 <= j < |before| ensures db[id] !in before[j].members {
      NotGrouped(before, db[id], j);
    }
  }

  lemma NotGrouped(groups: seq<FadedGroup>, t: Track, j: nat)
    requires !Grouped(groups, t) && j < |groups|
    ensures t !in groups[j].members
  {
    assert groups[j] in groups;
  }

  lemma {:induction false} FadedGroupsCover(w: World, db: Contacts, fades: seq<nat>, completed: map<nat, int>)
    requires Keyed(db)
    ensures GroupsCover(w, db, fades, completed, FadedGroups(w, db, fades, completed))
  {
    hide GroupSet, Grouped;
    if fades != [] {
      var init, id := fades[..|fades| - 1], fades[|fades| - 1];
      var before := FadedGroups(w, db, init, completed);
      FadedGroupsCover(w, db, init, completed);
      assert fades == init + [id];
      if !(id in completed || id in init || id !in db || Grouped(before, db[id])) {
        CoverMore(w, db, init, completed, before, id);
      }
    }
  }

  // When the pending fades are handled, every one that was not handled recently is
  // in a group passed to the callback, no group starts with a member of an earlier
  // one, and none of the fades is tracked or pending any more.
  lemma HandlingCovers(w: World, events: seq<Event>, i: nat)
    requires i < |events| && events[i].Tick? && Due(After(events, i), events[i].now)
    ensures var s, t := After(events, i), After(events, i + 1);
            && GroupsCover(w, s.contacts, s.pending, s.completed, Calls(w, s, events[i]))
            && (forall id :: id in s.pending && id !in s.completed ==>
                  id in s.contacts && Grouped(Calls(w, s, events[i]), s.contacts[id]))
            && (forall id :: id in s.pending ==> id !in t.contacts)
            && t.pending == []
  {
    hide GroupSet, FadedGroups, Grouped, After;
    PendingTracked(events, i);
    AfterNext(events, i);
    var s := After(events, i);
    FadedGroupsCover(w, s.contacts, s.pending, s.completed);
  }

  // ---- no repeated calls ----

  // The fade of this ID makes the event call a group for it.
  ghost predicate Seeds(w: World, events: seq<Event>, i: nat, id: nat)
    requires i < |events|
  {
    exists g :: g in Calls(w, After(events, i), events[i]) && g.seed.id == id
  }

  predicate TicksInOrder(events: seq<Event>) {
    forall i, j :: 0 <= i < j < |events| && events[i].Tick? && events[j].Tick? ==> events[i].now <= events[j].now
  }

  lemma SeedPending(w: World, s: State, e: Event, g: FadedGroup)
    requires Tracked(s) && g in Calls(w, s, e)
    ensures e.Tick? && Due(s, e.now) && g.seed.id in s.pending && g.seed.id !in s.completed
  {
    hide GroupSet, FadedGroups;
    FadedGroupsCover(w, s.contacts, s.pending, s.completed);
    var groups := Calls(w, s, e);
    var k :| 0 <= k < |groups| && groups[k] == g;
  }

  lemma TickCompletes(s: State, now: int, id: nat)
    requires Due(s, now) && id in s.pending && id !in s.completed
    ensures id in Next(s, Tick(now)).completed && Next(s, Tick(now)).completed[id] == now
  {
    assert id in Completed(s.pending, s.completed, now);
  }

  // The event handles a pending fade of this ID, which was not handled recently,
  // whether or not the ID comes to start a group.
  ghost predicate Handles(events: seq<Event>, i: nat, id: nat)
    requires i < |events|
  {
    var s, e := After(events, i), events[i];
    e.Tick? && Due(s, e.now) && id in s.pending && id !in s.completed
  }

  lemma SeedsHandles(w: World, events: seq<Event>, i: nat, id: nat)
    requires i < |events| && Seeds(w, events, i, id)
    ensures Handles(events, i, id)
  {
    hide Calls, Next, Due, After, Tracked;
    var s, e := After(events, i), events[i];
    PendingTracked(events, i);
    var g :| g in Calls(w, s, e) && g.seed.id == id;
    SeedPending(w, s, e, g);
  }

  lemma HandlesMeans(events: seq<Event>, i: nat, id: nat)
    requires i < |events| && Handles(events, i, id)
    ensures id in After(events, i + 1).completed && After(events, i + 1).completed[id] == events[i].now
  {
    hide Next, Due, After;
    TickCompletes(After(events, i), events[i].now, id);
    AfterNext(events, i);
  }

  lemma AfterNext(events: seq<Event>, i: nat)
    requires i < |events|
    ensures After(events, i + 1) == Next(After(events, i), events[i])
  {
  }

  lemma EntryKept(s: State, e: Event, id: nat)
    requires id in s.completed && e != Start
    requires e.Tick? ==> e.now - s.completed[id] <= HISTORY
    ensures id in Next(s, e).completed && Next(s, e).completed[id] == s.completed[id]
  {
  }

  // No mission has started since the event, and no tick come more than five minutes
  // after it.
  predicate Recent(events: seq<Event>, i: nat, k: nat)
    requires i < k <= |events| && events[i].Tick?
  {
    forall m :: i < m < k ==> events[m] != Start && (events[m].Tick? ==> events[m].now - events[i].now <= 300)
  }

  // Until a start or a tick more than five minutes later, the entry stays.
  lemma {:induction false} EntryStays(events: seq<Event>, i: nat, k: nat, id: nat)
    requires i < k <= |events| && Handles(events, i, id) && Recent(events, i, k)
    ensures id in After(events, k).completed && After(events, k).completed[id] == events[i].now
    decreases k
  {
    hide Next, After, Due;
    HandlesMeans(events, i, id);
    if k > i + 1 {
      EntryStays(events, i, k - 1, id);
      EntryKept(After(events, k - 1), events[k - 1], id);
      AfterNext(events, k - 1);
    }
  }

  // An entry is one from before, which no start and no late tick took, or of a fade
  // that is handled now.
  lemma EntryFrom(s: State, e: Event, id: nat)
    requires id in Next(s, e).completed
    ensures e != Start && (e.Tick? ==> e.now - Next(s, e).completed[id] <= 300)
    ensures if id in s.completed then Next(s, e).completed[id] == s.completed[id]
            else e.Tick? && Due(s, e.now) && id in s.pending
  {
  }

  lemma RecentMore(events: seq<Event>, i: nat, k: nat)
    requires i < k < |events| && events[i].Tick? && Recent(events, i, k)
    requires events[k] != Start && (events[k].Tick? ==> events[k].now - events[i].now <= 300)
    ensures Recent(events, i, k + 1)
  {
  }

  // An ID is in the history exactly when its fade was handled, no mission has started
  // since, and no tick has come more than five minutes later.
  lemma {:induction false} EntryIff(events: seq<Event>, k: nat, id: nat)
    requires k <= |events|
    ensures id in After(events, k).completed <==> exists i: nat :: i < k && Handles(events, i, id) && Recent(events, i, k)
  {
    hide Next, Due, Recent;
    if i: nat :| i < k && Handles(events, i, id) && Recent(events, i, k) {
      EntryStays(events, i, k, id);
    }
    if k > 0 && id in After(events, k).completed {
      var s, e := After(events, k - 1), events[k - 1];
      EntryFrom(s, e, id);
      EntryIff(events, k - 1, id);
      if id in s.completed {
        var i: nat :| i < k - 1 && Handles(events, i, id) && Recent(events, i, k - 1);
        EntryStays(events, i, k - 1, id);
        RecentMore(events, i, k - 1);
      } else {
        assert Handles(events, k - 1, id);
        assert Recent(events, k - 1, k) by { RecentNow(events, k - 1); }
      }
    }
  }

  lemma RecentNow(events: seq<Event>, k: nat)
    requires k < |events| && events[k].Tick?
    ensures Recent(events, k, k + 1)
  {
  }

  // An ID whose fade was handled starts no faded group until more than five
  // minutes have passed or a mission has started.
  lemma NoRepeatedCall(w: World, events: seq<Event>, i: nat, j: nat, id: nat)
    requires i < j < |events| && TicksInOrder(events)
    requires Handles(events, i, id) && Seeds(w, events, j, id)
    ensures events[j].Tick?
    ensures events[j].now - events[i].now > 300 || exists m :: i < m < j && events[m] == Start
  {
    hide Seeds;
    SeedsHandles(w, events, j, id);
    if Recent(events, i, j) {
      EntryStays(events, i, j, id);
    }
  }

  // ---- how long fades are collected ----

  predicate Counts(events: seq<Event>, k: nat)
    requires k < |events|
  {
    events[k].Fade? && events[k].id in After(events, k).contacts
  }

  // The fades of tracked contacts since the last tick, before event k.
  function FadesSinceTick(events: seq<Event>, k: nat): nat
    requires k <= |events|
  {
    if k == 0 || events[k - 1].Tick? then 0
    else FadesSinceTick(events, k - 1) + (if Counts(events, k - 1) then 1 else 0)
  }

  lemma {:induction false} ExtensionsCount(events: seq<Event>, k: nat)
    requires k <= |events|
    ensures After(events, k).extensions == FadesSinceTick(events, k)
  {
    if k > 0 {
      ExtensionsCount(events, k - 1);
    }
  }

  lemma {:induction false} DeadlineStays(events: seq<Event>, k: nat, j: nat)
    requires k < j <= |events| && Counts(events, k)
    requires forall m :: k < m < j ==> !Counts(events, m)
    ensures After(events, j).deadline == events[k].now + (if FadesSinceTick(events, k) < 2 then 15 else 5)
    decreases j
  {
    hide Completed, Cleaned;
    if k < j - 1 {
      DeadlineStays(events, k, j - 1);
      assert !Counts(events, j - 1);
    } else {
      ExtensionsCount(events, k);
    }
  }

  // Fades are handled only when none has come for more than 15 seconds after the
  // first two since a tick, or 5 seconds after a later one.
  lemma QuietBeforeHandling(events: seq<Event>, k: nat, i: nat)
    requires k < i < |events| && Counts(events, k) && forall m :: k < m < i ==> !Counts(events, m)
    requires events[i].Tick? && Due(After(events, i), events[i].now)
    ensures events[i].now > events[k].now + (if FadesSinceTick(events, k) < 2 then 15 else 5)
  {
    hide After;
    DeadlineStays(events, k, i);
  }

  // ---- which fades are handled, and when ----

  // How long after a fade the next one is waited for.
  function Wait(events: seq<Event>, k: nat): int
    requires k <= |events|
  {
    if FadesSinceTick(events, k) < 2 then 15 else 5
  }

  // Event k is the last fade of a tracked contact before event j, and neither a
  // start nor a tick after the wait has come since.
  ghost predicate Awaits(events: seq<Event>, k: nat, j: nat)
    requires j <= |events|
  {
    && k < j && Counts(events, k)
    && forall m :: k < m < j ==>
         && !Counts(events, m) && events[m] != Start
         && (events[m].Tick? ==> events[m].now <= events[k].now + Wait(events, k))
  }

  lemma AwaitsFirst(events: seq<Event>, k: nat)
    requires k < |events| && Counts(events, k)
    ensures Awaits(events, k, k + 1)
  {
  }

  lemma AwaitsStep(events: seq<Event>, k: nat, j: nat)
    requires k < j < |events| && !Counts(events, j)
    ensures Awaits(events, k, j + 1) <==>
      && Awaits(events, k, j) && events[j] != Start
      && (events[j].Tick? ==> events[j].now <= events[k].now + Wait(events, k))
  {
    hide Counts, Wait;
  }

  lemma AwaitsDeadline(events: seq<Event>, k: nat, j: nat)
    requires j <= |events| && Awaits(events, k, j)
    ensures k < j && Counts(events, k) && After(events, j).deadline == events[k].now + Wait(events, k)
    ensures j < |events| && Counts(events, j) ==> !Awaits(events, k, j + 1)
  {
    hide After, Counts;
    DeadlineStays(events, k, j);
  }

  lemma PendingNext(s: State, e: Event)
    ensures Next(s, e).pending ==
      if e == Start || (e.Tick? && Due(s, e.now)) then []
      else if e.Fade? && e.id in s.contacts then s.pending + [e.id]
      else s.pending
  {
  }

  // Fades are pending exactly while one is awaited.
  lemma {:induction false} AwaitedIff(events: seq<Event>, j: nat)
    requires j <= |events|
    ensures After(events, j).pending != [] <==> exists k: nat :: Awaits(events, k, j)
  {
    hide Next, Awaits, Wait;
    if j > 0 {
      var s, e := After(events, j - 1), events[j - 1];
      AwaitedIff(events, j - 1);
      PendingNext(s, e);
      if Counts(events, j - 1) {
        AwaitsFirst(events, j - 1);
      } else {
        forall k: nat
          ensures Awaits(events, k, j) <==>
            Awaits(events, k, j - 1) && e != Start && (e.Tick? ==> !Due(s, e.now))
        {
          AwaitsLast(events, k, j - 1);
        }
        if s.pending != [] {
          var k: nat :| Awaits(events, k, j - 1);
          assert e != Start && (e.Tick? ==> !Due(s, e.now)) ==> Awaits(events, k, j);
        }
      }
    } else {
      NothingAwaited(events);
    }
  }

  lemma NothingAwaited(events: seq<Event>)
    ensures forall k: nat :: !Awaits(events, k, 0)
  {
  }

  lemma AwaitsLast(events: seq<Event>, k: nat, j: nat)
    requires j < |events| && !Counts(events, j) && (After(events, j).pending == [] ==> !Awaits(events, k, j))
    ensures Awaits(events, k, j + 1) <==>
      Awaits(events, k, j) && events[j] != Start && (events[j].Tick? ==> !Due(After(events, j), events[j].now))
  {
    hide After, Counts, Wait;
    if k < j {
      AwaitsStep(events, k, j);
      if Awaits(events, k, j) {
        AwaitsDeadline(events, k, j);
      }
    }
  }

  // The tick comes after the wait for the fades that are pending.
  ghost predicate TickDue(events: seq<Event>, j: nat)
    requires j < |events|
  {
    events[j].Tick? && exists k: nat :: k < j && Awaits(events, k, j) && events[j].now > events[k].now + Wait(events, k)
  }

  // A tick handles the pending fades exactly when there are some, and more than 15
  // seconds have passed since the last of them, or 5 if two or more came before it
  // since a tick.
  lemma DueIff(events: seq<Event>, j: nat)
    requires j < |events|
    ensures events[j].Tick? && Due(After(events, j), events[j].now) <==> TickDue(events, j)
  {
    hide After, Awaits, Wait;
    AwaitedIff(events, j);
    forall k: nat | Awaits(events, k, j)
      ensures k < j && events[k].Fade? && After(events, j).deadline == events[k].now + Wait(events, k)
    {
      AwaitsDeadline(events, k, j);
    }
  }

  // The fade of this tracked contact came at event h, and has not been handled or
  // dropped by a start since.
  ghost predicate FadedSince(events: seq<Event>, h: nat, j: nat, id: nat)
    requires j <= |events|
  {
    && h < j && Counts(events, h) && events[h].id == id
    && forall m :: h < m < j ==> events[m] != Start && !TickDue(events, m)
  }

  lemma FadedStep(events: seq<Event>, h: nat, j: nat, id: nat)
    requires j < |events|
    ensures FadedSince(events, h, j + 1, id) <==>
      || (h == j && Counts(events, h) && events[h].id == id)
      || (FadedSince(events, h, j, id) && events[j] != Start && !TickDue(events, j))
  {
    hide Counts, TickDue;
  }

  lemma {:induction false} FadePending(events: seq<Event>, j: nat, id: nat)
    requires j <= |events|
    ensures id in After(events, j).pending <==> exists h: nat :: FadedSince(events, h, j, id)
  {
    hide Next, FadedSince, TickDue, Due;
    if j > 0 {
      var s, e := After(events, j - 1), events[j - 1];
      FadePending(events, j - 1, id);
      PendingNext(s, e);
      DueIff(events, j - 1);
      forall h: nat
        ensures FadedSince(events, h, j, id) <==>
          || (h == j - 1 && Counts(events, h) && events[h].id == id)
          || (FadedSince(events, h, j - 1, id) && e != Start && !TickDue(events, j - 1))
      {
        FadedStep(events, h, j - 1, id);
      }
      if Counts(events, j - 1) && e.id == id {
        assert FadedSince(events, j - 1, j, id);
      }
      if id in s.pending {
        var h: nat :| FadedSince(events, h, j - 1, id);
        assert e != Start && !TickDue(events, j - 1) ==> FadedSince(events, h, j, id);
      }
    } else {
      forall h: nat ensures !FadedSince(events, h, 0, id) {
        NothingFaded(events, h, id);
      }
    }
  }

  lemma NothingFaded(events: seq<Event>, h: nat, id: nat)
    ensures !FadedSince(events, h, 0, id)
  {
  }

  // A fade is handled by the first tick after the wait, unless its ID was handled
  // before and neither a start nor a tick more than five minutes later has come
  // since; and then its contact is in a group passed to the callback.
  lemma HandledIff(w: World, events: seq<Event>, j: nat, id: nat)
    requires j < |events|
    ensures Handles(events, j, id) <==>
      && TickDue(events, j) && (exists h: nat :: FadedSince(events, h, j, id))
      && !exists i: nat :: i < j && Handles(events, i, id) && Recent(events, i, j)
    ensures Handles(events, j, id) ==>
      var s := After(events, j);
      id in s.contacts && Grouped(Calls(w, s, events[j]), s.contacts[id])
  {
    hide After, FadedSince, TickDue, Recent, GroupsCover, Calls, Grouped, Due;
    DueIff(events, j);
    FadePending(events, j, id);
    EntryIff(events, j, id);
    if Handles(events, j, id) {
      HandlingCovers(w, events, j);
    }
  }

  // ---- which contacts are tracked ----

  // The event takes the contact out: a start; the tick that handles its fade; or
  // garbage collection, with no fade pending and the contact last seen more than a
  // minute before.
  ghost predicate Drops(events: seq<Event>, m: nat, id: nat)
    requires m < |events|
  {
    match events[m]
    case Start => true
    case Tick(_) => TickDue(events, m) && exists h: nat :: FadedSince(events, h, m, id)
    case CollectGarbage(missionTime) =>
      && (forall k: nat :: !Awaits(events, k, m))
      && id in After(events, m).contacts
      && After(events, m).contacts[id].lastSeen.Some?
      && After(events, m).contacts[id].lastSeen.value < missionTime - 60
    case _ => false
  }

  lemma ContactNext(events: seq<Event>, m: nat, id: nat)
    requires m < |events|
    ensures id in After(events, m + 1).contacts <==>
      || (events[m].Update? && events[m].labels.id == id)
      || (id in After(events, m).contacts && !Drops(events, m, id))
  {
    hide After, Awaits, FadedSince, TickDue, Completed, Cleaned;
    AfterNext(events, m);
    DueIff(events, m);
    FadePending(events, m, id);
    AwaitedIff(events, m);
  }

  // A contact is tracked exactly when some update of it has come and nothing has
  // taken it out since.
  lemma {:induction false} TrackedIff(events: seq<Event>, j: nat, id: nat)
    requires j <= |events|
    ensures id in After(events, j).contacts <==>
      exists h: nat :: h < j && events[h].Update? && events[h].labels.id == id && forall m :: h < m < j ==> !Drops(events, m, id)
  {
    hide After, Drops;
    if j == 0 {
      NothingTracked(events);
    } else {
      TrackedIff(events, j - 1, id);
      ContactNext(events, j - 1, id);
      if id in After(events, j - 1).contacts && !Drops(events, j - 1, id) {
        var h: nat :| h < j - 1 && events[h].Update? && events[h].labels.id == id && forall m :: h < m < j - 1 ==> !Drops(events, m, id);
        assert forall m :: h < m < j ==> !Drops(events, m, id);
      }
      if h: nat :| h < j && events[h].Update? && events[h].labels.id == id && forall m :: h < m < j ==> !Drops(events, m, id) {
        assert h < j - 1 ==> !Drops(events, j - 1, id);
      }
    }
  }

  lemma NothingTracked(events: seq<Event>)
    ensures After(events, 0).contacts == map[]
  {
  }

  // The frames of the updates of the ID from event i on, up to event j.
  function FramesOf(events: seq<Event>, i: nat, j: nat, id: nat): seq<Frame>
    requires i <= j <= |events|
    decreases j
  {
    if i == j then []
    else
      var e := events[j - 1];
      FramesOf(events, i, j - 1, id) + (if e.Update? && e.labels.id == id then [e.frame] else [])
  }

  // A contact has the labels of the update that brought it in, and the frames of those
  // behind that one.
  lemma {:induction false} ContactIs(events: seq<Event>, h: nat, j: nat, id: nat)
    requires h < j <= |events| && events[h].Update? && events[h].labels.id == id
    requires id !in After(events, h).contacts && forall m :: h < m < j ==> !Drops(events, m, id)
    ensures id in After(events, j).contacts
    ensures After(events, j).contacts[id] == UpdatedBy(NewTrack(events[h].labels), FramesOf(events, h + 1, j, id))
    decreases j
  {
    hide After, Drops, UpdateTrack;
    AfterNext(events, j - 1);
    if h < j - 1 {
      ContactIs(events, h, j - 1, id);
      ContactNext(events, j - 1, id);
      ContactKept(After(events, j - 1), events[j - 1], id);
      var fs := FramesOf(events, h + 1, j - 1, id);
      assert FramesOf(events, h + 1, j, id) ==
        fs + (if events[j - 1].Update? && events[j - 1].labels.id == id then [events[j - 1].frame] else []);
      assert fs + [] == fs && forall f: Frame :: (fs + [f])[..|fs|] == fs;
    }
  }

  lemma ContactKept(s: State, e: Event, id: nat)
    requires id in s.contacts && id in Next(s, e).contacts
    ensures Next(s, e).contacts[id] ==
      if e.Update? && e.labels.id == id then UpdateTrack(s.contacts[id], e.frame) else s.contacts[id]
  {
  }

  // ---- the same handlers, one mutex-protected operation at a time ----

  // A fade is looked up in the contacts before it is added to the pending fades,
  // and a start clears the contacts, the pending fades and the history one after
  // the other; other handlers may run in between. Garbage collection and a tick
  // hold the lock on the pending fades throughout.
  datatype FineState = FineState(radar: State, checked: Option<nat>)

  datatype FineEvent =
    | Whole(event: Event)
    | CheckFade(id: nat)
    | AppendFade(now: int)
    | ResetContacts
    | ClearPending
    | ClearCompleted

  function FineNext(s: FineState, e: FineEvent): FineState {
    match e
    case Whole(event) => s.(radar := Next(s.radar, event))
    case CheckFade(id) => s.(checked := if id in s.radar.contacts then Some(id) else None)
    case AppendFade(now) =>
      if s.checked.None? then s
      else
        var long := s.radar.extensions < MAX_LONG_EXTENSIONS;
        FineState(s.radar.(pending := s.radar.pending + [s.checked.value],
                           deadline := now + (if long then LONG_EXTENSION else SHORT_EXTENSION),
                           extensions := s.radar.extensions + 1), None)
    case ResetContacts => s.(radar := s.radar.(contacts := map[]))
    case ClearPending => s.(radar := s.radar.(pending := []))
    case ClearCompleted => s.(radar := s.radar.(completed := map[]))
  }

  // Two operations can leave a pending fade without a trackfile: adding a fade
  // whose trackfile went away after it was looked up, and resetting the contacts
  // while fades are pending. Every other operation keeps them tracked.
  lemma FineStepTracked(s: FineState, e: FineEvent)
    requires Tracked(s.radar)
    ensures Tracked(FineNext(s, e).radar) <==>
      && (e.AppendFade? && s.checked.Some? ==> s.checked.value in s.radar.contacts)
      && (e.ResetContacts? ==> s.radar.pending == [])
  {
    var t := FineNext(s, e).radar;
    if e.AppendFade? && s.checked.Some? {
      assert t.pending[|t.pending| - 1] == s.checked.value;
    }
    if e.ResetContacts? && s.radar.pending != [] {
      assert t.pending[0] in t.pending;
    }
  }

  function FineAfter(events: seq<FineEvent>, i: nat): FineState
    requires i <= |events|
  {
    if i == 0 then FineState(INITIAL, None) else FineNext(FineAfter(events, i - 1), events[i - 1])
  }

  // The operation is one of the two.
  predicate Loses(s: FineState, e: FineEvent) {
    || (e.AppendFade? && s.checked.Some? && s.checked.value !in s.radar.contacts)
    || (e.ResetContacts? && s.radar.pending != [])
  }

  ghost predicate TrackedAt(events: seq<FineEvent>, i: nat)
    requires i <= |events|
  {
    Tracked(FineAfter(events, i).radar)
  }

  predicate LosesAt(events: seq<FineEvent>, i: nat)
    requires i < |events|
  {
    Loses(FineAfter(events, i), events[i])
  }

  lemma FineStepAt(events: seq<FineEvent>, i: nat)
    requires i < |events| && TrackedAt(events, i)
    ensures TrackedAt(events, i + 1) <==> !LosesAt(events, i)
  {
    hide Tracked, FineNext;
    FineStepTracked(FineAfter(events, i), events[i]);
  }

  lemma {:induction false} TrackedIffNoLoss(events: seq<FineEvent>, n: nat)
    requires n <= |events|
    ensures (forall i :: 0 <= i <= n ==> TrackedAt(events, i)) <==> (forall i :: 0 <= i < n ==> !LosesAt(events, i))
  {
    if n == 0 {
      assert TrackedAt(events, 0);
    } else {
      hide TrackedAt, LosesAt;
      TrackedIffNoLoss(events, n - 1);
      if TrackedAt(events, n - 1) {
        FineStepAt(events, n - 1);
      }
    }
  }

  // ---- what such a loss takes, in terms of events ----

  predicate Present(events: seq<FineEvent>, i: nat, id: nat)
    requires i <= |events|
  {
    id in FineAfter(events, i).radar.contacts
  }

  // The event takes the contact out.
  predicate Removes(events: seq<FineEvent>, j: nat, id: nat)
    requires j < |events|
  {
    Present(events, j, id) && !Present(events, j + 1, id)
  }

  // The event is an update of the contact.
  predicate Restores(e: FineEvent, id: nat) {
    e.Whole? && e.event.Update? && e.event.labels.id == id
  }

  // Only handling the fade, garbage collection, a start and a reset of the contacts
  // take a contact out, and only an update brings it back.
  lemma ContactStep(events: seq<FineEvent>, j: nat, id: nat)
    requires j < |events|
    ensures Removes(events, j, id) ==>
      || events[j] == ResetContacts
      || (events[j].Whole? && (events[j].event.Tick? || events[j].event.CollectGarbage? || events[j].event == Start))
    ensures !Present(events, j, id) ==> (Present(events, j + 1, id) <==> Restores(events[j], id))
  {
  }

  // Between k and m an event takes the contact out, and none brings it back.
  predicate Gone(events: seq<FineEvent>, k: nat, m: nat, id: nat)
    requires m <= |events|
  {
    exists j :: k <= j < m && GoneAt(events, j, m, id)
  }

  predicate GoneAt(events: seq<FineEvent>, j: nat, m: nat, id: nat)
    requires j < m <= |events|
  {
    Removes(events, j, id) && forall l :: j < l < m ==> !Restores(events[l], id)
  }

  lemma GoneStep(events: seq<FineEvent>, k: nat, m: nat, id: nat)
    requires k < m <= |events|
    ensures Gone(events, k, m, id) <==>
      Removes(events, m - 1, id) || (Gone(events, k, m - 1, id) && !Restores(events[m - 1], id))
  {
    hide Removes, Restores;
    if Gone(events, k, m, id) {
      var j :| k <= j < m && GoneAt(events, j, m, id);
      assert j < m - 1 ==> GoneAt(events, j, m - 1, id);
    }
    if Removes(events, m - 1, id) {
      assert GoneAt(events, m - 1, m, id);
    } else if Gone(events, k, m - 1, id) && !Restores(events[m - 1], id) {
      var j :| k <= j < m - 1 && GoneAt(events, j, m - 1, id);
      assert GoneAt(events, j, m, id);
    }
  }

  lemma {:induction false} GoneIff(events: seq<FineEvent>, k: nat, m: nat, id: nat)
    requires k <= m <= |events| && Present(events, k, id)
    ensures !Present(events, m, id) <==> Gone(events, k, m, id)
    decreases m
  {
    if k < m {
      GoneIff(events, k, m - 1, id);
      GoneStep(events, k, m, id);
      ContactStep(events, m - 1, id);
    }
  }

  // The fade of the contact is looked up at k, and it is the one at hand at m.
  predicate Checked(events: seq<FineEvent>, k: nat, m: nat, id: nat)
    requires m <= |events|
  {
    && k < m && events[k] == CheckFade(id) && Present(events, k, id)
    && forall l :: k < l < m ==> !events[l].CheckFade? && !events[l].AppendFade?
  }

  lemma CheckedStep(events: seq<FineEvent>, k: nat, m: nat, id: nat)
    requires 0 < m <= |events|
    ensures Checked(events, k, m, id) <==>
      if k == m - 1 then events[k] == CheckFade(id) && Present(events, k, id)
      else Checked(events, k, m - 1, id) && !events[m - 1].CheckFade? && !events[m - 1].AppendFade?
  {
    hide Present;
  }

  lemma {:induction false} CheckedIff(events: seq<FineEvent>, m: nat, id: nat)
    requires m <= |events|
    ensures FineAfter(events, m).checked == Some(id) <==> exists k: nat :: Checked(events, k, m, id)
  {
    if m > 0 {
      hide Checked, Next;
      CheckedIff(events, m - 1, id);
      CheckedStep(events, m - 1, m, id);
      forall k: nat
        ensures Checked(events, k, m, id) <==>
          if k == m - 1 then events[k] == CheckFade(id) && Present(events, k, id)
          else Checked(events, k, m - 1, id) && !events[m - 1].CheckFade? && !events[m - 1].AppendFade?
      {
        CheckedStep(events, k, m, id);
      }
      if FineAfter(events, m).checked == Some(id) && !events[m - 1].CheckFade? {
        var k: nat :| Checked(events, k, m - 1, id);
        assert Checked(events, k, m, id);
      }
    }
  }

  // The event adds a fade to the pending ones.
  predicate Adds(events: seq<FineEvent>, k: nat)
    requires k < |events|
  {
    || (events[k].Whole? && events[k].event.Fade? && Present(events, k, events[k].event.id))
    || (events[k].AppendFade? && FineAfter(events, k).checked.Some?)
  }

  // The event leaves no fade pending.
  predicate Empties(events: seq<FineEvent>, k: nat)
    requires k < |events|
  {
    || events[k] == ClearPending
    || (events[k].Whole? && events[k].event == Start)
    || (events[k].Whole? && events[k].event.Tick? && Due(FineAfter(events, k).radar, events[k].event.now))
  }

  predicate PendingSince(events: seq<FineEvent>, m: nat)
    requires m <= |events|
  {
    exists k :: 0 <= k < m && Adds(events, k) && forall l :: k < l < m ==> !Empties(events, l)
  }

  lemma PendingStep(events: seq<FineEvent>, m: nat)
    requires m < |events|
    ensures FineAfter(events, m + 1).radar.pending != []
       <==> Adds(events, m) || (FineAfter(events, m).radar.pending != [] && !Empties(events, m))
  {
    hide Completed, Cleaned;
  }

  lemma {:induction false} PendingIff(events: seq<FineEvent>, m: nat)
    requires m <= |events|
    ensures FineAfter(events, m).radar.pending != [] <==> PendingSince(events, m)
  {
    if m > 0 {
      hide FineNext, Adds, Empties;
      PendingIff(events, m - 1);
      PendingStep(events, m - 1);
      if PendingSince(events, m) && !Adds(events, m - 1) {
        var k :| 0 <= k < m && Adds(events, k) && forall l :: k < l < m ==> !Empties(events, l);
        assert k < m - 1 && !Empties(events, m - 1);
      }
      if PendingSince(events, m - 1) && !Empties(events, m - 1) {
        var k :| 0 <= k < m - 1 && Adds(events, k) && forall l :: k < l < m - 1 ==> !Empties(events, l);
        assert forall l :: k < l < m ==> !Empties(events, l);
      }
    }
  }

  // A fade is added whose contact was there when it was looked up, and was taken out
  // and not brought back since.
  ghost predicate AddsGone(events: seq<FineEvent>, m: nat)
    requires m < |events|
  {
    events[m].AppendFade? && exists k: nat, id: nat :: Checked(events, k, m, id) && Gone(events, k, m, id)
  }

  // The contacts are reset when a fade was added and the pending ones not emptied since.
  predicate ResetsPending(events: seq<FineEvent>, m: nat)
    requires m < |events|
  {
    events[m] == ResetContacts && PendingSince(events, m)
  }

  lemma LossIs(events: seq<FineEvent>, m: nat)
    requires m < |events|
    ensures LosesAt(events, m) <==> AddsGone(events, m) || ResetsPending(events, m)
  {
    hide FineAfter, Gone;
    PendingIff(events, m);
    if events[m].AppendFade? {
      forall k: nat, id: nat | Checked(events, k, m, id)
        ensures FineAfter(events, m).checked == Some(id) && (Gone(events, k, m, id) <==> !Present(events, m, id))
      {
        CheckedIff(events, m, id);
        GoneIff(events, k, m, id);
      }
      if FineAfter(events, m).checked.Some? {
        var id := FineAfter(events, m).checked.value;
        CheckedIff(events, m, id);
        var k: nat :| Checked(events, k, m, id);
        assert Gone(events, k, m, id) <==> !Present(events, m, id);
      }
    }
  }

  // Over a run at that grain every pending fade is tracked all the time if and only
  // if no fade is added after its contact went away, and the contacts are not reset
  // while fades are pending.
  lemma FineRunTracked(events: seq<FineEvent>, n: nat)
    requires n <= |events|
    ensures (forall i :: 0 <= i <= n ==> TrackedAt(events, i))
       <==> forall m :: 0 <= m < n ==> !AddsGone(events, m) && !ResetsPending(events, m)
  {
    hide *;
    TrackedIffNoLoss(events, n);
    forall m | 0 <= m < n ensures LosesAt(events, m) <==> AddsGone(events, m) || ResetsPending(events, m) {
      LossIs(events, m);
    }
  }

  // A contact last seen at 0 is looked up for its fade, collected as garbage, and
  // its fade added all the same: when it is handled, no call is made for it.
  const RACE: seq<FineEvent> := [
    Whole(Update(Labels(7, "Viper 1 1", Blue, "F-16C"), Frame(0, Point(1.0, 1.0), None, 300.0))),
    Whole(Update(Labels(7, "Viper 1 1", Blue, "F-16C"), Frame(0, Point(1.0, 1.0), None, 300.0))),
    CheckFade(7), Whole(CollectGarbage(100)), AppendFade(0)]

  lemma FadeLost(w: World)
    ensures var s := FineAfter(RACE, 5).radar;
            && !Tracked(s) && s.pending == [7] && 7 !in s.completed
            && Due(s, 20) && Calls(w, s, Tick(20)) == []
  {
    var l, f := Labels(7, "Viper 1 1", Blue, "F-16C"), Frame(0, Point(1.0, 1.0), None, 300.0);
    var t := UpdateTrack(NewTrack(l), f);
    assert FineAfter(RACE, 0) == FineState(INITIAL, None);
    assert FineAfter(RACE, 1).radar.contacts == map[7 := NewTrack(l)];
    assert FineAfter(RACE, 2).radar.contacts == map[7 := t];
    assert FineAfter(RACE, 3) == FineState(INITIAL.(contacts := map[7 := t]), Some(7));
    assert FineAfter(RACE, 4) == FineState(INITIAL, Some(7));
    var s := FineAfter(RACE, 5).radar;
    assert s == State(map[], [7], map[], 15, 1);
    assert s.pending[..|s.pending| - 1] == [] && 7 !in s.contacts;
    assert FadedGroups(w, s.contacts, [], s.completed) == [];
    assert FadedGroups(w, s.contacts, s.pending, s.completed) == [];
  }
}
