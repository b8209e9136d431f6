// Which friendlies each hostile has merged with: a table of sets that stands for
// a set of pairs, and the hysteresis by which pairs enter and leave it.
module Merges {
  import opened Trackfiles

  const MERGE_ENTRY_DISTANCE := 3.0 // nautical miles
  const MERGE_EXIT_DISTANCE := 5.0

  type Table = map<nat, set<nat>>

  // The pair is in the table.
  predicate Has(t: Table, hostile: nat, friend: nat) {
    hostile in t && friend in t[hostile]
  }

  // No hostile is kept without a friendly.
  predicate NoEmpty(t: Table) {
    forall h :: h in t ==> t[h] != {}
  }

  // ---- the pairs that a table stands for ----

  type Pair = (nat, nat)

  // The pairs that a table stands for.
  function Pairs(t: Table): set<Pair> {
    set h, f | h in t && f in t[h] :: (h, f)
  }

  lemma PairsHas(t: Table)
    ensures forall h: nat, f: nat :: (h, f) in Pairs(t) <==> Has(t, h, f)
  {
  }

  datatype Event =
    | Sight(hostile: nat, friend: nat, seen: Observation)
    | SeparateEvent(hostile: nat, friend: nat)
    | KeepEvent(ids: set<nat>)
    | RemoveEvent(id: nat)
    | ResetEvent

  ghost predicate IsHostile(pairs: set<Pair>, id: nat) {
    exists f :: (id, f) in pairs
  }

  // What the operations of the tracker do to the set of pairs.
  ghost function Next(pairs: set<Pair>, e: Event): set<Pair> {
    match e
    case Sight(h, f, o) =>
      if Observed((h, f) in pairs, o) then pairs + {(h, f)} else pairs - {(h, f)}
    case SeparateEvent(h, f) => pairs - {(h, f)}
    case KeepEvent(ids) => set p | p in pairs && p.0 in ids
    case RemoveEvent(id) =>
      if IsHostile(pairs, id) then set p | p in pairs && p.0 != id
      else set p | p in pairs && p.1 != id
    case ResetEvent => {}
  }

  lemma HostileIsKey(t: Table, id: nat)
    requires NoEmpty(t)
    ensures IsHostile(Pairs(t), id) <==> id in t
  {
    if id in t {
      var f :| f in t[id];
      assert (id, f) in Pairs(t);
    }
  }

  lemma PairsRemoved(before: Table, after: Table, id: nat)
    requires NoEmpty(before)
    requires forall h, f :: Has(after, h, f) <==> Has(before, h, f) && (if id in before then h != id else f != id)
    ensures Pairs(after) == Next(Pairs(before), RemoveEvent(id))
  {
    PairsHas(before);
    PairsHas(after);
    HostileIsKey(before, id);
  }

  // ---- the update for a group ----

  // The pairs after an update, and the friendlies that it reports as newly merged.
  datatype Updated = Updated(pairs: set<Pair>, newlyMerged: seq<Track>)

  function Separated(pairs: set<Pair>, hostile: nat, friends: set<nat>): set<Pair> {
    set p | p in pairs && (p.0 == hostile ==> p.1 in friends)
  }

  function FriendIDs(friendlies: seq<Track>): set<nat> {
    set t | t in friendlies :: t.id
  }

  // One hostile is seen with each friendly in turn.
  ghost function Sighted(w: World, hostile: Track, pairs: set<Pair>, friendlies: seq<Track>): Updated {
    if friendlies == [] then Updated(pairs, [])
    else
      var u, t := Sighted(w, hostile, pairs, friendlies[..|friendlies| - 1]), friendlies[|friendlies| - 1];
      var after := Next(u.pairs, Sight(hostile.id, t.id, Observe(w, hostile, t)));
      var isNew := (hostile.id, t.id) !in u.pairs && (hostile.id, t.id) in after;
      Updated(after, if isNew then u.newlyMerged + [t] else u.newlyMerged)
  }

  ghost function HostileStep(w: World, scope: Contacts, pairs: set<Pair>, h: nat, friendlies: seq<Track>): Updated {
    var rest := Separated(pairs, h, FriendIDs(friendlies));
    if h !in scope then Updated(Next(rest, RemoveEvent(h)), [])
    else Sighted(w, scope[h], rest, friendlies)
  }

  ghost function GroupStep(w: World, scope: Contacts, pairs: set<Pair>, hostiles: seq<nat>, friendlies: seq<Track>): Updated {
    if hostiles == [] then Updated(pairs, [])
    else
      var u := GroupStep(w, scope, pairs, hostiles[..|hostiles| - 1], friendlies);
      var v := HostileStep(w, scope, u.pairs, hostiles[|hostiles| - 1], friendlies);
      Updated(v.pairs, u.newlyMerged + v.newlyMerged)
  }

  // ---- the tracker ----

  class MergeTracker {
    var merged: Table

    ghost predicate Valid()
      reads this
    {
      NoEmpty(merged)
    }

    constructor ()
      ensures Valid() && forall h, f :: !Has(merged, h, f)
    {
      merged := map[];
    }

    // merge
    method Merge(hostile: nat, friend: nat)
      requires Valid()
      modifies this
      ensures Valid()
      ensures forall h, f :: Has(merged, h, f) <==> old(Has(merged, h, f)) || (h == hostile && f == friend)
    {
      var friends := if hostile in merged then merged[hostile] else {};
      merged := merged[hostile := friends + {friend}];
    }

    // isMerged
    method IsMerged(hostile: nat, friend: nat) returns (yes: bool)
      ensures yes <==> Has(merged, hostile, friend)
    {
      if hostile !in merged {
        return false;
      }
      yes := friend in merged[hostile];
    }

    // friendliesMergedWith
    method FriendliesMergedWith(hostiles: seq<nat>) returns (friends: set<nat>)
      ensures forall f :: f in friends <==> exists h :: h in hostiles && Has(merged, h, f)
    {
      friends := {};
      for i := 0 to |hostiles|
        invariant forall f :: f in friends <==> exists k :: 0 <= k < i && Has(merged, hostiles[k], f)
      {
        if hostiles[i] in merged {
          friends := friends + merged[hostiles[i]];
        }
      }
      forall f ensures f in friends <==> exists h :: h in hostiles && Has(merged, h, f) {
        if h :| h in hostiles && Has(merged, h, f) {
          var k :| 0 <= k < |hostiles| && hostiles[k] == h;
        }
      }
    }

    // separate
    method Separate(hostile: nat, friend: nat)
      requires Valid()
      modifies this
      ensures Valid()
      ensures forall h, f :: Has(merged, h, f) <==> old(Has(merged, h, f)) && !(h == hostile && f == friend)
      ensures Pairs(merged) == Next(old(Pairs(merged)), SeparateEvent(hostile, friend))
    {
      PairsHas(merged);
      if hostile in merged {
        var friends := merged[hostile] - {friend};
        assert forall f :: f in merged[hostile] && f != friend ==> f in friends;
        merged := merged[hostile := friends];
        if friends == {} {
          merged := merged - {hostile};
        }
      }
      PairsHas(merged);
    }

    // remove: an ID that is a hostile's goes with all its pairs; any other ID is
    // taken from the friendlies of every hostile.
    method Remove(id: nat)
      requires Valid()
      modifies this
      ensures Valid()
      ensures forall h, f :: Has(merged, h, f) <==>
                old(Has(merged, h, f)) && (if id in old(merged) then h != id else f != id)
      ensures Pairs(merged) == Next(old(Pairs(merged)), RemoveEvent(id))
    {
      hide Pairs, Next, IsHostile;
      ghost var before := merged;
      if id in merged {
        merged := merged - {id};
      } else {
        var rest := merged.Keys;
        while rest != {}
          invariant rest <= before.Keys && merged.Keys <= before.Keys
          invariant Valid()
          invariant forall h :: h in rest ==> h in merged && merged[h] == before[h]
          invariant forall h, f :: Has(merged, h, f) <==> Has(before, h, f) && (h in rest || f != id)
          decreases rest
        {
          var h :| h in rest;
          rest := rest - {h};
          var friends := merged[h] - {id};
          ghost var during := merged;
          assert forall f :: Has(before, h, f) && f != id ==> f in friends;
          merged := merged[h := friends];
          if friends == {} {
            merged := merged - {h};
          }
          assert forall f :: Has(merged, h, f) <==> Has(before, h, f) && f != id;
          assert forall g, f :: g != h ==> (Has(merged, g, f) <==> Has(during, g, f));
        }
      }
      PairsRemoved(before, merged, id);
    }

    // keep
    method Keep(ids: seq<nat>)
      requires Valid()
      modifies this
      ensures Valid()
      ensures forall h, f :: Has(merged, h, f) <==> old(Has(merged, h, f)) && h in ids
      ensures Pairs(merged) == Next(old(Pairs(merged)), KeepEvent(set id | id in ids))
    {
      PairsHas(merged);
      ghost var before := merged;
      var rest := merged.Keys;
      while rest != {}
        invariant rest <= before.Keys && merged.Keys <= before.Keys
        invariant forall h :: h in merged ==> merged[h] == before[h]
        invariant forall h :: h in before ==> (h in merged <==> h in rest || h in ids)
        decreases rest
      {
        var h :| h in rest;
        rest := rest - {h};
        if h !in ids {
          merged := merged - {h};
        }
      }
      PairsHas(merged);
    }

    // reset
    method Reset()
      modifies this
      ensures Valid() && Pairs(merged) == Next(old(Pairs(merged)), ResetEvent)
    {
      merged := map[];
    }

    // updateMergesForContact
    method UpdateMergesForContact(w: World, hostile: Track, friendly: Track) returns (isNew: bool)
      requires Valid()
      modifies this
      ensures Valid()
      ensures forall h, f :: Has(merged, h, f) <==>
                if h == hostile.id && f == friendly.id
                then Observed(old(Has(merged, h, f)), Observe(w, hostile, friendly))
                else old(Has(merged, h, f))
      ensures isNew <==> !old(Has(merged, hostile.id, friendly.id)) && Has(merged, hostile.id, friendly.id)
      ensures Pairs(merged) == Next(old(Pairs(merged)), Sight(hostile.id, friendly.id, Observe(w, hostile, friendly)))
    {
      PairsHas(merged);
      isNew := false;
      var isMerged := IsMerged(hostile.id, friendly.id);
      if IsZero(friendly.point) || IsZero(hostile.point) {
        Separate(hostile.id, friendly.id);
      } else {
        var distance := w.distance(friendly.point, hostile.point);
        var enteredMerge := distance < MERGE_ENTRY_DISTANCE;
        var exitedMerge := distance > MERGE_EXIT_DISTANCE;
        if !isMerged && enteredMerge {
          Merge(hostile.id, friendly.id);
          isNew := true;
        } else if isMerged && exitedMerge {
          Separate(hostile.id, friendly.id);
        }
      }
      PairsHas(merged);
    }

    // the friendlies that are not reported with the hostile any more
    method SeparateOthers(hostileID: nat, friendIDs: set<nat>)
      requires Valid()
      modifies this
      ensures Valid()
      ensures Pairs(merged) == Separated(old(Pairs(merged)), hostileID, friendIDs)
    {
      ghost var before := merged;
      var rest := FriendliesMergedWith([hostileID]);
      assert forall f :: f in rest <==> Has(before, hostileID, f) by {
        assert hostileID in [hostileID];
      }
      while rest != {}
        invariant Valid()
        invariant forall h, f :: Has(merged, h, f) <==> Has(before, h, f) && (h == hostileID ==> f in friendIDs || f in rest)
        decreases rest
      {
        var friend :| friend in rest;
        rest := rest - {friend};
        if friend !in friendIDs {
          Separate(hostileID, friend);
        }
      }
      PairsHas(before);
      PairsHas(merged);
    }

    // one turn of updateMergesForGroup: the friendlies newly merged with one hostile
    method UpdateMergesForHostile(w: World, scope: Contacts, hostileID: nat, friendlies: seq<Track>) returns (newlyMerged: seq<Track>)
      requires Valid() && Keyed(scope)
      modifies this
      ensures Valid()
      ensures Updated(Pairs(merged), newlyMerged) == HostileStep(w, scope, old(Pairs(merged)), hostileID, friendlies)
    {
      hide Pairs, Next, Separated;
      SeparateOthers(hostileID, set t | t in friendlies :: t.id);
      newlyMerged := [];
      if hostileID !in scope {
        Remove(hostileID);
        return;
      }
      var hostile := scope[hostileID];
      ghost var before := Pairs(merged);
      for i := 0 to |friendlies|
        invariant Valid()
        invariant Updated(Pairs(merged), newlyMerged) == Sighted(w, hostile, before, friendlies[..i])
      {
        assert friendlies[..i + 1][..i] == friendlies[..i];
        PairsHas(merged);
        var isNew := UpdateMergesForContact(w, hostile, friendlies[i]);
        PairsHas(merged);
        if isNew {
          newlyMerged := newlyMerged + [friendlies[i]];
        }
      }
      assert friendlies[..|friendlies|] == friendlies;
    }

    // updateMergesForGroup
    method UpdateMergesForGroup(w: World, scope: Contacts, hostileIDs: seq<nat>, friendlies: seq<Track>) returns (newlyMerged: seq<Track>)
      requires Valid() && Keyed(scope)
      modifies this
      ensures Valid()
      ensures Updated(Pairs(merged), newlyMerged) == GroupStep(w, scope, old(Pairs(merged)), hostileIDs, friendlies)
    {
      hide Pairs, HostileStep;
      ghost var before := Pairs(merged);
      newlyMerged := [];
      for i := 0 to |hostileIDs|
        invariant Valid()
        invariant Updated(Pairs(merged), newlyMerged) == GroupStep(w, scope, before, hostileIDs[..i], friendlies)
      {
        assert hostileIDs[..i + 1][..i] == hostileIDs[..i];
        var more := UpdateMergesForHostile(w, scope, hostileIDs[i], friendlies);
        newlyMerged := newlyMerged + more;
      }
      assert hostileIDs[..|hostileIDs|] == hostileIDs;
    }
  }

  lemma ByID(ts: seq<Track>, t: Track)
    requires DistinctIDs(ts) && t in ts
    ensures forall u :: u in ts && u.id == t.id ==> u == t
  {
  }

  // ---- hysteresis ----

  // What one update sees of a pair: no position for one of them, or the distance.
  datatype Observation = NoPosition | Distance(miles: real)

  function Observe(w: World, hostile: Track, friendly: Track): Observation {
    if IsZero(friendly.point) || IsZero(hostile.point) then NoPosition
    else Distance(w.distance(friendly.point, hostile.point))
  }

  predicate Entered(o: Observation) {
    o.Distance? && o.miles < MERGE_ENTRY_DISTANCE
  }

  predicate Exited(o: Observation) {
    o.NoPosition? || o.miles > MERGE_EXIT_DISTANCE
  }

  predicate Observed(isMerged: bool, o: Observation) {
    if isMerged then !Exited(o) else Entered(o)
  }

  // Whether a pair is merged after a group with the hostile was updated: only if
  // both are reported, and then by what is seen of them.
  predicate HostileUpdated(w: World, scope: Contacts, h: nat, friendlies: seq<Track>, f: nat, before: bool) {
    h in scope && exists t :: t in friendlies && t.id == f && Close(w, scope[h], t, before)
  }

  // Both have positions, less than 3 NM apart, or at most 5 NM if the pair is merged.
  predicate Close(w: World, hostile: Track, friendly: Track, before: bool) {
    && (friendly.point.lon != 0.0 || friendly.point.lat != 0.0)
    && (hostile.point.lon != 0.0 || hostile.point.lat != 0.0)
    && var miles := w.distance(friendly.point, hostile.point);
       if before then miles <= 5.0 else miles < 3.0
  }

  lemma CloseIff(w: World, hostile: Track, friendly: Track, before: bool)
    ensures Close(w, hostile, friendly, before) <==> Observed(before, Observe(w, hostile, friendly))
  {
  }

  // Seeing the same thing again changes nothing.
  lemma UpdatedTwice(w: World, scope: Contacts, h: nat, friendlies: seq<Track>, f: nat, before: bool)
    requires DistinctIDs(friendlies)
    ensures var once := HostileUpdated(w, scope, h, friendlies, f, before);
            HostileUpdated(w, scope, h, friendlies, f, once) == once
  {
    if HostileUpdated(w, scope, h, friendlies, f, before) {
      var t :| t in friendlies && t.id == f && Observed(before, Observe(w, scope[h], t));
      assert Observed(true, Observe(w, scope[h], t));
    } else if h in scope && exists t :: t in friendlies && t.id == f {
      var t :| t in friendlies && t.id == f;
      assert !Observed(before, Observe(w, scope[h], t));
      assert !Observed(false, Observe(w, scope[h], t));
      ByID(friendlies, t);
    }
  }

  // ---- what the update for a group does to each pair ----

  lemma {:induction false} SightedPairs(w: World, hostile: Track, pairs: set<Pair>, friendlies: seq<Track>, h: nat, f: nat)
    requires DistinctIDs(friendlies)
    ensures var after := Sighted(w, hostile, pairs, friendlies).pairs;
      && (h != hostile.id || f !in FriendIDs(friendlies) ==> ((h, f) in after <==> (h, f) in pairs))
      && (forall t :: t in friendlies && t.id == f && h == hostile.id ==>
            ((h, f) in after <==> Observed((h, f) in pairs, Observe(w, hostile, t))))
  {
    if friendlies != [] {
      var init, last := friendlies[..|friendlies| - 1], friendlies[|friendlies| - 1];
      assert friendlies == init + [last];
      SightedPairs(w, hostile, pairs, init, h, f);
      ByID(friendlies, last);
    }
  }

  // A friendly is reported once if it became merged, and not at all otherwise.
  lemma {:induction false} SightedNew(w: World, hostile: Track, pairs: set<Pair>, friendlies: seq<Track>, t: Track)
    requires DistinctIDs(friendlies)
    ensures var u := Sighted(w, hostile, pairs, friendlies);
      multiset(u.newlyMerged)[t]
      == if t in friendlies && (hostile.id, t.id) !in pairs && (hostile.id, t.id) in u.pairs then 1 else 0
  {
    hide FriendIDs;
    if friendlies != [] {
      var init, last := friendlies[..|friendlies| - 1], friendlies[|friendlies| - 1];
      assert friendlies == init + [last];
      SightedNew(w, hostile, pairs, init, t);
      SightedPairs(w, hostile, pairs, init, hostile.id, last.id);
      LastIsNew(friendlies);
      if t in init {
        assert t.id != last.id;
      }
    }
  }

  lemma LastIsNew(ts: seq<Track>)
    requires DistinctIDs(ts) && ts != []
    ensures var init, last := ts[..|ts| - 1], ts[|ts| - 1];
      && DistinctIDs(init) && last.id !in FriendIDs(init) && last !in init
      && forall t :: t in init ==> t.id != last.id
  {
  }

  // No hostile of the group is a friendly, or merged with as one.
  ghost predicate Apart(pairs: set<Pair>, hostiles: seq<nat>, friendlies: seq<Track>) {
    && (forall p :: p in pairs ==> p.1 !in hostiles)
    && (forall t :: t in friendlies ==> t.id !in hostiles)
  }

  lemma ApartPrefix(pairs: set<Pair>, hostiles: seq<nat>, last: nat, friendlies: seq<Track>)
    requires Apart(pairs, hostiles + [last], friendlies)
    ensures Apart(pairs, hostiles, friendlies)
  {
  }

  lemma HostileStepPairs(w: World, scope: Contacts, pairs: set<Pair>, hostile: nat, friendlies: seq<Track>, h: nat, f: nat)
    requires Keyed(scope) && DistinctIDs(friendlies) && Apart(pairs, [hostile], friendlies)
    ensures (h, f) in HostileStep(w, scope, pairs, hostile, friendlies).pairs
       <==> if h == hostile then HostileUpdated(w, scope, h, friendlies, f, (h, f) in pairs) else (h, f) in pairs
  {
    var rest := Separated(pairs, hostile, FriendIDs(friendlies));
    assert hostile in [hostile];
    if hostile in scope {
      SightedPairs(w, scope[hostile], rest, friendlies, h, f);
      if t :| t in friendlies && t.id == f {
        ByID(friendlies, t);
      }
    }
  }

  // When hostiles and friendlies are apart, every pair of the group's hostiles is
  // merged afterwards by what was seen of it, and no other pair changes.
  lemma {:induction false} GroupStepPairs(w: World, scope: Contacts, pairs: set<Pair>, hostiles: seq<nat>, friendlies: seq<Track>, h: nat, f: nat)
    requires Keyed(scope) && DistinctIDs(friendlies) && Apart(pairs, hostiles, friendlies)
    ensures (h, f) in GroupStep(w, scope, pairs, hostiles, friendlies).pairs
       <==> if h in hostiles then HostileUpdated(w, scope, h, friendlies, f, (h, f) in pairs) else (h, f) in pairs
    decreases |hostiles|, 0
  {
    hide HostileStep, HostileUpdated, Observed;
    if hostiles != [] {
      var init, last := hostiles[..|hostiles| - 1], hostiles[|hostiles| - 1];
      assert hostiles == init + [last];
      GroupStepPairs(w, scope, pairs, init, friendlies, h, f);
      GroupStepApart(w, scope, pairs, init, friendlies, last);
      HostileStepPairs(w, scope, GroupStep(w, scope, pairs, init, friendlies).pairs, last, friendlies, h, f);
      UpdatedTwice(w, scope, h, friendlies, f, (h, f) in pairs);
    }
  }

  lemma {:induction false} GroupStepApart(w: World, scope: Contacts, pairs: set<Pair>, hostiles: seq<nat>, friendlies: seq<Track>, id: nat)
    requires Keyed(scope) && DistinctIDs(friendlies) && Apart(pairs, hostiles + [id], friendlies)
    ensures Apart(GroupStep(w, scope, pairs, hostiles, friendlies).pairs, [id], friendlies)
    decreases |hostiles|, 1
  {
    hide GroupStep;
    var after := GroupStep(w, scope, pairs, hostiles, friendlies).pairs;
    assert id in hostiles + [id];
    assert Apart(pairs, hostiles, friendlies);
    forall p | p in after ensures p.1 != id {
      GroupStepPairs(w, scope, pairs, hostiles, friendlies, p.0, p.1);
    }
  }

  // The hostiles of the group with which the friendly became merged.
  ghost function MergedWith(before: set<Pair>, after: set<Pair>, hostiles: seq<nat>, f: nat): set<nat> {
    set h | h in hostiles && (h, f) !in before && (h, f) in after
  }

  // A friendly is reported once for every hostile with which it became merged.
  lemma {:induction false} GroupStepNew(w: World, scope: Contacts, pairs: set<Pair>, hostiles: seq<nat>, friendlies: seq<Track>, t: Track)
    requires Keyed(scope) && DistinctIDs(friendlies) && Apart(pairs, hostiles, friendlies) && t in friendlies
    ensures var u := GroupStep(w, scope, pairs, hostiles, friendlies);
      multiset(u.newlyMerged)[t] == |MergedWith(pairs, u.pairs, hostiles, t.id)|
  {
    hide HostileUpdated, HostileStep, Observed, Apart, DistinctIDs;
    if hostiles != [] {
      var init, last := hostiles[..|hostiles| - 1], hostiles[|hostiles| - 1];
      assert hostiles == init + [last];
      ApartPrefix(pairs, init, last, friendlies);
      var u := GroupStep(w, scope, pairs, init, friendlies);
      var v := HostileStep(w, scope, u.pairs, last, friendlies);
      GroupStepNew(w, scope, pairs, init, friendlies, t);
      GroupStepApart(w, scope, pairs, init, friendlies, last);
      HostileStepNew(w, scope, u.pairs, last, friendlies, t);
      var before, after := MergedWith(pairs, u.pairs, init, t.id), MergedWith(pairs, v.pairs, hostiles, t.id);
      forall h | h in hostiles ensures h in after <==> h in before || (h == last && (h, t.id) !in u.pairs && (h, t.id) in v.pairs) {
        GroupStepPairs(w, scope, pairs, init, friendlies, h, t.id);
        GroupStepPairs(w, scope, pairs, hostiles, friendlies, h, t.id);
        UpdatedTwice(w, scope, h, friendlies, t.id, (h, t.id) in pairs);
        HostileStepPairs(w, scope, u.pairs, last, friendlies, h, t.id);
      }
      assert last in before ==> (last, t.id) in u.pairs;
      assert after == if (last, t.id) !in u.pairs && (last, t.id) in v.pairs then before + {last} else before;
    }
  }

  lemma HostileStepNew(w: World, scope: Contacts, pairs: set<Pair>, hostile: nat, friendlies: seq<Track>, t: Track)
    requires Keyed(scope) && DistinctIDs(friendlies) && t in friendlies
    ensures var u := HostileStep(w, scope, pairs, hostile, friendlies);
      multiset(u.newlyMerged)[t] == if (hostile, t.id) !in pairs && (hostile, t.id) in u.pairs then 1 else 0
  {
    var rest := Separated(pairs, hostile, FriendIDs(friendlies));
    if hostile in scope {
      SightedNew(w, scope[hostile], rest, friendlies, t);
    }
  }
}
