// Who is in a group, told from positions, coalitions and the tags of the aircraft
// alone: a group is the least set that starts with its seed and takes in all that
// its members pick.
module GroupMembers {
  import opened Wrappers
  import opened Trackfiles
  import opened Grouping
  import opened GroupPartition

  // The type is in the encyclopedia, with the tag.
  predicate Tagged(w: World, t: Track, tag: Tag) {
    t.acmiName in w.encyclopedia && tag in w.encyclopedia[t.acmiName]
  }

  predicate Known(w: World, t: Track) {
    t.acmiName in w.encyclopedia
  }

  // Somewhere, and flying: more than 10 m above the ground, or faster than 50 knots
  // if the height is not known.
  predicate Flying(t: Track) {
    && (t.point.lon != 0.0 || t.point.lat != 0.0)
    && (t.agl.Some? ==> t.agl.value > 10.0)
    && (t.agl.None? ==> t.speed > 50.0)
  }

  // A seed that is fixed-wing, or not known, takes fixed-wing aircraft; a rotary-wing
  // one takes rotary-wing aircraft; one that is neither takes any. Aircraft that are
  // not known are taken by all.
  predicate SameWing(w: World, seed: Track, t: Track) {
    !Known(w, t)
    || if Tagged(w, seed, FixedWingTag) || !Known(w, seed) then Tagged(w, t, FixedWingTag)
       else if Tagged(w, seed, RotaryWingTag) then Tagged(w, t, RotaryWingTag) && !Tagged(w, t, FixedWingTag)
       else true
  }

  // Fighters pick fighters, other attack aircraft pick attack aircraft, other unarmed
  // aircraft pick unarmed aircraft; all others pick any.
  predicate SameRole(w: World, a: Track, b: Track) {
    && (Tagged(w, a, Fighter) ==> Tagged(w, b, Fighter))
    && (Tagged(w, a, Attack) && !Tagged(w, a, Fighter) ==> Tagged(w, b, Attack))
    && (Tagged(w, a, Unarmed) && !Tagged(w, a, Fighter) && !Tagged(w, a, Attack) ==> Tagged(w, b, Unarmed))
  }

  // In the group of the seed, a brings in b.
  predicate Picks(w: World, seed: Track, a: Track, b: Track) {
    && b.coalition == a.coalition && Flying(b)
    && SameWing(w, seed, b) && SameRole(w, a, b)
    && w.distance(b.point, a.point) < 5.0
  }

  lemma PicksIff(w: World, seed: Track, a: Track, b: Track)
    ensures Links(w, GroupCategory(w, seed), a, b) <==> Picks(w, seed, a, b)
  {
  }

  // Contacts of the coalition that fly are what groups are formed of.
  lemma GroupedIff(w: World, db: Contacts, coalition: Coalition, order: seq<Track>, t: Track)
    requires Keyed(db) && Lists(db, order)
    ensures InSome(Enumerated(w, db, coalition, order, |order|), t) <==>
      t.id in db && db[t.id] == t && t.coalition == coalition && Flying(t)
  {
    hide Enumerated, InSome;
    EnumerationCovers(w, db, coalition, order, |order|);
    if Candidate(db, coalition, t) {
      assert db[t.id] in order;
      var j :| 0 <= j < |order| && order[j] == t;
    }
  }

  // Contacts that the set of members picks are members.
  ghost predicate ClosedUnderPicks(w: World, db: Contacts, seed: Track, members: set<Track>) {
    forall a, id :: a in members && id in db && Picks(w, seed, a, db[id]) ==> db[id] in members
  }

  // The group is closed under picks, and part of every other set with the seed that is.
  lemma GroupIsLeast(w: World, db: Contacts, seed: Track, members: set<Track>)
    requires Keyed(db) && Holds(db, seed) && (seed.point.lon != 0.0 || seed.point.lat != 0.0)
    ensures seed in GroupSet(w, db, seed) && ClosedUnderPicks(w, db, seed, GroupSet(w, db, seed))
    ensures seed in members && ClosedUnderPicks(w, db, seed, members) ==> GroupSet(w, db, seed) <= members
  {
    hide Links, Picks, GroupCategory;
    var filter := GroupCategory(w, seed);
    ReachesSelf(w, db, filter, seed);
    forall a, id | a in GroupSet(w, db, seed) && id in db && Picks(w, seed, a, db[id])
      ensures db[id] in GroupSet(w, db, seed)
    {
      PicksIff(w, seed, a, db[id]);
      ReachesStep(w, db, filter, seed, a, db[id]);
    }
    if seed in members && ClosedUnderPicks(w, db, seed, members) {
      forall t | t in GroupSet(w, db, seed) ensures t in members {
        var path :| IsPath(w, db, filter, path) && path[0] == seed && path[|path| - 1] == t;
        PathStays(w, db, seed, members, path);
      }
    }
  }

  lemma {:induction false} PathStays(w: World, db: Contacts, seed: Track, members: set<Track>, path: seq<Track>)
    requires IsPath(w, db, GroupCategory(w, seed), path) && path[0] in members
    requires ClosedUnderPicks(w, db, seed, members)
    ensures path[|path| - 1] in members
    decreases |path|
  {
    hide Links, Picks, GroupCategory;
    if |path| > 1 {
      var init, last := path[..|path| - 1], path[|path| - 1];
      assert IsPath(w, db, GroupCategory(w, seed), init);
      PathStays(w, db, seed, members, init);
      PicksIff(w, seed, init[|init| - 1], last);
      assert Holds(db, last) && db[last.id] == last;
    }
  }

  // A contact without a position is a group of its own.
  lemma NowhereAlone(w: World, db: Contacts, seed: Track)
    requires Holds(db, seed) && seed.point.lon == 0.0 && seed.point.lat == 0.0
    ensures GroupSet(w, db, seed) == {seed}
  {
    assert IsZero(seed.point);
  }

  // Everyone but the seed was picked by another member.
  lemma PickedBy(w: World, db: Contacts, seed: Track, t: Track) returns (a: Track)
    requires Keyed(db) && Holds(db, seed) && t in GroupSet(w, db, seed) && t != seed
    ensures a in GroupSet(w, db, seed) && Picks(w, seed, a, t)
    ensures t.coalition == a.coalition && Flying(t) && SameWing(w, seed, t) && w.distance(t.point, a.point) < 5.0
  {
    hide Links, GroupCategory, Flying, SameWing, SameRole;
    var filter := GroupCategory(w, seed);
    var path :| IsPath(w, db, filter, path) && path[0] == seed && path[|path| - 1] == t;
    var init := path[..|path| - 1];
    assert IsPath(w, db, filter, init);
    a := init[|init| - 1];
    ReachesSelf(w, db, filter, seed);
    assert Reaches(w, db, filter, seed, a);
    assert |init| > 1 ==> Holds(db, a);
    PicksIff(w, seed, a, t);
  }

  // The tags by which aircraft pick others, the strongest first.
  predicate IsRole(tag: Tag) {
    tag == Fighter || tag == Attack || tag == Unarmed
  }

  // No type in the database has the tag and one that comes before it.
  ghost predicate FirstRole(w: World, db: Contacts, tag: Tag) {
    forall id :: id in db && Tagged(w, db[id], tag) ==>
      && (tag == Attack ==> !Tagged(w, db[id], Fighter))
      && (tag == Unarmed ==> !Tagged(w, db[id], Fighter) && !Tagged(w, db[id], Attack))
  }

  // The group of a fighter is all fighters; that of an attack aircraft is all attack
  // aircraft, and that of an unarmed one all unarmed, when no type in the database
  // also has a role that comes before.
  lemma RoleKept(w: World, db: Contacts, seed: Track, tag: Tag, t: Track)
    requires Keyed(db) && Holds(db, seed) && t in GroupSet(w, db, seed)
    requires IsRole(tag) && Tagged(w, seed, tag) && FirstRole(w, db, tag)
    ensures Known(w, t) && Tagged(w, t, tag)
  {
    if IsZero(seed.point) {
      NowhereAlone(w, db, seed);
    } else {
      var all := set c | c in db.Values && Tagged(w, c, tag);
      forall a, id | a in all && id in db && Picks(w, seed, a, db[id]) ensures db[id] in all {
        assert Holds(db, a);
      }
      GroupIsLeast(w, db, seed, all);
    }
  }

  // Without another condition than the source's, a fighter's group is all fighters.
  lemma FightersApart(w: World, db: Contacts, seed: Track, t: Track)
    requires Keyed(db) && Holds(db, seed) && t in GroupSet(w, db, seed)
    ensures Tagged(w, seed, Fighter) ==> Known(w, t) && Tagged(w, t, Fighter)
  {
    hide GroupSet;
    if Tagged(w, seed, Fighter) {
      RoleKept(w, db, seed, Fighter, t);
    }
  }

  // A fighter and an unarmed tanker a mile apart.
  const VIPER := Track(1, "Viper 1 1", Blue, "F-16C", Some(0), Point(1.0, 1.0), Some(1000.0), 0.0)
  const TANKER := Track(2, "Texaco 1 1", Blue, "KC-135", Some(0), Point(1.0, 1.1), Some(1000.0), 0.0)
  const SKY: Contacts := map[1 := VIPER, 2 := TANKER]
  const JETS := World(
    map["F-16C" := {FixedWingTag, Fighter}, "KC-135" := {FixedWingTag, Unarmed}], (p, q) => 1.0)

  lemma TankerLeftOut()
    ensures GroupSet(JETS, SKY, VIPER) == {VIPER}
  {
    forall t | t in GroupSet(JETS, SKY, VIPER) ensures t == VIPER {
      FightersApart(JETS, SKY, VIPER, t);
      var id :| id in SKY && SKY[id] == t;
      assert !Tagged(JETS, TANKER, Fighter);
    }
    GroupIsLeast(JETS, SKY, VIPER, {});
  }
}
