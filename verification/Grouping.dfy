// Grouping aircraft: a group is what its first member reaches by links.
module Grouping {
  import opened Wrappers
  import opened Trackfiles

  // ---- the link relation ----

  // category() of a group that starts with this contact.
  function GroupCategory(w: World, seed: Track): Category {
    if seed.acmiName in w.encyclopedia then CategoryOf(w.encyclopedia[seed.acmiName]) else FixedWing
  }

  // The tag by which an aircraft picks the others to link with.
  function LinkTag(w: World, t: Track): Option<Tag> {
    if t.acmiName !in w.encyclopedia then None
    else
      var tags := w.encyclopedia[t.acmiName];
      if Fighter in tags then Some(Fighter)
      else if Attack in tags then Some(Attack)
      else if Unarmed in tags then Some(Unarmed)
      else None
  }

  // Aircraft a brings aircraft b into a group of the given category.
  predicate Links(w: World, filter: Category, a: Track, b: Track) {
    && IsMatch(w, b, a.coalition, filter)
    && (LinkTag(w, a).Some? ==>
          b.acmiName in w.encyclopedia && LinkTag(w, a).value in w.encyclopedia[b.acmiName])
    && w.distance(b.point, a.point) < SPREAD_INTERVAL
  }

  // ---- reachability ----

  ghost predicate IsPath(w: World, db: Contacts, filter: Category, path: seq<Track>) {
    && path != []
    && (forall i :: 0 < i < |path| ==> Holds(db, path[i]))
    && (forall i :: 0 < i < |path| ==> Links(w, filter, path[i - 1], path[i]))
  }

  ghost predicate Reaches(w: World, db: Contacts, filter: Category, a: Track, b: Track) {
    exists path :: IsPath(w, db, filter, path) && path[0] == a && path[|path| - 1] == b
  }

  // The members of the group that starts with the given contact.
  ghost predicate InGroup(w: World, db: Contacts, seed: Track, t: Track) {
    if IsZero(seed.point) then t == seed
    else Reaches(w, db, GroupCategory(w, seed), seed, t)
  }

  lemma ReachesSelf(w: World, db: Contacts, filter: Category, a: Track)
    ensures Reaches(w, db, filter, a, a)
  {
    assert IsPath(w, db, filter, [a]);
  }

  lemma ReachesStep(w: World, db: Contacts, filter: Category, a: Track, b: Track, c: Track)
    requires Reaches(w, db, filter, a, b) && Holds(db, c) && Links(w, filter, b, c)
    ensures Reaches(w, db, filter, a, c)
  {
    var path :| IsPath(w, db, filter, path) && path[0] == a && path[|path| - 1] == b;
    assert IsPath(w, db, filter, path + [c]);
  }

  lemma {:induction false} PathAppend(w: World, db: Contacts, filter: Category, a: Track, path: seq<Track>)
    requires IsPath(w, db, filter, path) && Reaches(w, db, filter, a, path[0])
    ensures Reaches(w, db, filter, a, path[|path| - 1])
    decreases |path|
  {
    if |path| > 1 {
      var init := path[..|path| - 1];
      assert IsPath(w, db, filter, init);
      PathAppend(w, db, filter, a, init);
      ReachesStep(w, db, filter, a, init[|init| - 1], path[|path| - 1]);
    }
  }

  lemma ReachesTransitive(w: World, db: Contacts, filter: Category, a: Track, b: Track, c: Track)
    requires Reaches(w, db, filter, a, b) && Reaches(w, db, filter, b, c)
    ensures Reaches(w, db, filter, a, c)
  {
    var path :| IsPath(w, db, filter, path) && path[0] == b && path[|path| - 1] == c;
    PathAppend(w, db, filter, a, path);
  }

  // A set of contacts closed under links holds whatever its members reach.
  lemma {:induction false} ClosedHoldsPath(w: World, db: Contacts, filter: Category, members: seq<Track>, path: seq<Track>)
    requires IsPath(w, db, filter, path) && path[0] in members
    requires forall t, id :: t in members && id in db && Links(w, filter, t, db[id]) ==> db[id] in members
    ensures path[|path| - 1] in members
    decreases |path|
  {
    if |path| > 1 {
      var init := path[..|path| - 1];
      assert IsPath(w, db, filter, init);
      ClosedHoldsPath(w, db, filter, members, init);
      var last := path[|path| - 1];
      assert Holds(db, last) && db[last.id] == last;
    }
  }

  // ---- the search ----

  class Group {
    var contacts: seq<Track>

    constructor (seed: Track)
      ensures contacts == [seed]
    {
      contacts := [seed];
    }

    // ObjectIDs, as far as membership tests need it
    function ObjectIDs(): (ids: set<nat>)
      reads this
    {
      IDs(contacts)
    }

    function Category(w: World): Category
      requires contacts != []
      reads this
    {
      GroupCategory(w, contacts[0])
    }
  }

  function IDs(ts: seq<Track>): set<nat> {
    set t | t in ts :: t.id
  }

  // Members are contacts of the database, each in once.
  predicate Proper(db: Contacts, members: seq<Track>) {
    && members != []
    && (forall i :: 0 <= i < |members| ==> Holds(db, members[i]))
    && (forall i, j :: 0 <= i < j < |members| ==> members[i].id != members[j].id)
  }

  // All contacts linked from t are members.
  ghost predicate LinkedIn(w: World, db: Contacts, filter: Category, t: Track, members: seq<Track>) {
    forall id :: id in db && Links(w, filter, t, db[id]) ==> db[id] in members
  }

  lemma LinkedInMore(w: World, db: Contacts, filter: Category, t: Track, members: seq<Track>, more: seq<Track>)
    requires LinkedIn(w, db, filter, t, members) && members <= more
    ensures LinkedIn(w, db, filter, t, more)
  {
    forall x | x in members ensures x in more {
      var i :| 0 <= i < |members| && members[i] == x;
      assert more[i] == x;
    }
  }

  // What one call of the recursive search adds: contacts that its aircraft
  // reaches, all of whose links it has followed.
  ghost predicate Extends(w: World, db: Contacts, filter: Category, this_: Track, before: seq<Track>, after: seq<Track>) {
    && before <= after
    && (forall i :: |before| <= i < |after| ==> Reaches(w, db, filter, this_, after[i]))
    && (forall i :: |before| <= i < |after| ==> LinkedIn(w, db, filter, after[i], after))
  }

  lemma KnownID(db: Contacts, members: seq<Track>, t: Track)
    requires Proper(db, members) && Holds(db, t)
    ensures t.id in IDs(members) <==> t in members
  {
  }

  lemma AddMember(db: Contacts, before: seq<Track>, members: seq<Track>, t: Track)
    requires Proper(db, members) && Holds(db, t) && t.id !in IDs(members) && before <= members
    ensures Proper(db, members + [t])
    ensures |db.Keys - IDs(members + [t])| < |db.Keys - IDs(before)|
  {
    var more := members + [t];
    forall i | 0 <= i < |members| ensures members[i].id != t.id {
      assert members[i] in members;
    }
    assert t in more;
    forall x | x in members ensures x in more {
    }
    assert forall i :: 0 <= i < |before| ==> before[i] == members[i];
    Fewer(db.Keys - IDs(more), db.Keys - IDs(before), t.id);
  }

  lemma Fewer(a: set<nat>, b: set<nat>, x: nat)
    requires a <= b && x in b && x !in a
    ensures |a| < |b|
  {
    assert a <= b - {x};
    Smaller(a, b - {x});
  }

  lemma Smaller(a: set<nat>, b: set<nat>)
    requires a <= b
    ensures |a| <= |b|
  {
    assert b == a + (b - a);
  }

  // A search from a linked contact is part of the search that found the link.
  lemma ExtendsThrough(w: World, db: Contacts, filter: Category, this_: Track, before: seq<Track>,
                       members: seq<Track>, other: Track, after: seq<Track>)
    requires Extends(w, db, filter, this_, before, members)
    requires Holds(db, other) && Links(w, filter, this_, other)
    requires Extends(w, db, filter, other, members + [other], after) && LinkedIn(w, db, filter, other, after)
    ensures Extends(w, db, filter, this_, before, after)
  {
    hide Links, IsPath;
    ReachesSelf(w, db, filter, this_);
    ReachesStep(w, db, filter, this_, this_, other);
    assert members <= after;
    forall i | |before| <= i < |after|
      ensures Reaches(w, db, filter, this_, after[i]) && LinkedIn(w, db, filter, after[i], after)
    {
      if i < |members| {
        assert after[i] == members[i];
        LinkedInMore(w, db, filter, members[i], members, after);
      } else if i == |members| {
        assert after[i] == other;
      } else {
        ReachesTransitive(w, db, filter, this_, other, after[i]);
      }
    }
  }

  // The first i listed contacts have been looked at from t.
  ghost predicate Followed(w: World, filter: Category, t: Track, order: seq<Track>, i: nat, members: seq<Track>)
    requires i <= |order|
  {
    forall j :: 0 <= j < i && Links(w, filter, t, order[j]) ==> order[j] in members
  }

  lemma FollowedMore(w: World, filter: Category, t: Track, order: seq<Track>, i: nat, members: seq<Track>, more: seq<Track>)
    requires i < |order| && Followed(w, filter, t, order, i, members) && members <= more
    requires Links(w, filter, t, order[i]) ==> order[i] in more
    ensures Followed(w, filter, t, order, i + 1, more)
  {
    forall x | x in members ensures x in more {
      var k :| 0 <= k < |members| && members[k] == x;
      assert more[k] == x;
    }
  }

  lemma FollowedAll(w: World, db: Contacts, filter: Category, t: Track, order: seq<Track>, members: seq<Track>)
    requires Lists(db, order) && Followed(w, filter, t, order, |order|, members)
    ensures LinkedIn(w, db, filter, t, members)
  {
    forall id | id in db && Links(w, filter, t, db[id]) ensures db[id] in members {
      var j :| 0 <= j < |order| && order[j] == db[id];
    }
  }

  lemma ExtendsPrefix(w: World, db: Contacts, filter: Category, t: Track, before: seq<Track>, after: seq<Track>)
    ensures Extends(w, db, filter, t, before, after) ==> before <= after
    ensures Extends(w, db, filter, t, before, before)
  {
  }

  // the tag that addNearbyAircraftToGroup filters by
  method FindTag(w: World, t: Track) returns (tag: Option<Tag>)
    ensures tag == LinkTag(w, t)
  {
    tag := None;
    if t.acmiName in w.encyclopedia {
      var tags := w.encyclopedia[t.acmiName];
      if Fighter in tags {
        tag := Some(Fighter);
      } else if Attack in tags {
        tag := Some(Attack);
      } else if Unarmed in tags {
        tag := Some(Unarmed);
      }
    }
  }

  // addNearbyAircraftToGroup
  method AddNearbyAircraftToGroup(w: World, db: Contacts, this_: Track, group: Group)
    requires Keyed(db) && Proper(db, group.contacts)
    modifies group
    ensures Proper(db, group.contacts)
    ensures Extends(w, db, old(group.Category(w)), this_, old(group.contacts), group.contacts)
    ensures LinkedIn(w, db, old(group.Category(w)), this_, group.contacts)
    decreases |db.Keys - IDs(group.contacts)|
  {
    hide LinkedIn, GroupCategory, IDs, Extends, Followed, IsMatch;
    ghost var filter := group.Category(w);
    ghost var before := group.contacts;
    var tag := FindTag(w, this_);
    var order := Values(db);
    ExtendsPrefix(w, db, filter, this_, before, before);
    assert Followed(w, filter, this_, order, 0, before) by { FollowedNone(w, filter, this_, order, before); }
    for i := 0 to |order|
      invariant Proper(db, group.contacts)
      invariant before <= group.contacts && Extends(w, db, filter, this_, before, group.contacts)
      invariant Followed(w, filter, this_, order, i, group.contacts)
    {
      var other := order[i];
      ghost var members := group.contacts;
      KnownID(db, members, other);
      if other.id in group.ObjectIDs() {
        FollowedMore(w, filter, this_, order, i, members, members);
        continue;
      }
      if !IsMatch(w, other, this_.coalition, group.Category(w)) {
        FollowedMore(w, filter, this_, order, i, members, members);
        continue;
      }
      if tag.Some? {
        if other.acmiName !in w.encyclopedia {
          FollowedMore(w, filter, this_, order, i, members, members);
          continue;
        }
        if tag.value !in w.encyclopedia[other.acmiName] {
          FollowedMore(w, filter, this_, order, i, members, members);
          continue;
        }
      }
      if !(w.distance(other.point, this_.point) < SPREAD_INTERVAL) {
        FollowedMore(w, filter, this_, order, i, members, members);
        continue;
      }
      AddMember(db, before, members, other);
      group.contacts := group.contacts + [other];
      AddNearbyAircraftToGroup(w, db, other, group);
      ExtendsPrefix(w, db, filter, other, members + [other], group.contacts);
      ExtendsThrough(w, db, filter, this_, before, members, other, group.contacts);
      assert group.contacts[|members|] == other;
      FollowedMore(w, filter, this_, order, i, members, group.contacts);
    }
    FollowedAll(w, db, filter, this_, order, group.contacts);
  }

  lemma FollowedNone(w: World, filter: Category, t: Track, order: seq<Track>, members: seq<Track>)
    ensures Followed(w, filter, t, order, 0, members)
  {
  }

  // findGroupForAircraft: the group of a contact is exactly what it reaches.
  method FindGroupForAircraft(w: World, db: Contacts, seed: Track) returns (group: Group)
    requires Keyed(db) && Holds(db, seed)
    ensures fresh(group) && Proper(db, group.contacts) && group.contacts[0] == seed
    ensures forall t :: t in group.contacts <==> InGroup(w, db, seed, t)
  {
    hide LinkedIn, Extends, Reaches;
    group := new Group(seed);
    if !IsZero(seed.point) {
      AddNearbyAircraftToGroup(w, db, seed, group);
      GroupIsReach(w, db, seed, group.contacts);
    }
  }

  lemma GroupIsReach(w: World, db: Contacts, seed: Track, members: seq<Track>)
    requires Keyed(db) && Proper(db, members)
    requires Extends(w, db, GroupCategory(w, seed), seed, [seed], members)
    requires LinkedIn(w, db, GroupCategory(w, seed), seed, members)
    ensures forall t :: t in members <==> Reaches(w, db, GroupCategory(w, seed), seed, t)
    ensures members[0] == seed
  {
    hide Links, GroupCategory;
    var filter := GroupCategory(w, seed);
    assert [seed][0] == members[0];
    forall t | t in members ensures Reaches(w, db, filter, seed, t) && LinkedIn(w, db, filter, t, members) {
      var i :| 0 <= i < |members| && members[i] == t;
      ReachesSelf(w, db, filter, seed);
    }
    forall t | Reaches(w, db, filter, seed, t) ensures t in members {
      var path :| IsPath(w, db, filter, path) && path[0] == seed && path[|path| - 1] == t;
      ClosedHoldsPath(w, db, filter, members, path);
    }
  }

  // ---- enumeration ----

  ghost function GroupSet(w: World, db: Contacts, seed: Track): set<Track> {
    set t | t in db.Values && InGroup(w, db, seed, t)
  }

  predicate Eligible(t: Track, coalition: Coalition) {
    t.coalition == coalition && IsValidTrack(t)
  }

  ghost predicate InSome(groups: seq<set<Track>>, t: Track) {
    exists g :: g in groups && t in g
  }

  // The groups formed from the first i contacts of a listing: a new one for every
  // eligible contact that no earlier group holds.
  ghost function Enumerated(w: World, db: Contacts, coalition: Coalition, order: seq<Track>, i: nat): seq<set<Track>>
    requires i <= |order|
  {
    if i == 0 then []
    else
      var groups := Enumerated(w, db, coalition, order, i - 1);
      var t := order[i - 1];
      if Eligible(t, coalition) && !InSome(groups, t) then groups + [GroupSet(w, db, t)] else groups
  }

  ghost predicate Disjoint(groups: seq<set<Track>>) {
    forall i, j :: 0 <= i < j < |groups| ==> groups[i] !! groups[j]
  }

  // enumerateGroups
  method EnumerateGroups(w: World, db: Contacts, coalition: Coalition) returns (groups: seq<Group>, ghost order: seq<Track>)
    requires Keyed(db)
    ensures Lists(db, order)
    ensures |groups| == |Enumerated(w, db, coalition, order, |order|)|
    ensures forall k :: 0 <= k < |groups| ==> fresh(groups[k]) && Proper(db, groups[k].contacts)
    ensures forall k :: 0 <= k < |groups| ==>
              Members(groups[k].contacts) == Enumerated(w, db, coalition, order, |order|)[k]
  {
    hide InGroup, Proper;
    var visited: set<nat> := {};
    groups := [];
    var listing := Values(db);
    order := listing;
    for i := 0 to |listing|
      invariant |groups| == |Enumerated(w, db, coalition, order, i)|
      invariant forall k :: 0 <= k < |groups| ==> fresh(groups[k]) && Proper(db, groups[k].contacts)
      invariant forall k :: 0 <= k < |groups| ==>
                  Members(groups[k].contacts) == Enumerated(w, db, coalition, order, i)[k]
      invariant forall j :: i <= j < |order| ==>
                  (order[j].id in visited <==> InSome(Enumerated(w, db, coalition, order, i), order[j]))
    {
      var trackfile := listing[i];
      ghost var sofar := Enumerated(w, db, coalition, order, i);
      if trackfile.id in visited {
        continue;
      }
      visited := visited + {trackfile.id};
      if trackfile.coalition != coalition {
        continue;
      }
      if !IsValidTrack(trackfile) {
        continue;
      }
      var grp := FindGroupForAircraft(w, db, trackfile);
      visited := visited + grp.ObjectIDs();
      groups := groups + [grp];
      assert Members(grp.contacts) == GroupSet(w, db, trackfile) by { MembersAreGroup(w, db, trackfile, grp.contacts); }
      forall j | i < j < |order|
        ensures order[j].id in visited <==> InSome(sofar + [GroupSet(w, db, trackfile)], order[j])
      {
        KnownID(db, grp.contacts, order[j]);
        InSomeMore(sofar, GroupSet(w, db, trackfile), order[j]);
      }
    }
  }

  function Members(ts: seq<Track>): set<Track> {
    set t | t in ts
  }

  lemma MembersAreGroup(w: World, db: Contacts, seed: Track, members: seq<Track>)
    requires Proper(db, members) && forall t :: t in members <==> InGroup(w, db, seed, t)
    ensures Members(members) == GroupSet(w, db, seed)
  {
    forall t | t in members ensures t in db.Values {
    }
  }

  lemma InSomeMore(groups: seq<set<Track>>, g: set<Track>, t: Track)
    ensures InSome(groups + [g], t) <==> InSome(groups, t) || t in g
  {
    if InSome(groups, t) {
      var h :| h in groups && t in h;
      assert h in groups + [g];
    }
    if t in g {
      assert g in groups + [g];
    }
  }
}
