// When the groups of a coalition partition its aircraft.
module GroupPartition {
  import opened Wrappers
  import opened Trackfiles
  import opened Grouping

  ghost predicate Candidate(db: Contacts, coalition: Coalition, t: Track) {
    Holds(db, t) && Eligible(t, coalition)
  }

  // ---- groups of eligible contacts ----

  lemma SeedInGroup(w: World, db: Contacts, coalition: Coalition, t: Track)
    requires Candidate(db, coalition, t)
    ensures t in GroupSet(w, db, t)
  {
    ReachesSelf(w, db, GroupCategory(w, t), t);
  }

  lemma {:induction false} PathEligible(w: World, db: Contacts, coalition: Coalition, filter: Category, path: seq<Track>)
    requires IsPath(w, db, filter, path) && Candidate(db, coalition, path[0])
    ensures Candidate(db, coalition, path[|path| - 1])
    decreases |path|
  {
    if |path| > 1 {
      assert IsPath(w, db, filter, path[..|path| - 1]);
      PathEligible(w, db, coalition, filter, path[..|path| - 1]);
      assert Links(w, filter, path[|path| - 2], path[|path| - 1]);
    }
  }

  // Everyone in a group is an eligible contact of the same coalition.
  lemma GroupEligible(w: World, db: Contacts, coalition: Coalition, seed: Track, t: Track)
    requires Candidate(db, coalition, seed) && t in GroupSet(w, db, seed)
    ensures Candidate(db, coalition, t)
  {
    var filter := GroupCategory(w, seed);
    var path :| IsPath(w, db, filter, path) && path[0] == seed && path[|path| - 1] == t;
    PathEligible(w, db, coalition, filter, path);
  }

  // ---- coverage, in every order ----

  // A group is that of an eligible contact of its own that no earlier group holds.
  ghost predicate Seeded(w: World, db: Contacts, coalition: Coalition, groups: seq<set<Track>>, k: nat)
    requires k < |groups|
  {
    exists s :: Candidate(db, coalition, s) && groups[k] == GroupSet(w, db, s) && s in groups[k]
                && forall m :: 0 <= m < k ==> s !in groups[m]
  }

  lemma SeededMore(w: World, db: Contacts, coalition: Coalition, groups: seq<set<Track>>, t: Track)
    requires Candidate(db, coalition, t) && !InSome(groups, t)
    requires forall k :: 0 <= k < |groups| ==> Seeded(w, db, coalition, groups, k)
    ensures var more := groups + [GroupSet(w, db, t)];
      forall k :: 0 <= k < |more| ==> Seeded(w, db, coalition, more, k)
  {
    hide GroupSet;
    var more := groups + [GroupSet(w, db, t)];
    SeedInGroup(w, db, coalition, t);
    forall k | 0 <= k < |more| ensures Seeded(w, db, coalition, more, k) {
      if k == |groups| {
        assert forall m :: 0 <= m < k ==> more[m] in groups;
      } else {
        assert Seeded(w, db, coalition, groups, k);
        var s :| Candidate(db, coalition, s) && groups[k] == GroupSet(w, db, s) && s in groups[k]
                 && forall m :: 0 <= m < k ==> s !in groups[m];
        assert forall m :: 0 <= m < k ==> more[m] == groups[m];
      }
    }
  }

  // The groups cover exactly the eligible contacts, each is the group of an
  // eligible contact, and no group's first contact is in an earlier group.
  lemma {:induction false} EnumerationCovers(w: World, db: Contacts, coalition: Coalition, order: seq<Track>, i: nat)
    requires Lists(db, order) && i <= |order|
    ensures var groups := Enumerated(w, db, coalition, order, i);
            && (forall j :: 0 <= j < i && Eligible(order[j], coalition) ==> InSome(groups, order[j]))
            && (forall t :: InSome(groups, t) ==> Candidate(db, coalition, t))
            && (forall k :: 0 <= k < |groups| ==> Seeded(w, db, coalition, groups, k))
  {
    hide GroupSet, Seeded, InSome, Eligible;
    if i == 0 {
      NoGroups();
    } else {
      var before := Enumerated(w, db, coalition, order, i - 1);
      var t := order[i - 1];
      EnumerationCovers(w, db, coalition, order, i - 1);
      if Eligible(t, coalition) && !InSome(before, t) {
        SeedInGroup(w, db, coalition, t);
        SeededMore(w, db, coalition, before, t);
        forall x ensures InSome(before + [GroupSet(w, db, t)], x) <==> InSome(before, x) || x in GroupSet(w, db, t) {
          InSomeMore(before, GroupSet(w, db, t), x);
        }
        forall x | x in GroupSet(w, db, t) ensures Candidate(db, coalition, x) {
          GroupEligible(w, db, coalition, t, x);
        }
      }
    }
  }

  lemma NoGroups()
    ensures forall t :: !InSome([], t)
  {
  }

  // ---- disjointness ----

  // Every member of a group would have formed the same group.
  ghost predicate Coherent(w: World, db: Contacts, coalition: Coalition) {
    forall a, b :: Candidate(db, coalition, a) && b in GroupSet(w, db, a) ==> GroupSet(w, db, b) == GroupSet(w, db, a)
  }

  lemma {:induction false} CoherentDisjoint(w: World, db: Contacts, coalition: Coalition, order: seq<Track>, i: nat)
    requires Lists(db, order) && i <= |order| && Coherent(w, db, coalition)
    ensures Disjoint(Enumerated(w, db, coalition, order, i))
  {
    hide GroupSet;
    if i > 0 {
      var before := Enumerated(w, db, coalition, order, i - 1);
      var t := order[i - 1];
      CoherentDisjoint(w, db, coalition, order, i - 1);
      if Eligible(t, coalition) && !InSome(before, t) {
        SeedInGroup(w, db, coalition, t);
        EnumerationCovers(w, db, coalition, order, i - 1);
        forall k | 0 <= k < |before| ensures before[k] !! GroupSet(w, db, t) {
          assert Seeded(w, db, coalition, before, k);
          var s :| Candidate(db, coalition, s) && before[k] == GroupSet(w, db, s);
          assert before[k] in before && t !in before[k];
          MeetingGroups(w, db, coalition, s, t);
        }
      }
    }
  }

  lemma MeetingGroups(w: World, db: Contacts, coalition: Coalition, s: Track, t: Track)
    requires Coherent(w, db, coalition) && Candidate(db, coalition, s) && Candidate(db, coalition, t)
    ensures GroupSet(w, db, s) !! GroupSet(w, db, t) || GroupSet(w, db, s) == GroupSet(w, db, t)
  {
    hide GroupSet, Candidate;
    if x :| x in GroupSet(w, db, s) && x in GroupSet(w, db, t) {
      assert GroupSet(w, db, x) == GroupSet(w, db, s);
      assert GroupSet(w, db, x) == GroupSet(w, db, t);
    }
  }

  // Any two contacts can come first in a listing.
  lemma ListingFrom(db: Contacts, x: Track, y: Track) returns (order: seq<Track>)
    requires Keyed(db) && Holds(db, x) && Holds(db, y) && x != y
    ensures Lists(db, order) && |order| >= 2 && order[0] == x && order[1] == y
  {
    order := [x, y];
    var rest := db.Keys - {x.id, y.id};
    while rest != {}
      invariant rest <= db.Keys - {x.id, y.id}
      invariant |order| >= 2 && order[0] == x && order[1] == y
      invariant forall i :: 0 <= i < |order| ==> Holds(db, order[i]) && order[i].id !in rest
      invariant forall i, j :: 0 <= i < j < |order| ==> order[i].id != order[j].id
      invariant forall id :: id in db && id !in rest ==> db[id] in order
      decreases rest
    {
      var id :| id in rest;
      rest := rest - {id};
      order := order + [db[id]];
    }
  }

  lemma {:induction false} EnumeratedGrows(w: World, db: Contacts, coalition: Coalition, order: seq<Track>, i: nat, j: nat)
    requires i <= j <= |order|
    ensures Enumerated(w, db, coalition, order, i) <= Enumerated(w, db, coalition, order, j)
    decreases j
  {
    hide GroupSet;
    if i < j {
      EnumeratedGrows(w, db, coalition, order, i, j - 1);
    }
  }

  // If y is not in x's group but the two groups meet, then listing x and y first
  // makes overlapping groups.
  lemma OverlapFrom(w: World, db: Contacts, coalition: Coalition, x: Track, y: Track, z: Track) returns (order: seq<Track>)
    requires Keyed(db) && Candidate(db, coalition, x) && Candidate(db, coalition, y)
    requires y !in GroupSet(w, db, x) && z in GroupSet(w, db, x) && z in GroupSet(w, db, y)
    ensures Lists(db, order) && !Disjoint(Enumerated(w, db, coalition, order, |order|))
  {
    hide GroupSet;
    SeedInGroup(w, db, coalition, x);
    order := ListingFrom(db, x, y);
    assert Enumerated(w, db, coalition, order, 0) == [];
    assert Enumerated(w, db, coalition, order, 1) == [GroupSet(w, db, x)];
    assert !InSome([GroupSet(w, db, x)], y);
    var two := Enumerated(w, db, coalition, order, 2);
    assert two == [GroupSet(w, db, x), GroupSet(w, db, y)];
    EnumeratedGrows(w, db, coalition, order, 2, |order|);
    var all := Enumerated(w, db, coalition, order, |order|);
    assert all[0] == two[0] && all[1] == two[1];
    assert z in all[0] * all[1];
  }

  lemma IncoherentOverlap(w: World, db: Contacts, coalition: Coalition, a: Track, b: Track) returns (order: seq<Track>)
    requires Keyed(db) && Candidate(db, coalition, a) && b in GroupSet(w, db, a)
    requires GroupSet(w, db, b) != GroupSet(w, db, a)
    ensures Lists(db, order) && !Disjoint(Enumerated(w, db, coalition, order, |order|))
  {
    hide GroupSet;
    var A, B := GroupSet(w, db, a), GroupSet(w, db, b);
    GroupEligible(w, db, coalition, a, b);
    SeedInGroup(w, db, coalition, a);
    SeedInGroup(w, db, coalition, b);
    if a !in B {
      order := OverlapFrom(w, db, coalition, b, a, b);
    } else if c :| c in B && c !in A {
      GroupEligible(w, db, coalition, b, c);
      SeedInGroup(w, db, coalition, c);
      if b in GroupSet(w, db, c) {
        order := OverlapFrom(w, db, coalition, a, c, b);
      } else {
        order := OverlapFrom(w, db, coalition, c, b, c);
      }
    } else {
      var c :| c in A && c !in B;
      GroupEligible(w, db, coalition, a, c);
      SeedInGroup(w, db, coalition, c);
      if a in GroupSet(w, db, c) {
        order := OverlapFrom(w, db, coalition, b, c, a);
      } else {
        order := OverlapFrom(w, db, coalition, c, a, c);
      }
    }
  }

  // The groups are disjoint in whatever order the contacts are listed exactly
  // when every member of a group would have formed the same group.
  lemma DisjointIffCoherent(w: World, db: Contacts, coalition: Coalition)
    requires Keyed(db)
    ensures (forall order :: Lists(db, order) ==> Disjoint(Enumerated(w, db, coalition, order, |order|)))
        <==> Coherent(w, db, coalition)
  {
    hide GroupSet, Enumerated, Disjoint;
    if Coherent(w, db, coalition) {
      forall order | Lists(db, order) ensures Disjoint(Enumerated(w, db, coalition, order, |order|)) {
        CoherentDisjoint(w, db, coalition, order, |order|);
      }
    } else {
      var a, b :| Candidate(db, coalition, a) && b in GroupSet(w, db, a) && GroupSet(w, db, b) != GroupSet(w, db, a);
      var order := IncoherentOverlap(w, db, coalition, a, b);
    }
  }

  // ---- links that can be followed back ----

  // Whenever one aircraft picks another, the other reaches it again under the
  // category of its own group.
  ghost predicate LinksReturn(w: World, db: Contacts, coalition: Coalition) {
    forall a, b :: Candidate(db, coalition, a) && Candidate(db, coalition, b) && Links(w, GroupCategory(w, a), a, b) ==>
                     Reaches(w, db, GroupCategory(w, b), b, a)
  }

  // A link and a way back join aircraft of one category.
  lemma SameCategory(w: World, db: Contacts, a: Track, b: Track)
    requires Links(w, GroupCategory(w, a), a, b) && Reaches(w, db, GroupCategory(w, b), b, a)
    ensures GroupCategory(w, a) == GroupCategory(w, b)
  {
    var path :| IsPath(w, db, GroupCategory(w, b), path) && path[0] == b && path[|path| - 1] == a;
    if |path| > 1 {
      assert Links(w, GroupCategory(w, b), path[|path| - 2], a);
    }
  }

  lemma {:induction false} PathBack(w: World, db: Contacts, coalition: Coalition, filter: Category, path: seq<Track>)
    requires LinksReturn(w, db, coalition) && IsPath(w, db, filter, path)
    requires Candidate(db, coalition, path[0]) && filter == GroupCategory(w, path[0])
    ensures GroupCategory(w, path[|path| - 1]) == filter
    ensures Reaches(w, db, filter, path[|path| - 1], path[0])
    decreases |path|
  {
    hide Links, GroupCategory, Eligible, Reaches;
    var last := path[|path| - 1];
    ReachesSelf(w, db, filter, last);
    if |path| > 1 {
      var init := path[..|path| - 1];
      var previous := init[|init| - 1];
      assert IsPath(w, db, filter, init);
      PathBack(w, db, coalition, filter, init);
      PathEligible(w, db, coalition, filter, init);
      PathEligible(w, db, coalition, filter, path);
      assert Links(w, filter, previous, last);
      SameCategory(w, db, previous, last);
      ReachesTransitive(w, db, filter, last, previous, path[0]);
    }
  }

  lemma ReturnSameGroup(w: World, db: Contacts, coalition: Coalition, a: Track, b: Track)
    requires LinksReturn(w, db, coalition) && Candidate(db, coalition, a) && b in GroupSet(w, db, a)
    ensures GroupSet(w, db, b) == GroupSet(w, db, a)
  {
    hide Links, GroupCategory, LinksReturn;
    var filter := GroupCategory(w, a);
    GroupEligible(w, db, coalition, a, b);
    var path :| IsPath(w, db, filter, path) && path[0] == a && path[|path| - 1] == b;
    PathBack(w, db, coalition, filter, path);
    forall t ensures Reaches(w, db, filter, a, t) <==> Reaches(w, db, filter, b, t) {
      if Reaches(w, db, filter, a, t) {
        ReachesTransitive(w, db, filter, b, a, t);
      }
      if Reaches(w, db, filter, b, t) {
        ReachesTransitive(w, db, filter, a, b, t);
      }
    }
  }

  lemma LinkedInGroup(w: World, db: Contacts, coalition: Coalition, a: Track, b: Track)
    requires Candidate(db, coalition, a) && Candidate(db, coalition, b) && Links(w, GroupCategory(w, a), a, b)
    ensures b in GroupSet(w, db, a)
  {
    ReachesSelf(w, db, GroupCategory(w, a), a);
    ReachesStep(w, db, GroupCategory(w, a), a, a, b);
  }

  // Every member of a group would have formed the same group exactly when every
  // link can be followed back.
  lemma CoherentIffReturn(w: World, db: Contacts, coalition: Coalition)
    ensures Coherent(w, db, coalition) <==> LinksReturn(w, db, coalition)
  {
    hide GroupSet, Links, GroupCategory, Reaches;
    if Coherent(w, db, coalition) {
      forall a, b | Candidate(db, coalition, a) && Candidate(db, coalition, b) && Links(w, GroupCategory(w, a), a, b)
        ensures Reaches(w, db, GroupCategory(w, b), b, a)
      {
        LinkedInGroup(w, db, coalition, a, b);
        SeedInGroup(w, db, coalition, a);
        assert a in GroupSet(w, db, b);
        InGroupReaches(w, db, coalition, b, a);
      }
    }
    if LinksReturn(w, db, coalition) {
      forall a, b | Candidate(db, coalition, a) && b in GroupSet(w, db, a)
        ensures GroupSet(w, db, b) == GroupSet(w, db, a)
      {
        ReturnSameGroup(w, db, coalition, a, b);
      }
    }
  }

  lemma InGroupReaches(w: World, db: Contacts, coalition: Coalition, a: Track, t: Track)
    requires Candidate(db, coalition, a) && t in GroupSet(w, db, a)
    ensures Reaches(w, db, GroupCategory(w, a), a, t)
  {
  }

  // The groups are disjoint in whatever order the contacts are listed exactly
  // when every link between eligible contacts can be followed back.
  lemma DisjointIffLinksReturn(w: World, db: Contacts, coalition: Coalition)
    requires Keyed(db)
    ensures (forall order :: Lists(db, order) ==> Disjoint(Enumerated(w, db, coalition, order, |order|)))
        <==> LinksReturn(w, db, coalition)
  {
    hide *;
    DisjointIffCoherent(w, db, coalition);
    CoherentIffReturn(w, db, coalition);
  }

  // When every link can be followed back, in particular when links are symmetric,
  // the groups partition the eligible contacts of the coalition, in whatever order
  // the contacts are listed.
  lemma ReturnPartition(w: World, db: Contacts, coalition: Coalition, order: seq<Track>)
    requires Lists(db, order) && LinksReturn(w, db, coalition)
    ensures var groups := Enumerated(w, db, coalition, order, |order|);
            && Disjoint(groups)
            && forall t :: InSome(groups, t) <==> Candidate(db, coalition, t)
  {
    hide GroupSet, LinksReturn, Enumerated;
    CoherentIffReturn(w, db, coalition);
    CoherentDisjoint(w, db, coalition, order, |order|);
    EnumerationCovers(w, db, coalition, order, |order|);
    forall t | Candidate(db, coalition, t) ensures InSome(Enumerated(w, db, coalition, order, |order|), t) {
      assert db[t.id] in order;
      var j :| 0 <= j < |order| && order[j] == t;
    }
  }

  // Whenever one aircraft picks another, the other picks it.
  ghost predicate Symmetric(w: World, db: Contacts, coalition: Coalition) {
    forall a, b :: Candidate(db, coalition, a) && Candidate(db, coalition, b) && Links(w, GroupCategory(w, a), a, b) ==>
                     Links(w, GroupCategory(w, b), b, a)
  }

  lemma SymmetricReturns(w: World, db: Contacts, coalition: Coalition)
    requires Symmetric(w, db, coalition)
    ensures LinksReturn(w, db, coalition)
  {
    hide Links, GroupCategory, Reaches;
    forall a, b | Candidate(db, coalition, a) && Candidate(db, coalition, b) && Links(w, GroupCategory(w, a), a, b)
      ensures Reaches(w, db, GroupCategory(w, b), b, a)
    {
      ReachesSelf(w, db, GroupCategory(w, b), b);
      ReachesStep(w, db, GroupCategory(w, b), b, b, a);
    }
  }

  lemma SymmetricPartition(w: World, db: Contacts, coalition: Coalition, order: seq<Track>)
    requires Lists(db, order) && Symmetric(w, db, coalition)
    ensures var groups := Enumerated(w, db, coalition, order, |order|);
            && Disjoint(groups)
            && forall t :: InSome(groups, t) <==> Candidate(db, coalition, t)
  {
    hide *;
    SymmetricReturns(w, db, coalition);
    ReturnPartition(w, db, coalition, order);
  }

  // ---- links that go one way only ----

  // Two helicopters a hair's breadth apart, with the tags the encyclopedia gives
  // them.
  const STALLION := Track(1, "Super 1 1", Blue, "CH-53E", Some(0), Point(1.0, 1.0), Some(1000.0), 0.0)
  const HIND := Track(2, "Hind 1 1", Blue, "Mi-24P", Some(0), Point(1.0, 1.0), Some(1000.0), 0.0)
  const PAIR: Contacts := map[1 := STALLION, 2 := HIND]
  const HELICOPTERS := World(
    map["CH-53E" := {RotaryWingTag, Unarmed}, "Mi-24P" := {RotaryWingTag, Attack, Unarmed}],
    (p, q) => 0.0)

  // The CH-53E picks the Mi-24 by the tag Unarmed, but the Mi-24 picks attack
  // aircraft only: listed first, it ends up in two groups.
  lemma OneWayOverlap() returns (order: seq<Track>)
    ensures Lists(PAIR, order) && !Disjoint(Enumerated(HELICOPTERS, PAIR, Blue, order, |order|))
  {
    var w, db := HELICOPTERS, PAIR;
    ReachesSelf(w, db, RotaryWing, STALLION);
    ReachesStep(w, db, RotaryWing, STALLION, STALLION, HIND);
    forall path | IsPath(w, db, RotaryWing, path) && path[0] == HIND
      ensures path[|path| - 1] != STALLION
    {
      ClosedHoldsPath(w, db, RotaryWing, [HIND], path);
    }
    assert !Reaches(w, db, RotaryWing, HIND, STALLION);
    assert HIND in GroupSet(w, db, STALLION) && STALLION !in GroupSet(w, db, HIND);
    SeedInGroup(w, db, Blue, HIND);
    order := OverlapFrom(w, db, Blue, HIND, STALLION, HIND);
  }
}
