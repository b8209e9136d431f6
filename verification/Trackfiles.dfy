// Trackfiles as the radar sees them, and what it knows about aircraft types.
module Trackfiles {
  import opened Wrappers

  datatype Coalition = Red | Blue | Neutrals

  datatype Point = Point(lon: real, lat: real)

  // Labels, the most recent frame (its time in seconds), and the speed over the
  // last two frames.
  datatype Track = Track(
    id: nat, name: string, coalition: Coalition, acmiName: string,
    lastSeen: Option<int>, point: Point, agl: Option<real>, speed: real)

  datatype Labels = Labels(id: nat, name: string, coalition: Coalition, acmiName: string)

  datatype Frame = Frame(time: int, point: Point, agl: Option<real>, speed: real)

  // New: a trackfile without frames has a zero point, no height and no speed.
  function NewTrack(l: Labels): Track {
    Track(l.id, l.name, l.coalition, l.acmiName, None, Point(0.0, 0.0), None, 0.0)
  }

  // Update: frames older than the most recent one are discarded.
  function UpdateTrack(t: Track, f: Frame): Track {
    if t.lastSeen.Some? && f.time < t.lastSeen.value then t
    else t.(lastSeen := Some(f.time), point := f.point, agl := f.agl, speed := f.speed)
  }

  function UpdatedBy(t: Track, fs: seq<Frame>): Track {
    if fs == [] then t else UpdateTrack(UpdatedBy(t, fs[..|fs| - 1]), fs[|fs| - 1])
  }

  // In whatever order frames arrive, a new trackfile ends with the latest, and with
  // the last to arrive of those at that time.
  lemma {:induction false} LatestKept(l: Labels, fs: seq<Frame>) returns (i: nat)
    requires fs != []
    ensures i < |fs| && forall j :: 0 <= j < |fs| ==> fs[j].time <= fs[i].time && (i < j ==> fs[j].time < fs[i].time)
    ensures UpdatedBy(NewTrack(l), fs)
         == Track(l.id, l.name, l.coalition, l.acmiName, Some(fs[i].time), fs[i].point, fs[i].agl, fs[i].speed)
  {
    var init, last := fs[..|fs| - 1], fs[|fs| - 1];
    i := |init|;
    if init != [] {
      var k := LatestKept(l, init);
      if last.time < fs[k].time {
        i := k;
      }
    }
  }

  datatype Tag = FixedWingTag | RotaryWingTag | Unarmed | Fighter | Attack

  datatype Category = Aircraft | FixedWing | RotaryWing

  // Facts from outside: the tags of every aircraft type in the encyclopedia, and
  // the distance between two points in nautical miles.
  datatype World = World(encyclopedia: map<string, set<Tag>>, distance: (Point, Point) -> real)

  const SPREAD_INTERVAL := 5.0 // nautical miles
  const MINIMUM_AGL := 10.0 // meters
  const MINIMUM_SPEED := 50.0 // knots

  predicate IsZero(p: Point) {
    p == Point(0.0, 0.0)
  }

  // isValidTrack
  predicate IsValidTrack(t: Track) {
    && !IsZero(t.point)
    && if t.agl.Some? then t.agl.value > MINIMUM_AGL else t.speed > MINIMUM_SPEED
  }

  function CategoryOf(tags: set<Tag>): Category {
    if FixedWingTag in tags then FixedWing
    else if RotaryWingTag in tags then RotaryWing
    else Aircraft
  }

  // isMatch: an aircraft type that is not in the encyclopedia matches any filter.
  predicate IsMatch(w: World, t: Track, coalition: Coalition, filter: Category) {
    && t.coalition == coalition
    && IsValidTrack(t)
    && (t.acmiName in w.encyclopedia ==>
          CategoryOf(w.encyclopedia[t.acmiName]) == filter || filter == Aircraft)
  }

  // The contacts of the database, under their IDs.
  type Contacts = map<nat, Track>

  predicate Keyed(db: Contacts) {
    forall id :: id in db ==> db[id].id == id
  }

  predicate Holds(db: Contacts, t: Track) {
    t.id in db && db[t.id] == t
  }

  // One listing of the contacts, in the order that values() happens to give.
  predicate Lists(db: Contacts, order: seq<Track>) {
    && (forall i :: 0 <= i < |order| ==> Holds(db, order[i]))
    && (forall i, j :: 0 <= i < j < |order| ==> order[i].id != order[j].id)
    && (forall id :: id in db ==> db[id] in order)
  }

  predicate DistinctIDs(ts: seq<Track>) {
    forall i, j :: 0 <= i < j < |ts| ==> ts[i].id != ts[j].id
  }

  // values()
  method Values(db: Contacts) returns (order: seq<Track>)
    requires Keyed(db)
    ensures Lists(db, order)
  {
    order := [];
    var rest := db.Keys;
    while rest != {}
      invariant rest <= db.Keys
      invariant forall i :: 0 <= i < |order| ==> Holds(db, order[i]) && order[i].id !in rest
      invariant forall i, j :: 0 <= i < j < |order| ==> order[i].id != order[j].id
      invariant forall id :: id in db && id !in rest ==> db[id] in order
      decreases rest
    {
      var id :| id in rest;
      rest := rest - {id};
      order := order + [db[id]];
    }
  }
}
