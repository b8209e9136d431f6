// The contact database: trackfiles under their IDs, and an index from callsigns
// to IDs that set and delete keep in step.
module ContactDatabase {
  import opened Wrappers
  import opened Trackfiles

  type Index = map<Coalition, map<string, nat>>

  datatype Database = Database(contacts: Contacts, index: Index)

  const EMPTY_INDEX: Index := map[Blue := map[], Red := map[], Neutrals := map[]]

  predicate AllCoalitions(index: Index) {
    forall c: Coalition :: c in index
  }

  predicate WellFormed(db: Database) {
    Keyed(db.contacts) && AllCoalitions(db.index)
  }

  lemma EmptyIndexComplete()
    ensures forall c: Coalition :: c in EMPTY_INDEX && EMPTY_INDEX[c] == map[]
  {
    forall c: Coalition ensures c in EMPTY_INDEX && EMPTY_INDEX[c] == map[] {
      match c {
        case Red =>
        case Blue =>
        case Neutrals =>
      }
    }
  }

  // reset
  function Empty(): (db: Database)
    ensures WellFormed(db)
  {
    EmptyIndexComplete();
    Database(map[], EMPTY_INDEX)
  }

  // set
  function Added(db: Database, t: Track): (after: Database)
    requires WellFormed(db)
    ensures WellFormed(after)
  {
    var names: map<string, nat> := db.index[t.coalition][t.name := t.id];
    Database(db.contacts[t.id := t], db.index[t.coalition := names])
  }

  // delete
  function Removed(db: Database, id: nat): (after: Database)
    requires WellFormed(db)
    ensures WellFormed(after)
  {
    var index := if id !in db.contacts then db.index
                 else
                   var t := db.contacts[id];
                   db.index[t.coalition := db.index[t.coalition] - {t.name}];
    Database(db.contacts - {id}, index)
  }

  // ---- what the index promises ----

  predicate Indexed(db: Database, c: Coalition, name: string, id: nat)
    requires WellFormed(db)
  {
    name in db.index[c] && db.index[c][name] == id
  }

  predicate Live(db: Database, c: Coalition, name: string, id: nat) {
    id in db.contacts && db.contacts[id].coalition == c && db.contacts[id].name == name
  }

  // Every index entry points at a live trackfile with those labels.
  ghost predicate Sound(db: Database) {
    WellFormed(db) && forall c, name, id :: Indexed(db, c, name, id) ==> Live(db, c, name, id)
  }

  // The index is exactly the inverse of the labels.
  ghost predicate Exact(db: Database) {
    WellFormed(db) && forall c, name, id :: Indexed(db, c, name, id) <==> Live(db, c, name, id)
  }

  // No live trackfile of the coalition has the name.
  ghost predicate NameFree(db: Database, c: Coalition, name: string) {
    forall id :: !Live(db, c, name, id)
  }

  lemma EmptyExact()
    ensures Exact(Empty()) && Sound(Empty())
  {
    EmptyIndexComplete();
  }

  // Adding an absent ID keeps the index sound, whatever names are in use.
  lemma SetSound(db: Database, t: Track)
    requires Sound(db) && t.id !in db.contacts
    ensures Sound(Added(db, t))
  {
    var after := Added(db, t);
    forall c, name, id | Indexed(after, c, name, id) ensures Live(after, c, name, id) {
      if !(c == t.coalition && name == t.name) {
        assert Indexed(db, c, name, id);
      }
    }
  }

  lemma DeleteSound(db: Database, id: nat)
    requires Sound(db)
    ensures Sound(Removed(db, id))
  {
    var after := Removed(db, id);
    forall c, name, other | Indexed(after, c, name, other) ensures Live(after, c, name, other) {
      assert Indexed(db, c, name, other);
    }
  }

  // A new frame does not touch the labels.
  lemma UpdateSound(db: Database, id: nat, f: Frame)
    requires id in db.contacts
    ensures Sound(db) ==> Sound(db.(contacts := db.contacts[id := UpdateTrack(db.contacts[id], f)]))
  {
    var after := db.(contacts := db.contacts[id := UpdateTrack(db.contacts[id], f)]);
    if Sound(db) {
      forall c, name, other | Indexed(after, c, name, other) ensures Live(after, c, name, other) {
        assert Indexed(db, c, name, other);
      }
    }
  }

  // Adding an absent ID keeps the index exact if and only if no live trackfile
  // of the coalition has its name.
  lemma SetExact(db: Database, t: Track)
    requires Exact(db) && t.id !in db.contacts
    ensures Exact(Added(db, t)) <==> NameFree(db, t.coalition, t.name)
  {
    var after := Added(db, t);
    if NameFree(db, t.coalition, t.name) {
      forall c, name, id ensures Indexed(after, c, name, id) <==> Live(after, c, name, id) {
        assert Indexed(db, c, name, id) <==> Live(db, c, name, id);
        assert c == t.coalition && name == t.name ==> !Live(db, c, name, id);
      }
    } else {
      var id :| Live(db, t.coalition, t.name, id);
      assert Live(after, t.coalition, t.name, id) && !Indexed(after, t.coalition, t.name, id);
    }
  }

  lemma DeleteExact(db: Database, id: nat)
    requires Exact(db)
    ensures Exact(Removed(db, id))
  {
    var after := Removed(db, id);
    forall c, name, other ensures Indexed(after, c, name, other) <==> Live(after, c, name, other) {
      assert Indexed(db, c, name, other) <==> Live(db, c, name, other);
      if id in db.contacts {
        assert Live(db, db.contacts[id].coalition, db.contacts[id].name, id);
      }
    }
  }

  // Deleting one of two namesakes leaves the other unindexed although its name is
  // unique again.
  lemma NamesakeLost()
    ensures var a := NewTrack(Labels(1, "Viper 1 1", Blue, "F-16C"));
            var b := NewTrack(Labels(2, "Viper 1 1", Blue, "F-16C"));
            var db := Removed(Added(Added(Empty(), a), b), 1);
            db.contacts == map[2 := b] && !Exact(db)
  {
    var a := NewTrack(Labels(1, "Viper 1 1", Blue, "F-16C"));
    var b := NewTrack(Labels(2, "Viper 1 1", Blue, "F-16C"));
    var db := Removed(Added(Added(Empty(), a), b), 1);
    assert db.contacts == map[2 := b];
    assert Live(db, Blue, "Viper 1 1", 2) && !Indexed(db, Blue, "Viper 1 1", 2);
  }

  // ---- runs ----

  datatype Operation =
    | SetOp(track: Track)
    | DeleteOp(id: nat)
    | FrameOp(id: nat, frame: Frame)
    | ResetOp

  function Apply(db: Database, op: Operation): (after: Database)
    requires WellFormed(db)
    ensures WellFormed(after)
  {
    match op
    case SetOp(t) => Added(db, t)
    case DeleteOp(id) => Removed(db, id)
    case FrameOp(id, f) =>
      if id in db.contacts then db.(contacts := db.contacts[id := UpdateTrack(db.contacts[id], f)]) else db
    case ResetOp => Empty()
  }

  function Run(ops: seq<Operation>): (db: Database)
    ensures WellFormed(db)
  {
    if ops == [] then Empty() else Apply(Run(ops[..|ops| - 1]), ops[|ops| - 1])
  }

  // Operation k gives the name to the ID.
  predicate Names(ops: seq<Operation>, k: nat, c: Coalition, name: string, id: nat)
    requires k < |ops|
  {
    ops[k].SetOp? && ops[k].track.id == id && ops[k].track.coalition == c && ops[k].track.name == name
  }

  // The operation takes the index entry of the name: it gives the name to another
  // ID, deletes a live contact of that name, or resets.
  predicate Takes(db: Database, op: Operation, c: Coalition, name: string) {
    match op
    case SetOp(t) => t.coalition == c && t.name == name
    case DeleteOp(id) => Live(db, c, name, id)
    case FrameOp(_, _) => false
    case ResetOp => true
  }

  predicate Unlists(ops: seq<Operation>, m: nat, c: Coalition, name: string)
    requires m < |ops|
  {
    Takes(Run(ops[..m]), ops[m], c, name)
  }

  ghost predicate ListedSince(ops: seq<Operation>, c: Coalition, name: string, id: nat) {
    exists k :: 0 <= k < |ops| && Names(ops, k, c, name, id)
                && forall m :: k < m < |ops| ==> !Unlists(ops, m, c, name)
  }

  lemma StepIndexed(db: Database, op: Operation, c: Coalition, name: string, id: nat)
    requires WellFormed(db)
    ensures Indexed(Apply(db, op), c, name, id)
       <==> Names([op], 0, c, name, id) || (Indexed(db, c, name, id) && !Takes(db, op, c, name))
  {
    EmptyIndexComplete();
  }

  lemma ListedSinceStep(ops: seq<Operation>, op: Operation, c: Coalition, name: string, id: nat)
    ensures ListedSince(ops + [op], c, name, id)
       <==> Names([op], 0, c, name, id) || (ListedSince(ops, c, name, id) && !Takes(Run(ops), op, c, name))
  {
    hide Takes, Run;
    var more := ops + [op];
    assert more[..|ops|] == ops;
    forall m | 0 <= m < |ops| ensures Unlists(more, m, c, name) == Unlists(ops, m, c, name) {
      assert more[..m] == ops[..m];
    }
    if Names([op], 0, c, name, id) {
      assert Names(more, |ops|, c, name, id);
    }
    if ListedSince(ops, c, name, id) && !Takes(Run(ops), op, c, name) {
      var k :| 0 <= k < |ops| && Names(ops, k, c, name, id) && forall m :: k < m < |ops| ==> !Unlists(ops, m, c, name);
      assert Names(more, k, c, name, id);
      assert forall m :: k < m < |more| ==> !Unlists(more, m, c, name);
    }
    if ListedSince(more, c, name, id) && !Names([op], 0, c, name, id) {
      var k :| 0 <= k < |more| && Names(more, k, c, name, id) && forall m :: k < m < |more| ==> !Unlists(more, m, c, name);
      assert k < |ops| && Names(ops, k, c, name, id) && !Unlists(more, |ops|, c, name);
      assert forall m :: k < m < |ops| ==> Unlists(more, m, c, name) == Unlists(ops, m, c, name);
    }
  }

  // After any run at all, the index has a name under an ID exactly when the ID was
  // given that name and no later operation took the entry.
  lemma {:induction false} IndexedIff(ops: seq<Operation>, c: Coalition, name: string, id: nat)
    ensures Indexed(Run(ops), c, name, id) <==> ListedSince(ops, c, name, id)
  {
    if ops == [] {
      EmptyIndexComplete();
    } else {
      hide Apply, Takes, ListedSince, Indexed;
      var init, op := ops[..|ops| - 1], ops[|ops| - 1];
      assert ops == init + [op];
      IndexedIff(init, c, name, id);
      StepIndexed(Run(init), op, c, name, id);
      ListedSinceStep(init, op, c, name, id);
    }
  }

  // The radar sets only IDs that are absent.
  ghost predicate Disciplined(ops: seq<Operation>) {
    forall m :: 0 <= m < |ops| && ops[m].SetOp? ==> ops[m].track.id !in Run(ops[..m]).contacts
  }

  lemma DisciplinedPrefix(ops: seq<Operation>, n: nat)
    requires Disciplined(ops) && n <= |ops|
    ensures Disciplined(ops[..n])
  {
    forall m | 0 <= m < n && ops[..n][m].SetOp? ensures ops[..n][m].track.id !in Run(ops[..n][..m]).contacts {
      assert ops[..n][..m] == ops[..m];
    }
  }

  lemma DisciplinedMore(ops: seq<Operation>, op: Operation)
    requires Disciplined(ops) && (op.SetOp? ==> op.track.id !in Run(ops).contacts)
    ensures Disciplined(ops + [op])
  {
    hide Run;
    var more := ops + [op];
    forall m | 0 <= m < |more| && more[m].SetOp? ensures more[m].track.id !in Run(more[..m]).contacts {
      assert more[..m] == ops[..m];
      assert m == |ops| ==> more[..m] == ops;
    }
  }

  // Every index entry of a disciplined run points at a live trackfile.
  lemma {:induction false} RunSound(ops: seq<Operation>)
    requires Disciplined(ops)
    ensures Sound(Run(ops))
  {
    if ops == [] {
      EmptyExact();
    } else {
      var init, op := ops[..|ops| - 1], ops[|ops| - 1];
      DisciplinedPrefix(ops, |ops| - 1);
      RunSound(init);
      var db := Run(init);
      match op {
        case SetOp(t) => SetSound(db, t);
        case DeleteOp(id) => DeleteSound(db, id);
        case FrameOp(id, f) => if id in db.contacts { UpdateSound(db, id, f); }
        case ResetOp => EmptyExact();
      }
    }
  }

  // The contact that operation k set is not deleted up to the end.
  predicate Outlives(ops: seq<Operation>, k: nat)
    requires k < |ops|
  {
    ops[k].SetOp? && forall m :: k < m < |ops| ==> ops[m] != ResetOp && ops[m] != DeleteOp(ops[k].track.id)
  }

  lemma StaysLive(db: Database, op: Operation, c: Coalition, name: string, id: nat)
    requires WellFormed(db) && Live(db, c, name, id) && op != ResetOp && op != DeleteOp(id)
    requires op.SetOp? ==> op.track.id != id
    ensures Live(Apply(db, op), c, name, id)
  {
  }

  lemma {:induction false} OutlivesLive(ops: seq<Operation>, k: nat)
    requires Disciplined(ops) && k < |ops| && Outlives(ops, k)
    ensures var t := ops[k].track; Live(Run(ops), t.coalition, t.name, t.id)
    decreases |ops|
  {
    if k < |ops| - 1 {
      hide Apply;
      var init, op, t := ops[..|ops| - 1], ops[|ops| - 1], ops[k].track;
      DisciplinedPrefix(ops, |ops| - 1);
      assert Outlives(init, k);
      OutlivesLive(init, k);
      StaysLive(Run(init), op, t.coalition, t.name, t.id);
    }
  }

  // A contact that is there after an operation was set by it, or there before.
  lemma StepLive(db: Database, op: Operation, id: nat)
    requires WellFormed(db) && id in Apply(db, op).contacts
    ensures (op.SetOp? && op.track.id == id) || (id in db.contacts && op != ResetOp && op != DeleteOp(id))
  {
  }

  lemma {:induction false} LiveOutlives(ops: seq<Operation>, id: nat) returns (k: nat)
    requires Disciplined(ops) && id in Run(ops).contacts
    ensures k < |ops| && Outlives(ops, k) && ops[k].track.id == id
  {
    hide Apply;
    var init, op := ops[..|ops| - 1], ops[|ops| - 1];
    DisciplinedPrefix(ops, |ops| - 1);
    StepLive(Run(init), op, id);
    if op.SetOp? && op.track.id == id {
      k := |ops| - 1;
    } else {
      k := LiveOutlives(init, id);
      assert forall m :: k <= m < |init| ==> init[m] == ops[m];
    }
  }

  // An ID is not set again while its contact is in the database.
  lemma SetOnce(ops: seq<Operation>, k: nat, j: nat)
    requires Disciplined(ops) && k < j < |ops| && Outlives(ops, k) && ops[j].SetOp?
    ensures ops[j].track.id != ops[k].track.id
  {
    DisciplinedPrefix(ops, j);
    assert Outlives(ops[..j], k);
    OutlivesLive(ops[..j], k);
  }

  // A live contact is missing from the index exactly when, since it was set, its
  // name was given to another contact or a live namesake was deleted.
  lemma MissingIff(ops: seq<Operation>, k: nat)
    requires Disciplined(ops) && k < |ops| && Outlives(ops, k)
    ensures var t := ops[k].track;
      && Live(Run(ops), t.coalition, t.name, t.id)
      && (!Indexed(Run(ops), t.coalition, t.name, t.id)
          <==> exists m :: k < m < |ops| && Unlists(ops, m, t.coalition, t.name))
  {
    hide Run, Indexed, Live;
    var t := ops[k].track;
    OutlivesLive(ops, k);
    IndexedIff(ops, t.coalition, t.name, t.id);
    if forall m :: k < m < |ops| ==> !Unlists(ops, m, t.coalition, t.name) {
      assert Names(ops, k, t.coalition, t.name, t.id);
    } else {
      var m :| k < m < |ops| && Unlists(ops, m, t.coalition, t.name);
      forall j | 0 <= j < |ops| && Names(ops, j, t.coalition, t.name, t.id)
        ensures exists i :: j < i < |ops| && Unlists(ops, i, t.coalition, t.name)
      {
        if j > k {
          SetOnce(ops, k, j);
        }
        assert j < m;
      }
    }
  }

  // No name in use was given again, and no namesake deleted, while its first holder
  // was in the database.
  ghost predicate NamesKept(ops: seq<Operation>) {
    forall k, m :: 0 <= k < m < |ops| && Outlives(ops, k) ==>
                     !Unlists(ops, m, ops[k].track.coalition, ops[k].track.name)
  }

  // After a disciplined run the index is the inverse of the labels exactly when the
  // names of the contacts still in the database were kept.
  lemma ExactIff(ops: seq<Operation>)
    requires Disciplined(ops)
    ensures Exact(Run(ops)) <==> NamesKept(ops)
  {
    hide Run, Unlists;
    var db := Run(ops);
    RunSound(ops);
    if NamesKept(ops) {
      forall c, name, id | Live(db, c, name, id) ensures Indexed(db, c, name, id) {
        var k := LiveOutlives(ops, id);
        MissingIff(ops, k);
      }
    }
    if Exact(db) {
      forall k, m | 0 <= k < m < |ops| && Outlives(ops, k)
        ensures !Unlists(ops, m, ops[k].track.coalition, ops[k].track.name)
      {
        MissingIff(ops, k);
      }
    }
  }

  // ---- callsign lookup ----

  // How a raw name is heard: its parsed form, or the name itself if it does not
  // parse.
  function Heard(parse: string -> Option<string>, name: string): string {
    match parse(name)
    case Some(callsign) => callsign
    case None => name
  }

  // No two indexed names of the coalition are heard alike.
  ghost predicate HeardApart(db: Database, c: Coalition, parse: string -> Option<string>)
    requires WellFormed(db)
  {
    forall m, n :: m in db.index[c] && n in db.index[c] && Heard(parse, m) == Heard(parse, n) ==> m == n
  }

  // A contact whose indexed name is heard as the callsign, or none if no indexed
  // name is.
  ghost predicate Answers(db: Database, callsign: string, c: Coalition, parse: string -> Option<string>, found: Option<Track>)
    requires WellFormed(db)
  {
    if found.None? then forall name :: name in db.index[c] ==> Heard(parse, name) != callsign
    else exists name ::
           && name in db.index[c] && Heard(parse, name) == callsign
           && db.index[c][name] in db.contacts && found.value == db.contacts[db.index[c][name]]
  }

  class ContactStore {
    var contacts: Contacts
    var callsignIdx: Index
    // the operations so far
    ghost var history: seq<Operation>

    function Contents(): Database
      reads this
    {
      Database(contacts, callsignIdx)
    }

    ghost predicate Valid()
      reads this
    {
      Contents() == Run(history)
    }

    constructor ()
      ensures Valid() && history == [] && Contents() == Empty()
    {
      contacts := map[];
      callsignIdx := EMPTY_INDEX;
      history := [];
    }

    // getByID
    method GetByID(id: nat) returns (t: Option<Track>)
      ensures t == if id in contacts then Some(contacts[id]) else None
    {
      t := if id in contacts then Some(contacts[id]) else None;
    }

    // set
    method Set(t: Track)
      requires Valid()
      modifies this
      ensures Valid() && history == old(history) + [SetOp(t)]
      ensures Contents() == Added(old(Contents()), t)
    {
      var names: map<string, nat> := callsignIdx[t.coalition][t.name := t.id];
      callsignIdx := callsignIdx[t.coalition := names];
      contacts := contacts[t.id := t];
      history := history + [SetOp(t)];
    }

    // Update on a trackfile of the database
    method Update(id: nat, f: Frame)
      requires Valid() && id in contacts
      modifies `contacts, `history
      ensures Valid() && history == old(history) + [FrameOp(id, f)]
      ensures contacts == old(contacts)[id := UpdateTrack(old(contacts)[id], f)]
    {
      contacts := contacts[id := UpdateTrack(contacts[id], f)];
      history := history + [FrameOp(id, f)];
    }

    // delete
    method Delete(id: nat) returns (ok: bool)
      requires Valid()
      modifies this
      ensures Valid() && history == old(history) + [DeleteOp(id)]
      ensures Contents() == Removed(old(Contents()), id) && ok == (id in old(contacts))
    {
      ok := id in contacts;
      if ok {
        var t := contacts[id];
        callsignIdx := callsignIdx[t.coalition := callsignIdx[t.coalition] - {t.name}];
      }
      contacts := contacts - {id};
      history := history + [DeleteOp(id)];
    }

    // reset
    method Reset()
      requires Valid()
      modifies this
      ensures Valid() && history == old(history) + [ResetOp]
      ensures Contents() == Empty()
    {
      contacts := map[];
      callsignIdx := EMPTY_INDEX;
      history := history + [ResetOp];
    }

    // getByCallsignAndCoalititon, up to the point where it would go on to a fuzzy
    // search
    method GetByCallsign(callsign: string, c: Coalition, parse: string -> Option<string>)
      returns (foundCallsign: string, found: Option<Track>)
      requires Valid()
      ensures Sound(Contents()) ==> Answers(Contents(), callsign, c, parse, found)
      ensures foundCallsign == if found.Some? then callsign else ""
    {
      var normalized: map<string, nat> := map[];
      var rest := callsignIdx[c].Keys;
      while rest != {}
        invariant rest <= callsignIdx[c].Keys
        invariant forall k :: k in normalized ==> exists name ::
                    name in callsignIdx[c] && Heard(parse, name) == k && normalized[k] == callsignIdx[c][name]
        invariant forall name :: name in callsignIdx[c] && name !in rest ==> Heard(parse, name) in normalized
        decreases rest
      {
        var rawName :| rawName in rest;
        rest := rest - {rawName};
        var parsed := Heard(parse, rawName);
        normalized := normalized[parsed := callsignIdx[c][rawName]];
      }
      if callsign !in normalized {
        return "", None;
      }
      foundCallsign := callsign;
      var id := normalized[callsign];
      ghost var name :| name in callsignIdx[c] && Heard(parse, name) == callsign && id == callsignIdx[c][name];
      assert Indexed(Contents(), c, name, id);
      if id !in contacts {
        return "", None;
      }
      return callsign, Some(contacts[id]);
    }
  }

  // What a linear scan of the contacts would say: the answer is the one contact of
  // the coalition heard so, and no answer means that there is none.
  ghost predicate Scan(db: Database, callsign: string, c: Coalition, parse: string -> Option<string>, found: Option<Track>) {
    && (forall id :: id in db.contacts ==>
          (db.contacts[id].coalition == c && Heard(parse, db.contacts[id].name) == callsign
           <==> found == Some(db.contacts[id])))
    && (found.Some? ==> found.value in db.contacts.Values)
  }

  // When the index is exact and no two names are heard alike, any answer an exact
  // lookup may give agrees with a scan.
  lemma LookupIsScan(db: Database, callsign: string, c: Coalition, parse: string -> Option<string>, found: Option<Track>)
    requires Exact(db) && HeardApart(db, c, parse)
    requires Answers(db, callsign, c, parse, found)
    ensures Scan(db, callsign, c, parse, found)
  {
    forall id | id in db.contacts
      ensures db.contacts[id].coalition == c && Heard(parse, db.contacts[id].name) == callsign
          <==> found == Some(db.contacts[id])
    {
      var t := db.contacts[id];
      if t.coalition == c && Heard(parse, t.name) == callsign {
        assert Live(db, c, t.name, id);
        assert Indexed(db, c, t.name, id);
      }
      if found == Some(t) {
        var name :| name in db.index[c] && Heard(parse, name) == callsign
                    && db.index[c][name] in db.contacts && found.value == db.contacts[db.index[c][name]];
        assert Indexed(db, c, name, db.index[c][name]);
        assert Live(db, c, name, db.index[c][name]);
      }
    }
  }

  // Some answer is always possible.
  lemma AnswerExists(db: Database, callsign: string, c: Coalition, parse: string -> Option<string>) returns (found: Option<Track>)
    requires Sound(db)
    ensures Answers(db, callsign, c, parse, found)
  {
    if name :| name in db.index[c] && Heard(parse, name) == callsign {
      assert Indexed(db, c, name, db.index[c][name]);
      assert Live(db, c, name, db.index[c][name]);
      found := Some(db.contacts[db.index[c][name]]);
    } else {
      found := None;
    }
  }

  lemma MissingDiffers(db: Database, c: Coalition, name: string, id: nat, parse: string -> Option<string>, found: Option<Track>)
    requires Sound(db) && Live(db, c, name, id) && !Indexed(db, c, name, id)
    requires Answers(db, Heard(parse, name), c, parse, found)
    ensures !Scan(db, Heard(parse, name), c, parse, found)
  {
    if found == Some(db.contacts[id]) {
      var n :| n in db.index[c] && Heard(parse, n) == Heard(parse, name)
               && db.index[c][n] in db.contacts && found.value == db.contacts[db.index[c][n]];
      assert Indexed(db, c, n, db.index[c][n]);
    }
  }

  // Exact lookups agree with a scan, for all callsigns and coalitions and whichever
  // of two names heard alike wins, exactly when the index is the inverse of the
  // labels and no two indexed names are heard alike.
  lemma LookupsAreScansIff(db: Database, parse: string -> Option<string>)
    requires Sound(db)
    ensures (forall callsign, c, found :: Answers(db, callsign, c, parse, found) ==> Scan(db, callsign, c, parse, found))
       <==> Exact(db) && forall c :: HeardApart(db, c, parse)
  {
    hide Answers, Scan, HeardApart;
    if Exact(db) && forall c :: HeardApart(db, c, parse) {
      forall callsign, c, found | Answers(db, callsign, c, parse, found) ensures Scan(db, callsign, c, parse, found) {
        LookupIsScan(db, callsign, c, parse, found);
      }
    }
    if !Exact(db) {
      var c, name, id :| Live(db, c, name, id) && !Indexed(db, c, name, id);
      var found := AnswerExists(db, Heard(parse, name), c, parse);
      MissingDiffers(db, c, name, id, parse, found);
    }
    if c :| !HeardApart(db, c, parse) {
      TwoHeardAlike(db, c, parse);
    }
  }

  lemma TwoHeardAlike(db: Database, c: Coalition, parse: string -> Option<string>)
    requires Sound(db) && !HeardApart(db, c, parse)
    ensures exists callsign, found :: Answers(db, callsign, c, parse, found) && !Scan(db, callsign, c, parse, found)
  {
    var m, n :| m in db.index[c] && n in db.index[c] && Heard(parse, m) == Heard(parse, n) && m != n;
    assert Indexed(db, c, m, db.index[c][m]) && Indexed(db, c, n, db.index[c][n]);
    assert Live(db, c, m, db.index[c][m]) && Live(db, c, n, db.index[c][n]);
    var found := Some(db.contacts[db.index[c][m]]);
    assert Answers(db, Heard(parse, m), c, parse, found);
    assert found != Some(db.contacts[db.index[c][n]]);
    assert !Scan(db, Heard(parse, m), c, parse, found);
  }

  // After a disciplined run, that is when the names in use were kept and no two
  // indexed ones are heard alike.
  lemma LookupsAfterRun(ops: seq<Operation>, parse: string -> Option<string>)
    requires Disciplined(ops)
    ensures (forall callsign, c, found ::
               Answers(Run(ops), callsign, c, parse, found) ==> Scan(Run(ops), callsign, c, parse, found))
       <==> NamesKept(ops) && forall c :: HeardApart(Run(ops), c, parse)
  {
    hide *;
    RunSound(ops);
    ExactIff(ops);
    LookupsAreScansIff(Run(ops), parse);
  }
}
