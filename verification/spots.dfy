/** The mock spot endpoints: `list`, which filters by status and adds the
    holder's name, and `update`, which merges a partial record into one spot. */
module Spots {
  import opened Wrappers
  import opened MockDb
  import Seqs

  /** The status as the source spells it. */
  function StatusName(s: SpotStatus): string {
    match s
    case Available => "available"
    case Assigned => "assigned"
    case Reserved => "reserved"
    case Maintenance => "maintenance"
  }

  /** Distinct statuses have distinct names. */
  lemma StatusNameInjective(a: SpotStatus, b: SpotStatus)
    ensures StatusName(a) == StatusName(b) <==> a == b
  {
  }

  /** A listed spot: the stored record plus the name of its holder. */
  datatype SpotRow = SpotRow(spot: Spot, residentName: Option<string>)

  /** `s.status === status`. */
  function HasStatus(status: string): Spot -> bool {
    (s: Spot) => StatusName(s.status) == status
  }

  /** `users.find((u) => u.id === id)`, as the index of the first match. */
  function UserWithId(users: seq<User>, id: string): (r: Option<nat>)
    ensures r.None? <==> forall u :: u in users ==> u.id != id
    ensures r.Some? ==> r.value < |users| && users[r.value].id == id
    ensures r.Some? ==> forall m :: 0 <= m < r.value ==> users[m].id != id
  {
    var r := Seqs.FindIndex(users, (u: User) => u.id == id);
    assert r.None? ==> forall u :: u in users ==> u.id != id by {
      if r.None? {
        forall u | u in users ensures u.id != id {
          var k :| 0 <= k < |users| && users[k] == u;
        }
      }
    }
    r
  }

  /** The `residentName` of a spot: when its `residentId` is a non-empty
      string, the name of the first user with that id, if any. */
  function ResidentName(users: seq<User>, s: Spot): (n: Option<string>)
    ensures n.Some? <==> s.residentId.Some? && s.residentId.value != ""
                         && exists u :: u in users && u.id == s.residentId.value
    ensures n.Some? ==> forall k ::
      (0 <= k < |users| && users[k].id == s.residentId.value
        && forall m :: 0 <= m < k ==> users[m].id != s.residentId.value) ==>
      n.value == users[k].name
  {
    if s.residentId.None? || s.residentId.value == "" then None
    else
      var id := s.residentId.value;
      match UserWithId(users, id)
      case None => None
      case Some(k) =>
        assert users[k] in users;
        Some(users[k].name)
  }

  /** The spots `list` shows: those with the given status when a non-empty
      status is given, all of them otherwise. */
  function Shown(spots: seq<Spot>, status: Option<string>): (s: seq<Spot>)
    ensures status.None? || status.value == "" ==> s == spots
    ensures status.Some? && status.value != "" ==>
      forall x :: x in s <==> x in spots && StatusName(x.status) == status.value
  {
    if status.Some? && status.value != "" then Seqs.Filter(spots, HasStatus(status.value)) else spots
  }

  /** `list({ status })`: the shown spots, each with its holder's name. */
  function List(db: Db, status: Option<string>): (rows: seq<SpotRow>)
    ensures |rows| == |Shown(db.spots, status)|
    ensures forall k :: 0 <= k < |rows| ==>
      rows[k].spot == Shown(db.spots, status)[k]
      && rows[k].residentName == ResidentName(db.users, rows[k].spot)
  {
    var shown := Shown(db.spots, status);
    seq(|shown|, k requires 0 <= k < |shown| => SpotRow(shown[k], ResidentName(db.users, shown[k])))
  }

  /** With a non-empty status, `list` returns the spots with that status in
      their original order: the k-th row is the spot at the k-th index
      (ascending) whose status matches, and every matching index occurs. */
  lemma ListByStatus(db: Db, status: string)
    requires status != ""
    ensures var rows := List(db, Some(status));
            var pos := Seqs.Positions(db.spots, HasStatus(status));
            |rows| == |pos|
            && forall k :: 0 <= k < |rows| ==> rows[k].spot == db.spots[pos[k]]
  {
    Seqs.FilterIsPositions(db.spots, HasStatus(status));
  }

  /** With a non-empty status, a spot is listed exactly when it is stored with
      that status. */
  lemma ListByStatusMembers(db: Db, status: string, s: Spot)
    requires status != ""
    ensures (exists k :: 0 <= k < |List(db, Some(status))| && List(db, Some(status))[k].spot == s)
            <==> s in db.spots && StatusName(s.status) == status
  {
    var rows := List(db, Some(status));
    var f := Seqs.Filter(db.spots, HasStatus(status));
    assert |rows| == |f|;
    if s in db.spots && StatusName(s.status) == status {
      assert s in f;
      var k :| 0 <= k < |f| && f[k] == s;
      assert rows[k].spot == s;
    }
    if exists k :: 0 <= k < |rows| && rows[k].spot == s {
      var k :| 0 <= k < |rows| && rows[k].spot == s;
      assert f[k] == s && f[k] in f;
    }
  }

  /** Without a status (or with an empty one), `list` returns every spot, in
      order. */
  lemma ListAll(db: Db, status: Option<string>)
    requires status.None? || status.value == ""
    ensures |List(db, status)| == |db.spots|
    ensures forall k :: 0 <= k < |db.spots| ==> List(db, status)[k].spot == db.spots[k]
  {
  }

  /** What `update` may change: the status and the resident. A field that is
      `None` is absent from the body; `residentId: Some(None)` sets it to
      `undefined`. */
  datatype Patch = Patch(status: Option<SpotStatus>, residentId: Option<Option<string>>)

  /** `Object.assign(spot, body)`. */
  function Apply(s: Spot, p: Patch): (r: Spot)
    ensures r.id == s.id
    ensures r.status == (if p.status.Some? then p.status.value else s.status)
    ensures r.residentId == (if p.residentId.Some? then p.residentId.value else s.residentId)
  {
    Spot(s.id, p.status.GetOr(s.status), p.residentId.GetOr(s.residentId))
  }

  /** The empty body changes nothing. */
  lemma ApplyEmpty(s: Spot)
    ensures Apply(s, Patch(None, None)) == s
  {
  }

  /** `update(id, body)`: the first spot with that id takes the body's fields;
      an unknown id throws "Spot not found". */
  function Update(db: Db, id: string, patch: Patch): (o: Outcome<Spot>)
    ensures o.result.Failure? <==> forall s :: s in db.spots ==> s.id != id
    ensures o.result.Failure? ==> o.db == db && o.result.error == "Spot not found"
    ensures o.result.Success? ==> forall k ::
      (0 <= k < |db.spots| && db.spots[k].id == id
        && forall m :: 0 <= m < k ==> db.spots[m].id != id) ==>
      o.result.value == Apply(db.spots[k], patch)
      && o.db == db.(spots := db.spots[k := Apply(db.spots[k], patch)])
  {
    var p := (s: Spot) => s.id == id;
    Seqs.FindIndexUnique(db.spots, p);
    match Seqs.FindIndex(db.spots, p)
    case None =>
      assert forall s :: s in db.spots ==> s.id != id;
      Outcome(db, Failure("Spot not found"))
    case Some(k) =>
      assert db.spots[k] in db.spots;
      var s := Apply(db.spots[k], patch);
      Outcome(db.(spots := db.spots[k := s]), Success(s))
  }

  /** A successful update changes only spots, and of those only one with the
      requested id; every spot keeps its id. */
  lemma UpdateOnlyTarget(db: Db, id: string, patch: Patch)
    requires Update(db, id, patch).result.Success?
    ensures var o := Update(db, id, patch);
            o.db.users == db.users && o.db.raffles == db.raffles
            && o.db.registrations == db.registrations && o.db.assignments == db.assignments
            && |o.db.spots| == |db.spots|
            && (forall i :: 0 <= i < |db.spots| ==> o.db.spots[i].id == db.spots[i].id)
            && (forall i :: 0 <= i < |db.spots| && o.db.spots[i] != db.spots[i] ==> db.spots[i].id == id)
  {
    var k :| 0 <= k < |db.spots| && db.spots[k].id == id;
    var first := Seqs.FindIndex(db.spots, (s: Spot) => s.id == id);
    assert first.Some?;
    Seqs.FindIndexUnique(db.spots, (s: Spot) => s.id == id);
    var j := first.value;
    assert Update(db, id, patch).db.spots == db.spots[j := Apply(db.spots[j], patch)];
  }

  /** An update keeps spot ids unique. */
  lemma UpdateKeepsUniqueIds(db: Db, id: string, patch: Patch)
    requires UniqueSpotIds(db.spots)
    ensures UniqueSpotIds(Update(db, id, patch).db.spots)
  {
    if Update(db, id, patch).result.Success? {
      UpdateOnlyTarget(db, id, patch);
    }
  }

  /** An update with an empty body leaves the database as it was. */
  lemma UpdateEmptyPatch(db: Db, id: string)
    ensures Update(db, id, Patch(None, None)).db == db
  {
    var o := Update(db, id, Patch(None, None));
    if o.result.Success? {
      var first := Seqs.FindIndex(db.spots, (s: Spot) => s.id == id);
      Seqs.FindIndexUnique(db.spots, (s: Spot) => s.id == id);
      var j := first.value;
      assert db.spots[j := Apply(db.spots[j], Patch(None, None))] == db.spots;
    }
  }
}
