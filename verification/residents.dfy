/** The mock residents endpoint: `list(q)`, the residents, optionally narrowed
    by a case-insensitive search on name and e-mail. */
module Residents {
  import opened Wrappers
  import opened MockDb
  import Seqs
  import Text

  /** The `vehicle` column: the stored record, or the dash `"—"`. */
  datatype VehicleCell = Dash | Record(vehicle: map<string, string>)

  datatype ResidentRow = ResidentRow(id: string, name: string, email: string, vehicle: VehicleCell)

  function IsResident(): User -> bool {
    (u: User) => u.role == Resident
  }

  /** `u.name.toLowerCase().includes(n) || u.email.toLowerCase().includes(n)`
      with `n` the lower-cased query. */
  predicate Matches(u: User, q: string) {
    var n := Text.ToLower(q);
    Text.Includes(Text.ToLower(u.name), n) || Text.Includes(Text.ToLower(u.email), n)
  }

  function MatchesQuery(q: string): User -> bool {
    (u: User) => Matches(u, q)
  }

  /** A resident the query selects. */
  function Selected(q: string): User -> bool {
    (u: User) => u.role == Resident && Matches(u, q)
  }

  /** The row of an unfiltered listing: `u.vehicle ?? "—"`. */
  function FullRow(u: User): ResidentRow {
    ResidentRow(u.id, u.name, u.email, if u.vehicle.Some? then Record(u.vehicle.value) else Dash)
  }

  /** The row of a search result: the vehicle is always the dash. */
  function SearchRow(u: User): ResidentRow {
    ResidentRow(u.id, u.name, u.email, Dash)
  }

  /** `list(q)`: residents only; with an empty query all of them with their
      vehicles, otherwise those whose name or e-mail contains the query,
      ignoring case, with a dash for the vehicle. The query is not trimmed. */
  function List(users: seq<User>, q: string): (rows: seq<ResidentRow>)
    ensures |rows| <= |users|
    ensures q != "" ==> forall k :: 0 <= k < |rows| ==> rows[k].vehicle == Dash
  {
    var residents := Seqs.Filter(users, IsResident());
    if q == "" then
      seq(|residents|, k requires 0 <= k < |residents| => FullRow(residents[k]))
    else
      var hits := Seqs.Filter(residents, MatchesQuery(q));
      seq(|hits|, k requires 0 <= k < |hits| => SearchRow(hits[k]))
  }

  /** Every listed row is the row of a resident: nobody else is ever returned. */
  lemma ListOnlyResidents(users: seq<User>, q: string)
    ensures forall k :: 0 <= k < |List(users, q)| ==>
      exists u :: u in users && u.role == Resident && u.id == List(users, q)[k].id
                  && u.name == List(users, q)[k].name && u.email == List(users, q)[k].email
  {
    var rows := List(users, q);
    var residents := Seqs.Filter(users, IsResident());
    forall k | 0 <= k < |rows|
      ensures exists u :: u in users && u.role == Resident && u.id == rows[k].id
                          && u.name == rows[k].name && u.email == rows[k].email
    {
      if q == "" {
        assert residents[k] in residents;
      } else {
        var hits := Seqs.Filter(residents, MatchesQuery(q));
        assert hits[k] in hits && hits[k] in residents;
      }
    }
  }

  /** With an empty query, the rows are all residents in their original order:
      the k-th row is the full row of the k-th resident. */
  lemma ListAllResidents(users: seq<User>)
    ensures var pos := Seqs.Positions(users, IsResident());
            |List(users, "")| == |pos|
            && forall k :: 0 <= k < |pos| ==> List(users, "")[k] == FullRow(users[pos[k]])
  {
    Seqs.FilterIsPositions(users, IsResident());
  }

  /** With a non-empty query, the rows are exactly the selected residents in
      their original order: the k-th row is the search row of the user at the
      k-th (ascending) index that is a resident matching the query, and every
      such index occurs. */
  lemma ListSearch(users: seq<User>, q: string)
    requires q != ""
    ensures var pos := Seqs.Positions(users, Selected(q));
            |List(users, q)| == |pos|
            && forall k :: 0 <= k < |pos| ==> List(users, q)[k] == SearchRow(users[pos[k]])
  {
    var residents := Seqs.Filter(users, IsResident());
    Seqs.FilterFilter(users, IsResident(), MatchesQuery(q), Selected(q));
    Seqs.FilterIsPositions(users, Selected(q));
  }

  /** Searching ignores case: a query and its lower-cased form give the same
      rows. */
  lemma ListSearchIgnoresCase(users: seq<User>, q: string)
    requires q != ""
    ensures List(users, Text.ToLower(q)) == List(users, q)
  {
    Text.ToLowerIdempotent(q);
    assert Text.ToLower(q) != "";
    Seqs.FilterExt(Seqs.Filter(users, IsResident()), MatchesQuery(Text.ToLower(q)), MatchesQuery(q));
  }
}
