/** The mock backend's in-memory database: its record types, the default seed,
    `resetDB`, and the consistency rules the raffle engine keeps.

    The database is an immutable value; each operation of the other modules
    takes one and returns the next. Persistence to `localStorage` is not part of
    this model. */
module MockDb {
  import opened Wrappers
  import Seqs
  import Text

  datatype Role = Admin | Resident

  /** A vehicle is stored as the string record the source keeps (`id`,
      `residentId`, `type`, `plate`), or is absent. */
  datatype User = User(
    id: string,
    name: string,
    email: string,
    role: Role,
    password: string,
    vehicle: Option<map<string, string>>)

  /** A spot status is exactly one of these four. */
  datatype SpotStatus = Available | Assigned | Reserved | Maintenance

  datatype Spot = Spot(id: string, status: SpotStatus, residentId: Option<string>)

  datatype Winner = Winner(spotId: string, residentId: string)

  datatype Raffle = Raffle(id: string, cycle: string, ranAt: string, winners: seq<Winner>)

  datatype Registration = Registration(cycle: string, residentId: string, registeredAt: string)

  datatype Assignment = Assignment(cycle: string, spotId: string, residentId: string, assignedAt: string)

  datatype Db = Db(
    users: seq<User>,
    spots: seq<Spot>,
    raffles: seq<Raffle>,
    registrations: seq<Registration>,
    assignments: seq<Assignment>)

  /** What a mock endpoint leaves behind: the next state, and the value it
      returns or the message of the error it throws. */
  datatype Outcome<+R> = Outcome(db: Db, result: Result<R, string>)

  // ----- Consistency rules -----

  /** No two spots share an id. */
  ghost predicate UniqueSpotIds(spots: seq<Spot>) {
    forall i, j :: 0 <= i < j < |spots| ==> spots[i].id != spots[j].id
  }

  /** A resident is registered at most once per cycle. */
  ghost predicate UniqueRegistrations(regs: seq<Registration>) {
    forall i, j :: 0 <= i < j < |regs| ==>
      regs[i].cycle != regs[j].cycle || regs[i].residentId != regs[j].residentId
  }

  /** At most one raffle per cycle. */
  ghost predicate OneRafflePerCycle(raffles: seq<Raffle>) {
    forall i, j :: 0 <= i < j < |raffles| ==> raffles[i].cycle != raffles[j].cycle
  }

  ghost predicate WellFormed(db: Db) {
    && UniqueSpotIds(db.spots)
    && UniqueRegistrations(db.registrations)
    && OneRafflePerCycle(db.raffles)
  }

  // ----- The seed -----

  /** The seed's user ids: `u1`, `u2`, ... */
  function UserId(k: nat): string {
    "u" + Text.NatToString(k)
  }

  lemma UserIdInjective(a: nat, b: nat)
    requires UserId(a) == UserId(b)
    ensures a == b
  {
    assert Text.NatToString(a) == UserId(a)[1..] == UserId(b)[1..] == Text.NatToString(b);
    Text.NatToStringInjective(a, b);
  }

  const ResidentNames: seq<string> := [
    "Resident One", "Maria Gomez", "James Brown", "Sofia Mart\U{00ED}nez", "David Lee",
    "Aisha Khan", "Xavier Torres", "Chloe Smith", "Carlos Ruiz", "Emily Davis",
    "Ricardo Molina", "Hannah Clarke", "Mohamed Ali", "Laura Ramos", "Ethan Walker",
    "Daniela Ortiz", "William Parker", "Camila Rivera", "Oliver Green", "Isabella Flores"]

  const ResidentEmails: seq<string> := [
    "res1@demo.test", "maria.gomez@test.com", "james.brown@test.com", "sofia.m@test.com",
    "david.lee@test.com", "aisha.k@test.com", "x.torres@test.com", "chloe.smith@test.com",
    "carlos.ruiz@test.com", "emily.davis@test.com", "r.molina@test.com", "h.clarke@test.com",
    "m.ali@test.com", "laura.ramos@test.com", "ethan.walker@test.com", "daniela.ortiz@test.com",
    "will.parker@test.com", "camila.rivera@test.com", "oliver.green@test.com",
    "isabella.flores@test.com"]

  const ResidentVehicleTypes: seq<string> := [
    "car", "car", "car", "car", "motorcycle", "car", "car", "motorcycle", "car", "car",
    "car", "car", "motorcycle", "car", "car", "car", "car", "car", "car", "car"]

  const ResidentPlates: seq<string> := [
    "ABC-101", "XYZ-202", "LMN-303", "HJK-404", "MOTO-11", "PRQ-505", "TUV-606", "MOTO-22",
    "CDE-707", "QWE-808", "RTY-909", "IOP-010", "MOTO-33", "PLK-111", "GHJ-222", "ZXC-333",
    "VBN-444", "NMJ-555", "BGT-666", "WER-777"]

  /** The k-th seeded resident (0-based): user `u<k+2>` with vehicle `v<k+1>`. */
  function SeedResident(k: nat): User
    requires k < 20
  {
    User(UserId(k + 2), ResidentNames[k], ResidentEmails[k], Resident, "pass1234",
         Some(map["id" := "v" + Text.NatToString(k + 1), "residentId" := UserId(k + 2),
                  "type" := ResidentVehicleTypes[k], "plate" := ResidentPlates[k]]))
  }

  const SeedAdmin: User := User(UserId(1), "Admin", "admin@demo.test", Admin, "admin123", None)

  function SeedResidents(): (us: seq<User>)
    ensures |us| == 20
    ensures forall k :: 0 <= k < 20 ==> us[k] == SeedResident(k)
  {
    seq(20, k requires 0 <= k < 20 => SeedResident(k))
  }

  const SeedUsers: seq<User> := [SeedAdmin] + SeedResidents()

  /** Spot `k` of the 4x4 grid A1..D4, in row-major order. */
  function SeedSpot(k: nat): Spot
    requires k < 16
  {
    Spot([('A' as int + k / 4) as char, Text.Digit(k % 4 + 1)], Available, None)
  }

  function SeedGrid(): (spots: seq<Spot>)
    ensures |spots| == 16
    ensures forall k :: 0 <= k < 16 ==> spots[k] == SeedSpot(k)
  {
    seq(16, k requires 0 <= k < 16 => SeedSpot(k))
  }

  const SeedSpots: seq<Spot> := SeedGrid()

  /** Minutes `00`..`59` of a seeded registration time. */
  function TwoDigits(i: nat): string
    requires i < 60
  {
    [Text.Digit(i / 10), Text.Digit(i % 10)]
  }

  /** Residents u2, u3, ... registered for `cycle` on `day`, one minute apart
      from 10:00. */
  function SeedBlock(cycle: string, day: string, count: nat): (regs: seq<Registration>)
    requires count <= 20
    ensures |regs| == count
  {
    seq(count, i requires 0 <= i < count =>
      Registration(cycle, UserId(i + 2), day + "T10:" + TwoDigits(i) + ":00Z"))
  }

  const SeedRegistrations: seq<Registration> :=
    SeedBlock("2024-Q4", "2024-12-01", 20)
    + SeedBlock("2025-Q1", "2025-01-01", 20)
    + SeedBlock("2025-Q2", "2025-04-01", 19)

  /** `defaultDB`. */
  const DefaultDb: Db := Db(SeedUsers, SeedSpots, [], SeedRegistrations, [])

  /** The seed users: 21, ids distinct, `u1` the only ADMIN. */
  lemma SeedUsersFacts()
    ensures |SeedUsers| == 21
    ensures SeedUsers[0].id == "u1" && SeedUsers[0].role == Admin
    ensures forall k :: 0 <= k < |SeedUsers| ==> (SeedUsers[k].role == Admin <==> k == 0)
    ensures forall k :: 1 <= k < |SeedUsers| ==> SeedUsers[k].id == UserId(k + 1)
    ensures forall i, j :: 0 <= i < j < |SeedUsers| ==> SeedUsers[i].id != SeedUsers[j].id
  {
    SeedUserIds();
    forall i, j | 0 <= i < j < |SeedUsers| ensures SeedUsers[i].id != SeedUsers[j].id {
      if SeedUsers[i].id == SeedUsers[j].id {
        UserIdInjective(i + 1, j + 1);
      }
    }
  }

  /** The k-th seed user has id `u{k+1}`, and only the first is an ADMIN. */
  lemma SeedUserIds()
    ensures |SeedUsers| == 21
    ensures SeedUsers[0].id == "u1" && SeedUsers[0].role == Admin
    ensures forall k :: 0 <= k < |SeedUsers| ==> SeedUsers[k].id == UserId(k + 1)
    ensures forall k :: 0 <= k < |SeedUsers| ==> (SeedUsers[k].role == Admin <==> k == 0)
  {
    var rs := SeedResidents();
    assert SeedUsers == [SeedAdmin] + rs;
    forall k | 1 <= k < |SeedUsers|
      ensures SeedUsers[k].id == UserId(k + 1) && SeedUsers[k].role == Resident
    {
      assert SeedUsers[k] == rs[k - 1] == SeedResident(k - 1);
    }
    assert SeedUsers[0].id == UserId(1) == "u1";
  }

  /** The seed spots: 16 distinct ids A1..D4, all available, none held. */
  lemma SeedSpotsFacts()
    ensures |SeedSpots| == 16
    ensures UniqueSpotIds(SeedSpots)
    ensures forall k :: 0 <= k < |SeedSpots| ==> SeedSpots[k].status == Available && SeedSpots[k].residentId == None
    ensures SeedSpots[0].id == "A1" && SeedSpots[15].id == "D4"
  {
    forall i, j | 0 <= i < j < 16 ensures SeedSpots[i].id != SeedSpots[j].id {
      assert SeedSpots[i] == SeedSpot(i) && SeedSpots[j] == SeedSpot(j);
      assert i / 4 != j / 4 || i % 4 != j % 4;
    }
    assert SeedSpots[0] == SeedSpot(0);
    assert SeedSpots[15] == SeedSpot(15);
  }

  lemma SeedBlockUnique(cycle: string, day: string, count: nat)
    requires count <= 20
    ensures UniqueRegistrations(SeedBlock(cycle, day, count))
    ensures forall r :: r in SeedBlock(cycle, day, count) ==> r.cycle == cycle
  {
    var b := SeedBlock(cycle, day, count);
    forall i, j | 0 <= i < j < |b| ensures b[i].residentId != b[j].residentId {
      if b[i].residentId == b[j].residentId {
        UserIdInjective(i + 2, j + 2);
      }
    }
  }

  lemma ConcatUnique(a: seq<Registration>, b: seq<Registration>)
    requires UniqueRegistrations(a) && UniqueRegistrations(b)
    requires forall x, y :: x in a && y in b ==> x.cycle != y.cycle
    ensures UniqueRegistrations(a + b)
  {
    var s := a + b;
    forall i, j | 0 <= i < j < |s|
      ensures s[i].cycle != s[j].cycle || s[i].residentId != s[j].residentId
    {
      if j < |a| {
        assert s[i] == a[i] && s[j] == a[j];
      } else if i >= |a| {
        assert s[i] == b[i - |a|] && s[j] == b[j - |a|];
      } else {
        assert s[i] in a && s[j] in b;
      }
    }
  }

  /** The seed registrations have no duplicate (cycle, resident) pair: u2–u21
      for 2024-Q4 and 2025-Q1, u2–u20 for 2025-Q2, each block registered one
      minute apart from 10:00 on its day. */
  lemma SeedRegistrationsFacts()
    ensures |SeedRegistrations| == 59
    ensures UniqueRegistrations(SeedRegistrations)
    ensures forall k :: 0 <= k < 20 ==> SeedRegistrations[k] == Registration("2024-Q4", UserId(k + 2), "2024-12-01T10:" + TwoDigits(k) + ":00Z")
    ensures forall k :: 0 <= k < 20 ==> SeedRegistrations[20 + k] == Registration("2025-Q1", UserId(k + 2), "2025-01-01T10:" + TwoDigits(k) + ":00Z")
    ensures forall k :: 0 <= k < 19 ==> SeedRegistrations[40 + k] == Registration("2025-Q2", UserId(k + 2), "2025-04-01T10:" + TwoDigits(k) + ":00Z")
  {
    var q4 := SeedBlock("2024-Q4", "2024-12-01", 20);
    var q1 := SeedBlock("2025-Q1", "2025-01-01", 20);
    var q2 := SeedBlock("2025-Q2", "2025-04-01", 19);
    SeedBlockUnique("2024-Q4", "2024-12-01", 20);
    SeedBlockUnique("2025-Q1", "2025-01-01", 20);
    SeedBlockUnique("2025-Q2", "2025-04-01", 19);
    assert "2024-Q4" != "2025-Q1" && "2024-Q4" != "2025-Q2" && "2025-Q1" != "2025-Q2" by {
      assert "2024-Q4"[3] != "2025-Q1"[3] && "2024-Q4"[3] != "2025-Q2"[3] && "2025-Q1"[6] != "2025-Q2"[6];
    }
    ConcatUnique(q4, q1);
    ConcatUnique(q4 + q1, q2);
  }

  /** The default state is well formed and has run no raffle yet. */
  lemma DefaultDbWellFormed()
    ensures WellFormed(DefaultDb)
    ensures DefaultDb.raffles == [] && DefaultDb.assignments == []
  {
    SeedSpotsFacts();
    SeedRegistrationsFacts();
  }

  /** `resetDB`: whatever the current state, the next one is the seed: well
      formed, 16 free spots, no raffle and no assignment. */
  function ResetDb(db: Db): (r: Db)
    ensures r == DefaultDb
    ensures WellFormed(r)
    ensures r.raffles == [] && r.assignments == []
    ensures |r.spots| == 16 && forall k :: 0 <= k < |r.spots| ==> r.spots[k].status == Available
    ensures |r.users| == 21 && |r.registrations| == 59
  {
    DefaultDbWellFormed();
    SeedSpotsFacts();
    SeedUsersFacts();
    SeedRegistrationsFacts();
    DefaultDb
  }
}
