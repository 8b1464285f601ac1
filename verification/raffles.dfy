/** The raffle engine of the mock backend: the registration count of a cycle,
    registering a resident, listing and fetching raffles, running the raffle of
    a cycle, and a resident's raffle history.

    The cycle, the new raffle's id and the current time are parameters (the
    source takes them from `quarterCycle()`, `crypto.randomUUID()` and
    `new Date()`), and `Math.random()` is the stream of draws `rs`. */
module Raffles {
  import opened Wrappers
  import opened MockDb
  import Seqs
  import Utils
  import Sorting
  import StrOrder

  // ----- Registrations of a cycle -----

  /** Some registration row puts `id` in `cycle`. */
  ghost predicate Registered(db: Db, cycle: string, id: string) {
    exists r :: r in db.registrations && r.cycle == cycle && r.residentId == id
  }

  /** `db.registrations.filter((r) => r.cycle === cycle)`. */
  function CycleRegistrations(db: Db, cycle: string): (regs: seq<Registration>)
    ensures |regs| <= |db.registrations|
    ensures forall r :: r in regs <==> r in db.registrations && r.cycle == cycle
  {
    Seqs.Filter(db.registrations, (r: Registration) => r.cycle == cycle)
  }

  /** `regs.map((r) => r.residentId)`. */
  function ResidentIds(regs: seq<Registration>): (ids: seq<string>)
    ensures |ids| == |regs|
    ensures forall k :: 0 <= k < |regs| ==> ids[k] == regs[k].residentId
  {
    seq(|regs|, k requires 0 <= k < |regs| => regs[k].residentId)
  }

  /** The count `current` reports: the registration rows of the cycle. */
  function CurrentCount(db: Db, cycle: string): (n: nat)
    ensures n <= |db.registrations|
    ensures n == 0 <==> forall id :: !Registered(db, cycle, id)
  {
    var regs := CycleRegistrations(db, cycle);
    assert |regs| > 0 ==> Registered(db, cycle, regs[0].residentId);
    |regs|
  }

  /** The raffle's candidates: every resident registered for the cycle, once,
      in order of first registration. */
  function Candidates(db: Db, cycle: string): (c: seq<string>)
    ensures Seqs.NoDup(c)
    ensures |c| <= |db.registrations|
    ensures forall id :: id in c <==> Registered(db, cycle, id)
  {
    var regs := CycleRegistrations(db, cycle);
    var ids := ResidentIds(regs);
    assert forall id :: id in ids <==> Registered(db, cycle, id) by {
      forall id ensures id in ids <==> Registered(db, cycle, id) {
        if id in ids {
          var k :| 0 <= k < |ids| && ids[k] == id;
          assert regs[k] in regs;
        }
        if Registered(db, cycle, id) {
          var r :| r in db.registrations && r.cycle == cycle && r.residentId == id;
          var k :| 0 <= k < |regs| && regs[k] == r;
          assert ids[k] == id;
        }
      }
    }
    Seqs.Dedup(ids)
  }

  /** With at most one row per (cycle, resident), the count `current` reports is
      the number of candidates a raffle of the cycle draws from. */
  lemma CurrentCountIsCandidates(db: Db, cycle: string)
    requires UniqueRegistrations(db.registrations)
    ensures CurrentCount(db, cycle) == |Candidates(db, cycle)|
  {
    var s := db.registrations;
    var p := (r: Registration) => r.cycle == cycle;
    var regs := Seqs.Filter(s, p);
    var ids := ResidentIds(regs);
    Seqs.FilterIsPositions(s, p);
    var pos := Seqs.Positions(s, p);
    forall i, j | 0 <= i < j < |ids| ensures ids[i] != ids[j] {
      assert regs[i] == s[pos[i]] && regs[j] == s[pos[j]];
      assert pos[i] < pos[j];
      assert s[pos[i]].cycle == cycle && s[pos[j]].cycle == cycle;
    }
    Seqs.DedupOfNoDup(ids);
  }

  // ----- register -----

  /** Some user with this id has role RESIDENT. */
  ghost predicate IsResident(db: Db, id: string) {
    exists u :: u in db.users && u.id == id && u.role == Resident
  }

  /** `register({ residentId })` for `cycle`, at time `now`. */
  function Register(db: Db, residentId: string, cycle: string, now: string): (o: Outcome<bool>)
    ensures o.result.Success? <==> IsResident(db, residentId)
    ensures o.result.Failure? ==> o.db == db && o.result.error == "No resident found in mock DB"
    ensures o.result.Success? ==> o.result.value && Registered(o.db, cycle, residentId)
    ensures o.result.Success? ==> |o.db.registrations| <= |db.registrations| + 1
    ensures |db.registrations| <= |o.db.registrations|
    ensures o.db.registrations[..|db.registrations|] == db.registrations
    ensures o.db == db.(registrations := o.db.registrations)
  {
    if !exists u :: u in db.users && u.id == residentId && u.role == Resident then
      Outcome(db, Failure("No resident found in mock DB"))
    else if exists r :: r in db.registrations && r.cycle == cycle && r.residentId == residentId then
      Outcome(db, Success(true))
    else
      var db' := db.(registrations := db.registrations + [Registration(cycle, residentId, now)]);
      assert db'.registrations[|db.registrations|] in db'.registrations;
      Outcome(db', Success(true))
  }

  /** Registering twice is registering once: the second call, at any time,
      changes nothing and reports the same result. */
  lemma RegisterIdempotent(db: Db, residentId: string, cycle: string, now: string, later: string)
    ensures Register(Register(db, residentId, cycle, now).db, residentId, cycle, later)
         == Outcome(Register(db, residentId, cycle, now).db, Register(db, residentId, cycle, now).result)
  {
    var o := Register(db, residentId, cycle, now);
    if o.result.Success? {
      var u :| u in db.users && u.id == residentId && u.role == Resident;
      assert u in o.db.users;
    }
  }

  /** A first registration adds exactly one row, so the cycle's count grows by
      one; a repeated one leaves the state as it was. */
  lemma RegisterCount(db: Db, residentId: string, cycle: string, now: string)
    requires IsResident(db, residentId)
    ensures Registered(db, cycle, residentId) ==> Register(db, residentId, cycle, now).db == db
    ensures !Registered(db, cycle, residentId) ==>
      CurrentCount(Register(db, residentId, cycle, now).db, cycle) == CurrentCount(db, cycle) + 1
  {
    var o := Register(db, residentId, cycle, now);
    if !Registered(db, cycle, residentId) {
      var row := Registration(cycle, residentId, now);
      assert o.db.registrations == db.registrations + [row];
      Seqs.FilterSnoc(db.registrations, row, (r: Registration) => r.cycle == cycle);
    }
  }

  /** Registration never creates a second row for a (cycle, resident) pair. */
  lemma RegisterKeepsUnique(db: Db, residentId: string, cycle: string, now: string)
    requires UniqueRegistrations(db.registrations)
    ensures UniqueRegistrations(Register(db, residentId, cycle, now).db.registrations)
  {
    var o := Register(db, residentId, cycle, now);
    var s := o.db.registrations;
    if |s| > |db.registrations| {
      forall i, j | 0 <= i < j < |s|
        ensures s[i].cycle != s[j].cycle || s[i].residentId != s[j].residentId
      {
        if j == |db.registrations| {
          assert s[i] in db.registrations;
        } else {
          assert s[i] == db.registrations[i] && s[j] == db.registrations[j];
        }
      }
    }
  }

  // ----- list and get -----

  /** `list()`: the raffles, newest first. */
  function List(db: Db): (r: seq<Raffle>)
    ensures |r| == |db.raffles|
    ensures forall i :: 0 <= i < |r| ==> r[i] == db.raffles[|db.raffles| - 1 - i]
  {
    Seqs.Reverse(db.raffles)
  }

  /** `get(raffleId)`: the first raffle with the id, or "Not found". */
  function Get(db: Db, raffleId: string): (r: Result<Raffle, string>)
    ensures r.Success? <==> exists k :: 0 <= k < |db.raffles| && db.raffles[k].id == raffleId
    ensures r.Success? ==> r.value in db.raffles && r.value.id == raffleId
    ensures r.Success? ==> forall k :: 0 <= k < |db.raffles| && db.raffles[k] != r.value ==>
      db.raffles[k].id != raffleId || exists m :: 0 <= m < k && db.raffles[m] == r.value
    ensures r.Failure? ==> r.error == "Not found"
  {
    match Seqs.FindIndex(db.raffles, (rf: Raffle) => rf.id == raffleId)
    case None => Failure("Not found")
    case Some(k) => Success(db.raffles[k])
  }

  // ----- run -----

  /** `db.raffles.find((r) => r.cycle === cycle)` finds a raffle: some raffle
      of the list is for `cycle`. */
  function HasRaffle(db: Db, cycle: string): (b: bool)
    ensures b <==> exists r :: r in db.raffles && r.cycle == cycle
  {
    var found := Seqs.FindIndex(db.raffles, (r: Raffle) => r.cycle == cycle);
    assert found.Some? ==> db.raffles[found.value] in db.raffles;
    found.Some?
  }

  /** The error `run` throws for a cycle that already has a raffle; it quotes
      the cycle, so distinct cycles give distinct messages. */
  function AlreadyRun(cycle: string): (t: string)
    ensures |t| == |cycle| + 41
    ensures t[39..39 + |cycle|] == cycle
  {
    "Raffle has already been run for cycle \"" + cycle + "\"."
  }

  /** The resident ids of a list of winners. */
  function WinnerIds(ws: seq<Winner>): (ids: seq<string>)
    ensures |ids| == |ws|
    ensures forall k :: 0 <= k < |ws| ==> ids[k] == ws[k].residentId
  {
    seq(|ws|, k requires 0 <= k < |ws| => ws[k].residentId)
  }

  /** The winners of the last raffle in the list, whatever its cycle. */
  function PreviousWinners(db: Db): (prev: seq<string>)
    ensures |db.raffles| == 0 ==> prev == []
    ensures |db.raffles| > 0 ==> forall id :: id in prev <==>
      exists w :: w in db.raffles[|db.raffles| - 1].winners && w.residentId == id
  {
    if |db.raffles| == 0 then []
    else
      var ws := db.raffles[|db.raffles| - 1].winners;
      var ids := WinnerIds(ws);
      assert forall id :: id in ids ==> exists w :: w in ws && w.residentId == id by {
        forall id | id in ids ensures exists w :: w in ws && w.residentId == id {
          var k :| 0 <= k < |ids| && ids[k] == id;
          assert ws[k] in ws;
        }
      }
      assert forall w :: w in ws ==> w.residentId in ids by {
        forall w | w in ws ensures w.residentId in ids {
          var k :| 0 <= k < |ws| && ws[k] == w;
          assert ids[k] == w.residentId;
        }
      }
      ids
  }

  /** Step 2 of `run`: every assigned spot becomes available and loses its
      resident; a spot in any other status is left as it is. */
  function Reclaim(spots: seq<Spot>): (r: seq<Spot>)
    ensures |r| == |spots|
    ensures forall i :: 0 <= i < |spots| ==> r[i].id == spots[i].id && r[i].status != Assigned
    ensures forall i :: 0 <= i < |spots| && spots[i].status != Assigned ==> r[i] == spots[i]
    ensures forall i :: 0 <= i < |spots| && spots[i].status == Assigned ==>
      r[i].status == Available && r[i].residentId == None
  {
    seq(|spots|, i requires 0 <= i < |spots| =>
      if spots[i].status == Assigned then spots[i].(status := Available, residentId := None)
      else spots[i])
  }

  /** The positions of the available spots, in list order. */
  function FreePositions(spots: seq<Spot>): (r: seq<nat>)
    ensures Seqs.NoDup(r)
    ensures forall k :: 0 <= k < |r| ==> r[k] < |spots|
    ensures forall i :: 0 <= i < |spots| ==> (i in r <==> spots[i].status == Available)
  {
    var r := Seqs.Positions(spots, (s: Spot) => s.status == Available);
    Seqs.AscendingNoDup(r);
    r
  }

  /** Candidates who did not win the last raffle. */
  function GroupA(cands: seq<string>, prev: seq<string>): (a: seq<string>)
    ensures forall x :: x in a <==> x in cands && x !in prev
  {
    Seqs.Filter(cands, (id: string) => id !in prev)
  }

  /** Candidates who did win the last raffle. */
  function GroupB(cands: seq<string>, prev: seq<string>): (b: seq<string>)
    ensures forall x :: x in b <==> x in cands && x in prev
  {
    Seqs.Filter(cands, (id: string) => id in prev)
  }

  lemma GroupsPartition(cands: seq<string>, prev: seq<string>)
    ensures multiset(GroupA(cands, prev)) + multiset(GroupB(cands, prev)) == multiset(cands)
    ensures |GroupA(cands, prev)| + |GroupB(cands, prev)| == |cands|
  {
    Seqs.FilterPartition(cands, (id: string) => id in prev, (id: string) => id !in prev);
  }

  /** No previous winner comes before a candidate who is not one. */
  ghost predicate PriorityOrdered(order: seq<string>, prev: seq<string>) {
    forall i, j :: 0 <= i < j < |order| && order[i] in prev ==> order[j] in prev
  }

  /** `[...shuffle(groupA), ...shuffle(groupB)]`, with the draws left over. */
  function Prioritize(cands: seq<string>, prev: seq<string>, rs: seq<real>): (r: (seq<string>, seq<real>))
    requires Utils.ValidDraws(rs) && |cands| <= |rs|
    ensures multiset(r.0) == multiset(cands)
    ensures PriorityOrdered(r.0, prev)
    ensures Utils.ValidDraws(r.1) && |rs| - |cands| <= |r.1|
  {
    var a := GroupA(cands, prev);
    var b := GroupB(cands, prev);
    GroupsPartition(cands, prev);
    var sa := Utils.Shuffle(a, rs);
    var sb := Utils.Shuffle(b, sa.1);
    Utils.ShuffleKeepsElements(a, rs);
    Utils.ShuffleKeepsElements(b, sa.1);
    ConcatOrdered(sa.0, sb.0, prev);
    (sa.0 + sb.0, sb.1)
  }

  lemma ConcatOrdered(x: seq<string>, y: seq<string>, prev: seq<string>)
    requires forall e :: e in x ==> e !in prev
    requires forall e :: e in y ==> e in prev
    ensures PriorityOrdered(x + y, prev)
  {
    var s := x + y;
    forall i, j | 0 <= i < j < |s| ensures s[i] in prev ==> s[j] in prev {
      if j < |x| {
        assert s[i] == x[i] && x[i] in x;
      } else {
        assert s[j] == y[j - |x|] && y[j - |x|] in y;
      }
    }
  }

  /** The random outcome of a raffle: the priority order of the candidates and
      the order in which spot positions are handed out. */
  datatype Draw = Draw(order: seq<string>, positions: seq<nat>)

  /** What every draw of `run` satisfies, whatever `Math.random()` returned:
      the order is a permutation of the candidates with no previous winner ahead
      of anyone else, and the positions are a permutation of the available
      spots after reclamation. */
  ghost predicate ValidDraw(db: Db, cycle: string, d: Draw) {
    && multiset(d.order) == multiset(Candidates(db, cycle))
    && PriorityOrdered(d.order, PreviousWinners(db))
    && multiset(d.positions) == multiset(FreePositions(Reclaim(db.spots)))
  }

  /** Steps 3 and 4 of `run` before the pairing: shuffle the two groups and then
      the available spots, in that order, from one stream of draws. */
  function Plan(db: Db, cycle: string, rs: seq<real>): (d: Draw)
    requires Utils.ValidDraws(rs) && |db.registrations| + |db.spots| <= |rs|
    ensures ValidDraw(db, cycle, d)
    ensures forall k :: 0 <= k < |d.positions| ==> d.positions[k] < |db.spots|
  {
    var cands := Candidates(db, cycle);
    var pr := Prioritize(cands, PreviousWinners(db), rs);
    var free := FreePositions(Reclaim(db.spots));
    assert Utils.Draws(|free|) <= |db.spots| <= |pr.1|;
    var sh := Utils.Shuffle(free, pr.1);
    PositionsInRange(free, sh.0, |db.spots|);
    Draw(pr.0, sh.0)
  }

  lemma PositionsInRange(a: seq<nat>, b: seq<nat>, n: nat)
    requires multiset(a) == multiset(b)
    requires forall k :: 0 <= k < |a| ==> a[k] < n
    ensures forall k :: 0 <= k < |b| ==> b[k] < n
  {
    forall k | 0 <= k < |b| ensures b[k] < n {
      assert b[k] in multiset(a);
    }
  }

  function Min(a: nat, b: nat): nat {
    if a <= b then a else b
  }

  /** The pairing loop: spot `pos[k]` is assigned to resident `who[k]`, in order. */
  function Pair(spots: seq<Spot>, pos: seq<nat>, who: seq<string>): (r: seq<Spot>)
    requires |pos| == |who|
    requires forall k :: 0 <= k < |pos| ==> pos[k] < |spots|
    ensures |r| == |spots|
    ensures forall i :: 0 <= i < |spots| ==> r[i].id == spots[i].id
    ensures forall i :: 0 <= i < |spots| && i !in pos ==> r[i] == spots[i]
    ensures Seqs.NoDup(pos) ==> forall k :: 0 <= k < |pos| ==>
      r[pos[k]] == Spot(spots[pos[k]].id, Assigned, Some(who[k]))
    decreases |pos|
  {
    if |pos| == 0 then spots
    else
      var p := pos[0];
      var next := spots[p := spots[p].(status := Assigned, residentId := Some(who[0]))];
      var r := Pair(next, pos[1..], who[1..]);
      assert forall i :: 0 <= i < |spots| && i !in pos ==> i !in pos[1..] && i != p;
      assert Seqs.NoDup(pos) ==> p !in pos[1..] && Seqs.NoDup(pos[1..]) by {
        if Seqs.NoDup(pos) {
          forall k | 0 <= k < |pos| - 1 ensures pos[1..][k] != p {
            assert pos[1..][k] == pos[k + 1];
          }
        }
      }
      assert forall k :: 1 <= k < |pos| ==> pos[k] == pos[1..][k - 1] && who[k] == who[1..][k - 1];
      r
  }

  /** One assignment-ledger row per winner, in order. */
  function LedgerRows(cycle: string, winners: seq<Winner>, now: string): (rows: seq<Assignment>)
    ensures |rows| == |winners|
    ensures forall k :: 0 <= k < |winners| ==>
      rows[k] == Assignment(cycle, winners[k].spotId, winners[k].residentId, now)
  {
    seq(|winners|, k requires 0 <= k < |winners| =>
      Assignment(cycle, winners[k].spotId, winners[k].residentId, now))
  }

  /** Step 4 and the commit of `run` for a given draw: pair residents and spots
      index by index up to the shorter list, record the winners and one ledger
      row each, and append the raffle. */
  function Commit(db: Db, cycle: string, raffleId: string, now: string, d: Draw): (o: Outcome<Raffle>)
    requires forall k :: 0 <= k < |d.positions| ==> d.positions[k] < |db.spots|
    ensures o.result.Success?
    ensures o.result.value == Raffle(raffleId, cycle, now, o.result.value.winners)
    ensures |o.result.value.winners| == Min(|d.order|, |d.positions|)
    ensures forall k :: 0 <= k < |o.result.value.winners| ==>
      o.result.value.winners[k] == Winner(db.spots[d.positions[k]].id, d.order[k])
    ensures WinnerIds(o.result.value.winners) == d.order[..|o.result.value.winners|]
    ensures o.db.raffles == db.raffles + [o.result.value]
    ensures o.db.assignments == db.assignments + LedgerRows(cycle, o.result.value.winners, now)
    ensures o.db.users == db.users && o.db.registrations == db.registrations
    ensures |o.db.spots| == |db.spots|
    ensures forall i :: 0 <= i < |db.spots| ==> o.db.spots[i].id == db.spots[i].id
    ensures forall i :: 0 <= i < |db.spots| && i !in d.positions[..|o.result.value.winners|] ==>
      o.db.spots[i] == Reclaim(db.spots)[i]
    ensures Seqs.NoDup(d.positions) ==> forall k :: 0 <= k < |o.result.value.winners| ==>
      o.db.spots[d.positions[k]] == Spot(db.spots[d.positions[k]].id, Assigned, Some(d.order[k]))
  {
    var spots := Reclaim(db.spots);
    var n := Min(|d.order|, |d.positions|);
    var pos := d.positions[..n];
    var who := d.order[..n];
    assert Seqs.NoDup(d.positions) ==> Seqs.NoDup(pos);
    var winners := seq(n, k requires 0 <= k < n => Winner(spots[pos[k]].id, who[k]));
    var rows := LedgerRows(cycle, winners, now);
    var raffle := Raffle(raffleId, cycle, now, winners);
    Outcome(db.(spots := Pair(spots, pos, who),
                raffles := db.raffles + [raffle],
                assignments := db.assignments + rows),
            Success(raffle))
  }

  /** `run(cycle)`, recording the raffle as `raffleId` at time `now`, drawing
      from `rs`. Refuses a cycle that already has a raffle and then changes
      nothing; otherwise appends exactly one raffle for the cycle, appends one
      ledger row per winner, and leaves users and registrations alone. With no
      candidate it records an empty raffle and touches no spot. */
  function Run(db: Db, cycle: string, raffleId: string, now: string, rs: seq<real>): (o: Outcome<Raffle>)
    requires Utils.ValidDraws(rs) && |db.registrations| + |db.spots| <= |rs|
    ensures o.result.Failure? <==> HasRaffle(db, cycle)
    ensures o.result.Failure? ==> o.db == db && o.result.error == AlreadyRun(cycle)
    ensures o.result.Success? ==> o.db.raffles == db.raffles + [o.result.value]
    ensures o.result.Success? ==>
      o.result.value == Raffle(raffleId, cycle, now, o.result.value.winners)
    ensures o.result.Success? ==>
      o.db.assignments == db.assignments + LedgerRows(cycle, o.result.value.winners, now)
    ensures o.db.users == db.users && o.db.registrations == db.registrations
    ensures |o.db.spots| == |db.spots|
    ensures forall i :: 0 <= i < |db.spots| ==> o.db.spots[i].id == db.spots[i].id
    ensures o.result.Success? && |Candidates(db, cycle)| == 0 ==>
      o.result.value.winners == [] && o.db.spots == db.spots && o.db.assignments == db.assignments
  {
    if HasRaffle(db, cycle) then Outcome(db, Failure(AlreadyRun(cycle)))
    else if |Candidates(db, cycle)| == 0 then
      var raffle := Raffle(raffleId, cycle, now, []);
      Outcome(db.(raffles := db.raffles + [raffle]), Success(raffle))
    else
      Commit(db, cycle, raffleId, now, Plan(db, cycle, rs))
  }

  // ----- What every run guarantees -----

  /** Positions of spots that are free for a new raffle: available, or assigned
      and about to be released. */
  ghost function FreeSpots(spots: seq<Spot>): set<nat> {
    set i: nat | i < |spots| && (spots[i].status == Available || spots[i].status == Assigned)
  }

  lemma FreePositionsCount(spots: seq<Spot>)
    ensures |FreePositions(Reclaim(spots))| == |FreeSpots(spots)|
  {
    var free := FreePositions(Reclaim(spots));
    Seqs.NoDupCard(free);
    assert Seqs.Elements(free) == FreeSpots(spots);
  }

  /** A priority order that is a permutation of the candidates names each
      registered resident exactly once. */
  lemma OrderFacts(db: Db, cycle: string, order: seq<string>)
    requires multiset(order) == multiset(Candidates(db, cycle))
    ensures Seqs.NoDup(order) && |order| == |Candidates(db, cycle)|
    ensures forall k :: 0 <= k < |order| ==> Registered(db, cycle, order[k])
    ensures forall c :: Registered(db, cycle, c) ==> c in order
  {
    var cands := Candidates(db, cycle);
    Seqs.PermutationNoDup(cands, order);
    assert |order| == |multiset(order)| == |multiset(cands)| == |cands|;
    forall k | 0 <= k < |order| ensures Registered(db, cycle, order[k]) {
      assert order[k] in multiset(cands);
    }
    forall c | Registered(db, cycle, c) ensures c in order {
      assert c in multiset(order);
    }
  }

  /** A spot order that is a permutation of the free positions visits each
      free spot exactly once. */
  lemma PositionFacts(spots: seq<Spot>, pos: seq<nat>)
    requires multiset(pos) == multiset(FreePositions(Reclaim(spots)))
    ensures Seqs.NoDup(pos) && |pos| == |FreeSpots(spots)|
    ensures forall k :: 0 <= k < |pos| ==> pos[k] < |spots| && Reclaim(spots)[pos[k]].status == Available
  {
    var free := FreePositions(Reclaim(spots));
    Seqs.PermutationNoDup(free, pos);
    assert |pos| == |multiset(pos)| == |multiset(free)| == |free|;
    FreePositionsCount(spots);
    forall k | 0 <= k < |pos| ensures pos[k] < |spots| && Reclaim(spots)[pos[k]].status == Available {
      assert pos[k] in multiset(free);
    }
  }

  /** No spot position is drawn twice. */
  lemma PlanPositionsDistinct(db: Db, cycle: string, rs: seq<real>)
    requires Utils.ValidDraws(rs) && |db.registrations| + |db.spots| <= |rs|
    ensures Seqs.NoDup(Plan(db, cycle, rs).positions)
  {
    PositionFacts(db.spots, Plan(db, cycle, rs).positions);
  }

  /** Every drawn position is a spot that is available once assigned spots
      are released. */
  lemma PlanPositionsFree(db: Db, cycle: string, rs: seq<real>)
    requires Utils.ValidDraws(rs) && |db.registrations| + |db.spots| <= |rs|
    ensures var pos := Plan(db, cycle, rs).positions;
      forall k :: 0 <= k < |pos| ==> pos[k] < |db.spots| && Reclaim(db.spots)[pos[k]].status == Available
  {
    PositionFacts(db.spots, Plan(db, cycle, rs).positions);
  }

  /** A run with candidates commits the draw `Plan` makes. */
  lemma RunCommitsPlan(db: Db, cycle: string, raffleId: string, now: string, rs: seq<real>)
    requires Utils.ValidDraws(rs) && |db.registrations| + |db.spots| <= |rs|
    requires !HasRaffle(db, cycle) && |Candidates(db, cycle)| > 0
    ensures Run(db, cycle, raffleId, now, rs) == Commit(db, cycle, raffleId, now, Plan(db, cycle, rs))
  {
  }

  /** The number of winners is the smaller of the number of distinct registered
      residents and the number of spots that are free once assigned spots are
      released. */
  lemma RunWinnerCount(db: Db, cycle: string, raffleId: string, now: string, rs: seq<real>)
    requires Utils.ValidDraws(rs) && |db.registrations| + |db.spots| <= |rs|
    requires !HasRaffle(db, cycle)
    ensures |Run(db, cycle, raffleId, now, rs).result.value.winners|
         == Min(|Candidates(db, cycle)|, |FreeSpots(db.spots)|)
  {
    if |Candidates(db, cycle)| > 0 {
      RunCommitsPlan(db, cycle, raffleId, now, rs);
      var d := Plan(db, cycle, rs);
      OrderFacts(db, cycle, d.order);
      PositionFacts(db.spots, d.positions);
    }
  }

  /** The spot ids of a list of winners. */
  function WinnerSpots(ws: seq<Winner>): (ids: seq<string>)
    ensures |ids| == |ws|
    ensures forall k :: 0 <= k < |ws| ==> ids[k] == ws[k].spotId
  {
    seq(|ws|, k requires 0 <= k < |ws| => ws[k].spotId)
  }

  /** In a priority order, every prefix is in priority order too, and a prefix
      that reaches a previous winner holds every candidate who is not one. */
  lemma PrefixFairness(order: seq<string>, n: nat, prev: seq<string>)
    requires PriorityOrdered(order, prev) && n <= |order|
    ensures PriorityOrdered(order[..n], prev)
    ensures (exists x :: x in order[..n] && x in prev) ==>
      forall c :: c in order && c !in prev ==> c in order[..n]
  {
    var p := order[..n];
    assert forall i :: 0 <= i < n ==> p[i] == order[i];
    if exists x :: x in p && x in prev {
      var x :| x in p && x in prev;
      var k0 :| 0 <= k0 < n && p[k0] == x;
      forall c | c in order && c !in prev ensures c in p {
        var j :| 0 <= j < |order| && order[j] == c;
        assert order[k0] in prev;
        assert j < k0;
        assert p[j] == c;
      }
    }
  }

  /** The winners are distinct residents, each registered for the cycle. */
  lemma RunWinnersDistinct(db: Db, cycle: string, raffleId: string, now: string, rs: seq<real>)
    requires Utils.ValidDraws(rs) && |db.registrations| + |db.spots| <= |rs|
    requires !HasRaffle(db, cycle)
    ensures var ids := WinnerIds(Run(db, cycle, raffleId, now, rs).result.value.winners);
      && Seqs.NoDup(ids)
      && forall id :: id in ids ==> Registered(db, cycle, id)
  {
    if |Candidates(db, cycle)| > 0 {
      RunCommitsPlan(db, cycle, raffleId, now, rs);
      var d := Plan(db, cycle, rs);
      OrderFacts(db, cycle, d.order);
      var ids := WinnerIds(Run(db, cycle, raffleId, now, rs).result.value.winners);
      assert ids == d.order[..|ids|];
      Seqs.PrefixNoDup(d.order, |ids|);
    }
  }

  /** Every winner holds a spot that was available or assigned before the run,
      never a reserved or maintenance one. */
  lemma RunWinnerSpots(db: Db, cycle: string, raffleId: string, now: string, rs: seq<real>)
    requires Utils.ValidDraws(rs) && |db.registrations| + |db.spots| <= |rs|
    requires !HasRaffle(db, cycle)
    ensures var w := Run(db, cycle, raffleId, now, rs).result.value.winners;
      forall k :: 0 <= k < |w| ==>
        exists i :: (0 <= i < |db.spots| && db.spots[i].id == w[k].spotId
          && (db.spots[i].status == Available || db.spots[i].status == Assigned))
  {
    if |Candidates(db, cycle)| > 0 {
      RunCommitsPlan(db, cycle, raffleId, now, rs);
      PlanPositionsDistinct(db, cycle, rs);
      PlanPositionsFree(db, cycle, rs);
      CommitWinnerSpots(db, cycle, raffleId, now, Plan(db, cycle, rs));
    }
  }

  /** No spot goes to two winners, so the winners' spot ids differ when the
      spot list repeats no id. */
  lemma RunWinnerSpotsDistinct(db: Db, cycle: string, raffleId: string, now: string, rs: seq<real>)
    requires Utils.ValidDraws(rs) && |db.registrations| + |db.spots| <= |rs|
    requires !HasRaffle(db, cycle) && UniqueSpotIds(db.spots)
    ensures Seqs.NoDup(WinnerSpots(Run(db, cycle, raffleId, now, rs).result.value.winners))
  {
    if |Candidates(db, cycle)| > 0 {
      RunCommitsPlan(db, cycle, raffleId, now, rs);
      PlanPositionsDistinct(db, cycle, rs);
      PlanPositionsFree(db, cycle, rs);
      CommitWinnerSpots(db, cycle, raffleId, now, Plan(db, cycle, rs));
    }
  }

  lemma CommitWinnerSpots(db: Db, cycle: string, raffleId: string, now: string, d: Draw)
    requires forall k :: 0 <= k < |d.positions| ==>
      d.positions[k] < |db.spots| && Reclaim(db.spots)[d.positions[k]].status == Available
    requires Seqs.NoDup(d.positions)
    ensures var w := Commit(db, cycle, raffleId, now, d).result.value.winners;
      && (forall k :: 0 <= k < |w| ==>
            exists i :: (0 <= i < |db.spots| && db.spots[i].id == w[k].spotId
              && (db.spots[i].status == Available || db.spots[i].status == Assigned)))
      && (UniqueSpotIds(db.spots) ==> Seqs.NoDup(WinnerSpots(w)))
  {
    var w := Commit(db, cycle, raffleId, now, d).result.value.winners;
    forall k | 0 <= k < |w|
      ensures exists i :: (0 <= i < |db.spots| && db.spots[i].id == w[k].spotId
        && (db.spots[i].status == Available || db.spots[i].status == Assigned))
    {
      var i := d.positions[k];
      assert Reclaim(db.spots)[i].status == Available;
    }
    if UniqueSpotIds(db.spots) {
      var ids := WinnerSpots(w);
      forall i, j | 0 <= i < j < |ids| ensures ids[i] != ids[j] {
        var a, b := d.positions[i], d.positions[j];
        assert a != b;
        assert a < b ==> db.spots[a].id != db.spots[b].id;
        assert b < a ==> db.spots[b].id != db.spots[a].id;
      }
    }
  }

  /** Fairness against the last raffle in the list: among the winners no
      previous winner comes before anyone else, and a previous winner wins only
      when every registered resident who did not win last time won too. */
  lemma RunFairness(db: Db, cycle: string, raffleId: string, now: string, rs: seq<real>)
    requires Utils.ValidDraws(rs) && |db.registrations| + |db.spots| <= |rs|
    requires !HasRaffle(db, cycle)
    ensures var ids := WinnerIds(Run(db, cycle, raffleId, now, rs).result.value.winners);
      var prev := PreviousWinners(db);
      && PriorityOrdered(ids, prev)
      && ((exists x :: x in ids && x in prev) ==>
            forall c :: Registered(db, cycle, c) && c !in prev ==> c in ids)
  {
    if |Candidates(db, cycle)| > 0 {
      RunCommitsPlan(db, cycle, raffleId, now, rs);
      var d := Plan(db, cycle, rs);
      OrderFacts(db, cycle, d.order);
      var ids := WinnerIds(Run(db, cycle, raffleId, now, rs).result.value.winners);
      assert ids == d.order[..|ids|];
      PrefixFairness(d.order, |ids|, PreviousWinners(db));
    }
  }

  /** The spots after a run with candidates that no winner took: an assigned
      one is released and any other is untouched, so reserved and maintenance
      spots never change. */
  lemma RunReleasesSpots(db: Db, cycle: string, raffleId: string, now: string, rs: seq<real>)
    requires Utils.ValidDraws(rs) && |db.registrations| + |db.spots| <= |rs|
    requires !HasRaffle(db, cycle) && |Candidates(db, cycle)| > 0
    ensures var o := Run(db, cycle, raffleId, now, rs);
      var w := o.result.value.winners;
      && (forall i :: 0 <= i < |db.spots| && (db.spots[i].status == Reserved || db.spots[i].status == Maintenance) ==>
            o.db.spots[i] == db.spots[i])
      && (forall i :: 0 <= i < |db.spots| && (forall k :: 0 <= k < |w| ==> w[k].spotId != db.spots[i].id) ==>
            o.db.spots[i] == Reclaim(db.spots)[i])
  {
    RunCommitsPlan(db, cycle, raffleId, now, rs);
    var d := Plan(db, cycle, rs);
    PositionFacts(db.spots, d.positions);
    CommitUntouched(db, cycle, raffleId, now, d);
  }

  /** After a run with candidates each winner's spot is assigned to that
      winner, and every assigned spot belongs to a winner. */
  lemma RunAssignsSpots(db: Db, cycle: string, raffleId: string, now: string, rs: seq<real>)
    requires Utils.ValidDraws(rs) && |db.registrations| + |db.spots| <= |rs|
    requires !HasRaffle(db, cycle) && |Candidates(db, cycle)| > 0
    ensures var o := Run(db, cycle, raffleId, now, rs);
      var w := o.result.value.winners;
      && (forall k :: 0 <= k < |w| ==>
            exists i :: 0 <= i < |db.spots| && o.db.spots[i] == Spot(w[k].spotId, Assigned, Some(w[k].residentId)))
      && (forall i :: 0 <= i < |db.spots| && o.db.spots[i].status == Assigned ==>
            exists k :: 0 <= k < |w| && w[k].spotId == db.spots[i].id && o.db.spots[i].residentId == Some(w[k].residentId))
  {
    PlanPositionsDistinct(db, cycle, rs);
    RunCommitsPlan(db, cycle, raffleId, now, rs);
    CommitAssigned(db, cycle, raffleId, now, Plan(db, cycle, rs));
  }

  /** Committing a draw whose positions are distinct free spots: a spot no
      winner took ends as reclamation left it. */
  lemma CommitUntouched(db: Db, cycle: string, raffleId: string, now: string, d: Draw)
    requires forall k :: 0 <= k < |d.positions| ==>
      d.positions[k] < |db.spots| && Reclaim(db.spots)[d.positions[k]].status == Available
    ensures var o := Commit(db, cycle, raffleId, now, d);
      var w := o.result.value.winners;
      && (forall i :: 0 <= i < |db.spots| && (db.spots[i].status == Reserved || db.spots[i].status == Maintenance) ==>
            o.db.spots[i] == db.spots[i])
      && (forall i :: 0 <= i < |db.spots| && (forall k :: 0 <= k < |w| ==> w[k].spotId != db.spots[i].id) ==>
            o.db.spots[i] == Reclaim(db.spots)[i])
  {
    var o := Commit(db, cycle, raffleId, now, d);
    var w := o.result.value.winners;
    var won := d.positions[..|w|];
    forall i | 0 <= i < |db.spots| && (db.spots[i].status == Reserved || db.spots[i].status == Maintenance)
      ensures o.db.spots[i] == db.spots[i]
    {
      assert Reclaim(db.spots)[i] == db.spots[i];
      assert forall k :: 0 <= k < |won| ==> won[k] == d.positions[k];
      assert i !in won;
    }
    forall i | 0 <= i < |db.spots| && (forall k :: 0 <= k < |w| ==> w[k].spotId != db.spots[i].id)
      ensures o.db.spots[i] == Reclaim(db.spots)[i]
    {
      assert forall k :: 0 <= k < |won| ==> won[k] == d.positions[k];
      assert i !in won;
    }
  }

  /** Committing a draw whose positions are distinct free spots: each winner's
      spot is assigned to that winner, and every assigned spot belongs to a
      winner. */
  lemma CommitAssigned(db: Db, cycle: string, raffleId: string, now: string, d: Draw)
    requires forall k :: 0 <= k < |d.positions| ==> d.positions[k] < |db.spots|
    requires Seqs.NoDup(d.positions)
    ensures var o := Commit(db, cycle, raffleId, now, d);
      var w := o.result.value.winners;
      && (forall k :: 0 <= k < |w| ==>
            exists i :: 0 <= i < |db.spots| && o.db.spots[i] == Spot(w[k].spotId, Assigned, Some(w[k].residentId)))
      && (forall i :: 0 <= i < |db.spots| && o.db.spots[i].status == Assigned ==>
            exists k :: 0 <= k < |w| && w[k].spotId == db.spots[i].id && o.db.spots[i].residentId == Some(w[k].residentId))
  {
    CommitWinnersHoldSpots(db, cycle, raffleId, now, d);
    CommitAssignedToWinners(db, cycle, raffleId, now, d);
  }

  /** Each winner's spot is assigned to that winner. */
  lemma CommitWinnersHoldSpots(db: Db, cycle: string, raffleId: string, now: string, d: Draw)
    requires forall k :: 0 <= k < |d.positions| ==> d.positions[k] < |db.spots|
    requires Seqs.NoDup(d.positions)
    ensures var o := Commit(db, cycle, raffleId, now, d);
      var w := o.result.value.winners;
      forall k :: 0 <= k < |w| ==>
        exists i :: 0 <= i < |db.spots| && o.db.spots[i] == Spot(w[k].spotId, Assigned, Some(w[k].residentId))
  {
    var o := Commit(db, cycle, raffleId, now, d);
    var w := o.result.value.winners;
    forall k | 0 <= k < |w|
      ensures exists i :: 0 <= i < |db.spots| && o.db.spots[i] == Spot(w[k].spotId, Assigned, Some(w[k].residentId))
    {
      assert o.db.spots[d.positions[k]] == Spot(w[k].spotId, Assigned, Some(w[k].residentId));
    }
  }

  /** Every spot assigned after the commit belongs to a winner. */
  lemma CommitAssignedToWinners(db: Db, cycle: string, raffleId: string, now: string, d: Draw)
    requires forall k :: 0 <= k < |d.positions| ==> d.positions[k] < |db.spots|
    requires Seqs.NoDup(d.positions)
    ensures var o := Commit(db, cycle, raffleId, now, d);
      var w := o.result.value.winners;
      forall i :: 0 <= i < |db.spots| && o.db.spots[i].status == Assigned ==>
        exists k :: 0 <= k < |w| && w[k].spotId == db.spots[i].id && o.db.spots[i].residentId == Some(w[k].residentId)
  {
    var o := Commit(db, cycle, raffleId, now, d);
    var w := o.result.value.winners;
    var won := d.positions[..|w|];
    forall i | 0 <= i < |db.spots| && o.db.spots[i].status == Assigned
      ensures exists k :: 0 <= k < |w| && w[k].spotId == db.spots[i].id && o.db.spots[i].residentId == Some(w[k].residentId)
    {
      assert i in won;
      var k :| 0 <= k < |won| && won[k] == i;
      assert o.db.spots[i] == Spot(w[k].spotId, Assigned, Some(w[k].residentId));
    }
  }

  /** A run keeps the database well formed: spot ids are untouched, the
      registrations are unchanged, and the new raffle is for a cycle that had
      none. */
  lemma RunKeepsWellFormed(db: Db, cycle: string, raffleId: string, now: string, rs: seq<real>)
    requires Utils.ValidDraws(rs) && |db.registrations| + |db.spots| <= |rs|
    requires WellFormed(db)
    ensures WellFormed(Run(db, cycle, raffleId, now, rs).db)
  {
    var o := Run(db, cycle, raffleId, now, rs);
    if o.result.Success? {
      var rf := o.db.raffles;
      forall i, j | 0 <= i < j < |rf| ensures rf[i].cycle != rf[j].cycle {
        if j == |db.raffles| {
          assert rf[i] in db.raffles;
        } else {
          assert rf[i] == db.raffles[i] && rf[j] == db.raffles[j];
        }
      }
      forall i, j | 0 <= i < j < |o.db.spots| ensures o.db.spots[i].id != o.db.spots[j].id {
        assert o.db.spots[i].id == db.spots[i].id && o.db.spots[j].id == db.spots[j].id;
      }
    }
  }

  /** After a run, `list` shows the new raffle first, then the earlier ones. */
  lemma ListAfterRun(db: Db, cycle: string, raffleId: string, now: string, rs: seq<real>)
    requires Utils.ValidDraws(rs) && |db.registrations| + |db.spots| <= |rs|
    requires !HasRaffle(db, cycle)
    ensures List(Run(db, cycle, raffleId, now, rs).db)
         == [Run(db, cycle, raffleId, now, rs).result.value] + List(db)
  {
    var o := Run(db, cycle, raffleId, now, rs);
    var l := List(o.db);
    var e := [o.result.value] + List(db);
    assert |l| == |e|;
    forall i | 0 <= i < |l| ensures l[i] == e[i] {
      if i > 0 {
        assert e[i] == List(db)[i - 1];
      }
    }
  }

  /** After a run under a fresh id, `get` of that id returns the new raffle. */
  lemma GetAfterRun(db: Db, cycle: string, raffleId: string, now: string, rs: seq<real>)
    requires Utils.ValidDraws(rs) && |db.registrations| + |db.spots| <= |rs|
    requires !HasRaffle(db, cycle)
    requires forall r :: r in db.raffles ==> r.id != raffleId
    ensures Get(Run(db, cycle, raffleId, now, rs).db, raffleId)
         == Success(Run(db, cycle, raffleId, now, rs).result.value)
  {
    var o := Run(db, cycle, raffleId, now, rs);
    GetAppended(o.db, db.raffles, o.result.value);
  }

  /** `get` finds a raffle appended under an id no earlier raffle has. */
  lemma GetAppended(db: Db, earlier: seq<Raffle>, r: Raffle)
    requires db.raffles == earlier + [r]
    requires forall x :: x in earlier ==> x.id != r.id
    ensures Get(db, r.id) == Success(r)
  {
    var rf := db.raffles;
    assert rf[|earlier|] == r;
    forall k | 0 <= k < |earlier| ensures rf[k].id != r.id {
      assert rf[k] in earlier;
    }
  }

  // ----- historyByResident -----

  datatype Verdict = Selected | NotSelected

  /** One row of a resident's history; `spot` is `null` when not selected. */
  datatype HistoryRow = HistoryRow(cycle: string, result: Verdict, spot: Option<string>)

  /** The cycles the resident registered for, once each, in order of first
      registration. */
  function RegisteredCycles(db: Db, residentId: string): (cs: seq<string>)
    ensures Seqs.NoDup(cs)
    ensures forall c :: c in cs <==> Registered(db, c, residentId)
  {
    var regs := Seqs.Filter(db.registrations, (r: Registration) => r.residentId == residentId);
    var cycles := CyclesOf(regs);
    assert forall c :: c in cycles <==> Registered(db, c, residentId) by {
      forall c ensures c in cycles <==> Registered(db, c, residentId) {
        if Registered(db, c, residentId) {
          var r :| r in db.registrations && r.cycle == c && r.residentId == residentId;
          assert r in regs;
        }
      }
    }
    Seqs.Dedup(cycles)
  }

  /** The cycle of each registration, in order. */
  function CyclesOf(regs: seq<Registration>): (cs: seq<string>)
    ensures forall c :: c in cs <==> exists r :: r in regs && r.cycle == c
  {
    if |regs| == 0 then [] else [regs[0].cycle] + CyclesOf(regs[1..])
  }

  /** Some assignment row gives the resident a spot in the cycle. */
  ghost predicate Won(db: Db, cycle: string, residentId: string) {
    exists a :: a in db.assignments && a.cycle == cycle && a.residentId == residentId
  }

  /** The history row of one cycle: "Selected" with the spot of the first
      matching assignment row, or "Not selected" with no spot. */
  function HistoryRowOf(db: Db, residentId: string, cycle: string): (row: HistoryRow)
    ensures row.cycle == cycle
    ensures row.result == Selected <==> Won(db, cycle, residentId)
    ensures row.result == NotSelected <==> row.spot == None
    ensures row.result == Selected ==>
      exists k :: (0 <= k < |db.assignments|
        && db.assignments[k].cycle == cycle && db.assignments[k].residentId == residentId
        && row.spot == Some(db.assignments[k].spotId)
        && forall m :: 0 <= m < k ==> !(db.assignments[m].cycle == cycle && db.assignments[m].residentId == residentId))
  {
    match Seqs.FindIndex(db.assignments, (a: Assignment) => a.cycle == cycle && a.residentId == residentId)
    case Some(k) =>
      assert db.assignments[k] in db.assignments;
      HistoryRow(cycle, Selected, Some(db.assignments[k].spotId))
    case None => HistoryRow(cycle, NotSelected, None)
  }

  /** `(a, b) => a.cycle.localeCompare(b.cycle)`. */
  function ByCycle(a: HistoryRow, b: HistoryRow): int {
    StrOrder.Cmp(a.cycle, b.cycle)
  }

  lemma ByCycleTotalPreorder()
    ensures Sorting.TotalPreorder(ByCycle)
  {
    forall a: HistoryRow, b: HistoryRow ensures ByCycle(a, b) <= 0 || ByCycle(b, a) <= 0 {
      StrOrder.CmpAntisymmetric(a.cycle, b.cycle);
    }
    forall a: HistoryRow, b: HistoryRow, c: HistoryRow | ByCycle(a, b) <= 0 && ByCycle(b, c) <= 0
      ensures ByCycle(a, c) <= 0
    {
      StrOrder.CmpTransitive(a.cycle, b.cycle, c.cycle);
    }
  }

  /** The rows before sorting, one per registered cycle. */
  function HistoryRows(db: Db, residentId: string): (rows: seq<HistoryRow>)
    ensures |rows| == |RegisteredCycles(db, residentId)|
    ensures forall k :: 0 <= k < |rows| ==>
      rows[k] == HistoryRowOf(db, residentId, RegisteredCycles(db, residentId)[k])
  {
    var cs := RegisteredCycles(db, residentId);
    seq(|cs|, k requires 0 <= k < |cs| => HistoryRowOf(db, residentId, cs[k]))
  }

  /** `historyByResident(residentId)`. */
  function HistoryByResident(db: Db, residentId: string): (rows: seq<HistoryRow>)
    ensures multiset(rows) == multiset(HistoryRows(db, residentId))
  {
    Sorting.Sort(HistoryRows(db, residentId), ByCycle)
  }

  /** The history has one row per cycle the resident registered for, and each
      row is that cycle's verdict. */
  lemma HistoryCoversCycles(db: Db, residentId: string)
    ensures var rows := HistoryByResident(db, residentId);
      && (forall c :: Registered(db, c, residentId) <==> exists i :: 0 <= i < |rows| && rows[i].cycle == c)
      && (forall i, j :: 0 <= i < j < |rows| ==> rows[i].cycle != rows[j].cycle)
      && (forall i :: 0 <= i < |rows| ==> rows[i] == HistoryRowOf(db, residentId, rows[i].cycle))
  {
    var cs := RegisteredCycles(db, residentId);
    var u := HistoryRows(db, residentId);
    var rows := HistoryByResident(db, residentId);
    forall i | 0 <= i < |rows|
      ensures rows[i] == HistoryRowOf(db, residentId, rows[i].cycle) && rows[i].cycle in cs
    {
      assert rows[i] in multiset(u);
      var k :| 0 <= k < |u| && u[k] == rows[i];
    }
    forall c | Registered(db, c, residentId) ensures exists i :: 0 <= i < |rows| && rows[i].cycle == c {
      var k :| 0 <= k < |cs| && cs[k] == c;
      assert u[k] in multiset(rows);
      var i :| 0 <= i < |rows| && rows[i] == u[k];
    }
    assert Seqs.NoDup(u) by {
      forall i, j | 0 <= i < j < |u| ensures u[i] != u[j] {
        assert u[i].cycle == cs[i] && u[j].cycle == cs[j];
      }
    }
    Seqs.PermutationNoDup(u, rows);
  }

  /** The history is in strictly increasing cycle order. */
  lemma HistorySorted(db: Db, residentId: string)
    ensures var rows := HistoryByResident(db, residentId);
      forall i, j :: 0 <= i < j < |rows| ==> StrOrder.Cmp(rows[i].cycle, rows[j].cycle) < 0
  {
    ByCycleTotalPreorder();
    Sorting.SortIsSorted(HistoryRows(db, residentId), ByCycle);
    HistoryCoversCycles(db, residentId);
  }

  /** The cycle's row of every cycle the resident registered for appears in
      the history. */
  lemma HistoryHasRow(db: Db, residentId: string, cycle: string)
    requires Registered(db, cycle, residentId)
    ensures HistoryRowOf(db, residentId, cycle) in HistoryByResident(db, residentId)
  {
    HistoryCoversCycles(db, residentId);
    var rows := HistoryByResident(db, residentId);
    var i :| 0 <= i < |rows| && rows[i].cycle == cycle;
    assert rows[i] == HistoryRowOf(db, residentId, cycle);
  }

  /** The cycle's verdict once one ledger row per winner has been appended to a
      ledger that had none for the resident in that cycle: the spot of the
      resident's own row when they are among the (distinct) winners, and
      "Not selected" otherwise. */
  lemma HistoryRowAfterLedger(db: Db, before: seq<Assignment>, cycle: string, ws: seq<Winner>, now: string, id: string)
    requires db.assignments == before + LedgerRows(cycle, ws, now)
    requires forall a :: a in before ==> !(a.cycle == cycle && a.residentId == id)
    requires Seqs.NoDup(WinnerIds(ws))
    ensures forall k :: 0 <= k < |ws| && ws[k].residentId == id ==>
      HistoryRowOf(db, id, cycle) == HistoryRow(cycle, Selected, Some(ws[k].spotId))
    ensures id !in WinnerIds(ws) ==> HistoryRowOf(db, id, cycle) == HistoryRow(cycle, NotSelected, None)
  {
    var ledger := db.assignments;
    var n := |before|;
    var ids := WinnerIds(ws);
    var row := HistoryRowOf(db, id, cycle);
    forall k | 0 <= k < |ws| && ws[k].residentId == id
      ensures row == HistoryRow(cycle, Selected, Some(ws[k].spotId))
    {
      assert ledger[n + k] == Assignment(cycle, ws[k].spotId, id, now);
      assert Won(db, cycle, id) by { assert ledger[n + k] in ledger; }
      var f :| 0 <= f < |ledger| && ledger[f].cycle == cycle && ledger[f].residentId == id
        && row.spot == Some(ledger[f].spotId)
        && forall m :: 0 <= m < f ==> !(ledger[m].cycle == cycle && ledger[m].residentId == id);
      assert ids[f - n] == id == ids[k];
    }
    if id !in ids {
      forall a | a in ledger ensures !(a.cycle == cycle && a.residentId == id) {
        if a !in before {
          var j :| 0 <= j < |ledger| && ledger[j] == a;
          assert ids[j - n] == a.residentId;
        }
      }
    }
  }

  /** Run, then history: for a resident registered in a cycle whose raffle has
      not been run and who has no ledger row for it yet, the resident's
      history afterwards shows the cycle as "Selected" with the won spot when
      the run picked them, and as "Not selected" with no spot otherwise. */
  lemma RunThenHistory(db: Db, cycle: string, raffleId: string, now: string, rs: seq<real>, id: string)
    requires Utils.ValidDraws(rs) && |db.registrations| + |db.spots| <= |rs|
    requires !HasRaffle(db, cycle) && Registered(db, cycle, id) && !Won(db, cycle, id)
    ensures var o := Run(db, cycle, raffleId, now, rs);
      forall k :: 0 <= k < |o.result.value.winners| && o.result.value.winners[k].residentId == id ==>
        HistoryRow(cycle, Selected, Some(o.result.value.winners[k].spotId)) in HistoryByResident(o.db, id)
    ensures var o := Run(db, cycle, raffleId, now, rs);
      id !in WinnerIds(o.result.value.winners) ==> HistoryRow(cycle, NotSelected, None) in HistoryByResident(o.db, id)
  {
    var o := Run(db, cycle, raffleId, now, rs);
    RunWinnersDistinct(db, cycle, raffleId, now, rs);
    assert Registered(o.db, cycle, id);
    HistoryHasRow(o.db, id, cycle);
    HistoryRowAfterLedger(o.db, db.assignments, cycle, o.result.value.winners, now, id);
  }
}
