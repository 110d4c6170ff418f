/**
 * The `seat_locks` table (`src/reserved/store.ts`): lazy sweep, the hold lookup and the acquire
 * transaction. Rows are never deleted, so a row's index stands for its rowid.
 */
module Locks {
  import opened Basics
  import opened SeatMap

  datatype LockState = HELD | BOOKED | EXPIRED | RELEASED

  datatype Buyer = Buyer(operator: string, identity: Identity)

  datatype Departure = Departure(serviceId: string, travelDate: string)

  datatype LockRow = LockRow(
    dep: Departure, seatId: SeatId, state: LockState, holdId: string, bookingId: Option<string>,
    buyer: Buyer, expiresAt: Option<int>, createdAt: int)

  predicate Live(r: LockRow) {
    r.state.HELD? || r.state.BOOKED?
  }

  predicate Lapsed(r: LockRow, now: int) {
    r.expiresAt.Some? && r.expiresAt.value <= now
  }

  /* ---- the sweep ---- */

  /** The departures an UPDATE is restricted to; `Everywhere` is the store that expires eagerly. */
  datatype Scope = Only(deps: set<Departure>) | Everywhere

  predicate Covers(scope: Scope, dep: Departure) {
    scope.Everywhere? || dep in scope.deps
  }

  function SweepRow(r: LockRow, scope: Scope, now: int): LockRow {
    if r.state.HELD? && Covers(scope, r.dep) && Lapsed(r, now) then r.(state := EXPIRED) else r
  }

  /** `sweepExpiredHolds` and `sweepExpiredHoldsForServices`. */
  function Sweep(locks: seq<LockRow>, scope: Scope, now: int): (r: seq<LockRow>)
    ensures |r| == |locks|
    ensures forall i | 0 <= i < |locks| :: r[i] == SweepRow(locks[i], scope, now)
  {
    seq(|locks|, i requires 0 <= i < |locks| => SweepRow(locks[i], scope, now))
  }

  /* ---- holds ---- */

  datatype HoldRecord = HoldRecord(
    holdId: string, buyer: Buyer, dep: Departure, seatIds: seq<SeatId>, state: LockState,
    expiresAt: int, createdAt: int)

  /** The first row of `ORDER BY created_at DESC, rowid DESC` among a buyer's rows. */
  function NewestRow(locks: seq<LockRow>, buyer: Buyer): (r: Option<nat>)
    ensures r.None? ==> forall i | 0 <= i < |locks| :: locks[i].buyer != buyer
    ensures r.Some? ==> r.value < |locks| && locks[r.value].buyer == buyer
    ensures r.Some? ==> forall i | 0 <= i < |locks| && locks[i].buyer == buyer ::
      locks[i].createdAt < locks[r.value].createdAt || (locks[i].createdAt == locks[r.value].createdAt && i <= r.value)
  {
    if locks == [] then None
    else
      var last := |locks| - 1;
      var earlier := NewestRow(locks[..last], buyer);
      if locks[last].buyer == buyer && (earlier.None? || locks[earlier.value].createdAt <= locks[last].createdAt)
      then Some(last) else earlier
  }

  /** The seats of one hold among one buyer's rows, in table order. */
  function SeatsOfHold(locks: seq<LockRow>, buyer: Buyer, holdId: string): (r: seq<SeatId>)
    ensures forall s :: s in r <==> exists i | 0 <= i < |locks| :: InHold(locks[i], buyer, holdId) && locks[i].seatId == s
  {
    if locks == [] then []
    else
      var rest := SeatsOfHold(locks[1..], buyer, holdId);
      assert forall i | 1 <= i < |locks| :: locks[i] == locks[1..][i - 1];
      assert forall i | 0 <= i < |locks[1..]| :: locks[1..][i] == locks[i + 1];
      if InHold(locks[0], buyer, holdId) then [locks[0].seatId] + rest else rest
  }

  predicate InHold(r: LockRow, buyer: Buyer, holdId: string) {
    r.buyer == buyer && r.holdId == holdId
  }

  /** `holdFromRows`: everything but the seat list is read off the newest row alone. */
  function HoldAt(locks: seq<LockRow>, i: nat): HoldRecord
    requires i < |locks|
  {
    var r := locks[i];
    HoldRecord(r.holdId, r.buyer, r.dep, SortedDistinct(SeatsOfHold(locks, r.buyer, r.holdId)), r.state,
               r.expiresAt.GetOr(0), r.createdAt)
  }

  /** `findLatestHold`. */
  function LatestHold(locks: seq<LockRow>, buyer: Buyer): Option<HoldRecord> {
    var i := NewestRow(locks, buyer);
    if i.None? then None else Some(HoldAt(locks, i.value))
  }

  datatype HoldStatus = LIVE | LAPSED | SPENT

  /** `holdStatus`. */
  function StatusOf(hold: HoldRecord, now: int): HoldStatus {
    if hold.state.BOOKED? then SPENT
    else if !hold.state.HELD? then LAPSED
    else if hold.expiresAt <= now then LAPSED
    else LIVE
  }

  predicate HasLiveHold(latest: Option<HoldRecord>, now: int) {
    latest.Some? && StatusOf(latest.value, now).LIVE?
  }

  /* ---- acquire ---- */

  datatype AcquireRequest = AcquireRequest(buyer: Buyer, dep: Departure, seatIds: seq<SeatId>, ttlSeconds: int, newHoldId: string)

  datatype AcquireOutcome =
    | Acquired(hold: HoldRecord)
    | SeatUnavailable(taken: seq<SeatId>)
    | RepeatedHoldId
    | NoSeatsNamed

  function ReleaseRow(r: LockRow, holdId: string): LockRow {
    if r.holdId == holdId && r.state.HELD? then r.(state := RELEASED) else r
  }

  function ReleaseHold(locks: seq<LockRow>, holdId: string): (r: seq<LockRow>)
    ensures |r| == |locks|
    ensures forall i | 0 <= i < |locks| :: r[i] == ReleaseRow(locks[i], holdId)
  {
    seq(|locks|, i requires 0 <= i < |locks| => ReleaseRow(locks[i], holdId))
  }

  predicate On(r: LockRow, dep: Departure, seatId: SeatId) {
    r.dep == dep && r.seatId == seatId
  }

  predicate Claimed(locks: seq<LockRow>, dep: Departure, seatId: SeatId) {
    exists i | 0 <= i < |locks| :: Live(locks[i]) && On(locks[i], dep, seatId)
  }

  /** The requested seats that carry a live claim, in seat order. */
  function Taken(locks: seq<LockRow>, dep: Departure, seatIds: seq<SeatId>): (r: seq<SeatId>)
    ensures forall s :: s in r <==> s in seatIds && Claimed(locks, dep, s)
  {
    if seatIds == [] then []
    else (if Claimed(locks, dep, seatIds[0]) then [seatIds[0]] else []) + Taken(locks, dep, seatIds[1..])
  }

  function NewRow(rq: AcquireRequest, seatId: SeatId, now: int): LockRow {
    LockRow(rq.dep, seatId, HELD, rq.newHoldId, None, rq.buyer, Some(now + rq.ttlSeconds * 1000), now)
  }

  function NewRows(rq: AcquireRequest, seatIds: seq<SeatId>, now: int): (r: seq<LockRow>)
    ensures |r| == |seatIds|
    ensures forall i | 0 <= i < |seatIds| :: r[i] == NewRow(rq, seatIds[i], now)
  {
    seq(|seatIds|, i requires 0 <= i < |seatIds| => NewRow(rq, seatIds[i], now))
  }

  /** The partial unique index `seat_locks_live`. */
  predicate LiveUnique(locks: seq<LockRow>) {
    forall i, j | 0 <= i < j < |locks| && Live(locks[i]) && Live(locks[j]) ::
      !(locks[i].dep == locks[j].dep && locks[i].seatId == locks[j].seatId)
  }

  /** The table after the acquire path's own sweep, and after it let go of a live older hold. */
  function Swept(locks: seq<LockRow>, rq: AcquireRequest, now: int): seq<LockRow> {
    Sweep(locks, Only({rq.dep}), now)
  }

  function Freed(locks: seq<LockRow>, rq: AcquireRequest, now: int): seq<LockRow> {
    var swept := Swept(locks, rq, now);
    var latest := LatestHold(swept, rq.buyer);
    if HasLiveHold(latest, now) then ReleaseHold(swept, latest.value.holdId) else swept
  }

  /** Whether the select names exactly the seats of the buyer's live hold. */
  predicate Reselects(locks: seq<LockRow>, rq: AcquireRequest, now: int) {
    var latest := LatestHold(Swept(locks, rq, now), rq.buyer);
    HasLiveHold(latest, now) && latest.value.dep == rq.dep && latest.value.seatIds == SortedDistinct(rq.seatIds)
  }

  predicate HoldIdUsed(locks: seq<LockRow>, holdId: string) {
    exists i | 0 <= i < |locks| :: locks[i].holdId == holdId
  }

  /** `acquireHold`. A refusal rolls the whole transaction back, its sweep included. */
  function Acquire(locks: seq<LockRow>, rq: AcquireRequest, now: int): (seq<LockRow>, AcquireOutcome) {
    var seatIds := SortedDistinct(rq.seatIds);
    var swept := Swept(locks, rq, now);
    var latest := LatestHold(swept, rq.buyer);
    if Reselects(locks, rq, now) then (swept, Acquired(latest.value))
    else
      var freed := Freed(locks, rq, now);
      var taken := Taken(freed, rq.dep, seatIds);
      var after := freed + NewRows(rq, seatIds, now);
      if taken != [] then (locks, SeatUnavailable(taken))
      else if HoldIdUsed(freed, rq.newHoldId) then (locks, RepeatedHoldId)
      else if seatIds == [] then (locks, NoSeatsNamed)
      else if !LiveUnique(after) then (locks, SeatUnavailable(seatIds))
      else (after, Acquired(HoldRecord(rq.newHoldId, rq.buyer, rq.dep, seatIds, HELD, now + rq.ttlSeconds * 1000, now)))
  }

  /* ---- what every reachable table satisfies ---- */

  /** A row belongs to a booking exactly when its expiry is gone; only such a row is or was BOOKED. */
  predicate RowOk(r: LockRow) {
    match r.bookingId
    case None => !r.state.BOOKED? && r.expiresAt.Some?
    case Some(_) => (r.state.BOOKED? || r.state.RELEASED?) && r.expiresAt.None?
  }

  /** Two rows of one hold: different seats of one departure, one fate until the hold is booked. */
  predicate Coherent(a: LockRow, b: LockRow) {
    a.holdId == b.holdId ==>
      && a.buyer == b.buyer && a.dep == b.dep && a.createdAt == b.createdAt
      && a.expiresAt == b.expiresAt && a.bookingId == b.bookingId && a.seatId != b.seatId
      && (a.bookingId.None? ==> a.state == b.state)
  }

  predicate HoldsCoherent(locks: seq<LockRow>) {
    && (forall i | 0 <= i < |locks| :: RowOk(locks[i]))
    && (forall i, j | 0 <= i < j < |locks| :: Coherent(locks[i], locks[j]))
  }

  /** The locks of one booking all come from one hold. */
  predicate BookingsFromOneHold(locks: seq<LockRow>) {
    forall i, j | 0 <= i < j < |locks| && locks[i].bookingId.Some? && locks[i].bookingId == locks[j].bookingId ::
      locks[i].holdId == locks[j].holdId
  }

  /** What holds whatever instants the callers read, in whatever order their transactions run. */
  predicate LocksOk(locks: seq<LockRow>) {
    LiveUnique(locks) && HoldsCoherent(locks) && BookingsFromOneHold(locks)
  }

  predicate Chronological(locks: seq<LockRow>, clock: int) {
    && (forall i | 0 <= i < |locks| :: locks[i].createdAt <= clock)
    && (forall i, j | 0 <= i < j < |locks| :: locks[i].createdAt <= locks[j].createdAt)
  }

  /** A buyer's earlier hold that still reads HELD has run out. */
  predicate OlderHoldsLapsed(locks: seq<LockRow>, clock: int) {
    forall i, j | 0 <= i < j < |locks| && locks[i].buyer == locks[j].buyer && locks[i].holdId != locks[j].holdId && locks[i].state.HELD? ::
      Lapsed(locks[i], clock)
  }

  /** What holds besides when instants do not decrease. */
  predicate Timely(locks: seq<LockRow>, clock: int) {
    Chronological(locks, clock) && OlderHoldsLapsed(locks, clock)
  }

  lemma ClockAdvances(locks: seq<LockRow>, t: int, u: int)
    requires Timely(locks, t) && t <= u
    ensures Timely(locks, u)
  {
  }

  lemma SweepKeepsLocksOk(locks: seq<LockRow>, scope: Scope, now: int)
    requires LocksOk(locks)
    ensures LocksOk(Sweep(locks, scope, now))
  {
    var s := Sweep(locks, scope, now);
    forall i, j | 0 <= i < j < |s| ensures Coherent(s[i], s[j]) {
      assert Coherent(locks[i], locks[j]);
    }
  }

  lemma SweepKeepsTimely(locks: seq<LockRow>, scope: Scope, now: int, clock: int)
    requires Timely(locks, clock)
    ensures Timely(Sweep(locks, scope, now), clock)
  {
  }

  lemma ReleaseKeepsLocksOk(locks: seq<LockRow>, holdId: string)
    requires LocksOk(locks)
    ensures LocksOk(ReleaseHold(locks, holdId))
  {
    var s := ReleaseHold(locks, holdId);
    forall i, j | 0 <= i < j < |s| ensures Coherent(s[i], s[j]) {
      assert Coherent(locks[i], locks[j]);
    }
  }

  lemma ReleaseKeepsTimely(locks: seq<LockRow>, holdId: string, clock: int)
    requires Timely(locks, clock)
    ensures Timely(ReleaseHold(locks, holdId), clock)
  {
  }

  lemma FreedKeepsLocksOk(locks: seq<LockRow>, rq: AcquireRequest, now: int)
    requires LocksOk(locks)
    ensures LocksOk(Freed(locks, rq, now))
  {
    var swept := Swept(locks, rq, now);
    SweepKeepsLocksOk(locks, Only({rq.dep}), now);
    var latest := LatestHold(swept, rq.buyer);
    if HasLiveHold(latest, now) {
      ReleaseKeepsLocksOk(swept, latest.value.holdId);
    }
  }

  /** With rows in time order, the newest row of a buyer is the last one in the table. */
  lemma NewestIsLast(locks: seq<LockRow>, buyer: Buyer, now: int)
    requires Chronological(locks, now)
    ensures var n := NewestRow(locks, buyer);
      n.Some? ==> forall i | 0 <= i < |locks| && locks[i].buyer == buyer :: i <= n.value
  {
  }

  /** The row a buyer's live hold shows up in is representative of every row of that hold. */
  lemma OneRowDecides(locks: seq<LockRow>, i: nat, j: nat)
    requires HoldsCoherent(locks) && i < |locks| && j < |locks|
    requires locks[i].holdId == locks[j].holdId && locks[i].state.HELD?
    ensures locks[j].state.HELD? && locks[j].expiresAt == locks[i].expiresAt && locks[j].buyer == locks[i].buyer
    ensures locks[j].dep == locks[i].dep
  {
    if i < j {
      assert Coherent(locks[i], locks[j]);
    } else if j < i {
      assert Coherent(locks[j], locks[i]);
    }
  }

  predicate NothingLiveFor(locks: seq<LockRow>, buyer: Buyer, now: int) {
    forall i | 0 <= i < |locks| && locks[i].buyer == buyer && locks[i].state.HELD? :: Lapsed(locks[i], now)
  }

  lemma OnlyTheNewestHoldIsLive(locks: seq<LockRow>, buyer: Buyer, now: int, i: nat)
    requires HoldsCoherent(locks) && Timely(locks, now)
    requires i < |locks| && locks[i].buyer == buyer && locks[i].state.HELD? && !Lapsed(locks[i], now)
    ensures HasLiveHold(LatestHold(locks, buyer), now)
    ensures LatestHold(locks, buyer).value.holdId == locks[i].holdId
  {
    NewestIsLast(locks, buyer, now);
    var n := NewestRow(locks, buyer).value;
    assert i == n || locks[i].holdId == locks[n].holdId;
    OneRowDecides(locks, i, n);
  }

  /** After the acquire path has let go of the older hold, the buyer has nothing unexpired left. */
  lemma FreedLeavesNothingLive(locks: seq<LockRow>, rq: AcquireRequest, now: int)
    requires LocksOk(locks) && Timely(locks, now)
    ensures Timely(Freed(locks, rq, now), now)
    ensures NothingLiveFor(Freed(locks, rq, now), rq.buyer, now)
  {
    SweepKeepsLocksOk(locks, Only({rq.dep}), now);
    SweepKeepsTimely(locks, Only({rq.dep}), now, now);
    var swept := Swept(locks, rq, now);
    var latest := LatestHold(swept, rq.buyer);
    if HasLiveHold(latest, now) {
      ReleaseKeepsTimely(swept, latest.value.holdId, now);
    }
    ReleaseLeavesNothingLive(swept, rq.buyer, now);
  }

  lemma ReleaseLeavesNothingLive(swept: seq<LockRow>, buyer: Buyer, now: int)
    requires HoldsCoherent(swept) && Timely(swept, now)
    ensures var latest := LatestHold(swept, buyer);
      NothingLiveFor(if HasLiveHold(latest, now) then ReleaseHold(swept, latest.value.holdId) else swept, buyer, now)
  {
    var latest := LatestHold(swept, buyer);
    var freed := if HasLiveHold(latest, now) then ReleaseHold(swept, latest.value.holdId) else swept;
    forall i | 0 <= i < |freed| && freed[i].buyer == buyer && freed[i].state.HELD?
      ensures Lapsed(freed[i], now)
    {
      assert swept[i] == freed[i];
      if !Lapsed(swept[i], now) {
        OnlyTheNewestHoldIsLive(swept, buyer, now, i);
      }
    }
  }

  /** Rows inserted where no claim stands keep the index. */
  lemma InsertKeepsUnique(freed: seq<LockRow>, rq: AcquireRequest, seatIds: seq<SeatId>, now: int)
    requires LiveUnique(freed) && Ascending(seatIds) && Taken(freed, rq.dep, seatIds) == []
    ensures LiveUnique(freed + NewRows(rq, seatIds, now))
  {
    var rows := NewRows(rq, seatIds, now);
    var after := freed + rows;
    AscendingIsDistinct(seatIds);
    forall i, j | 0 <= i < j < |after| && Live(after[i]) && Live(after[j])
      ensures !(after[i].dep == after[j].dep && after[i].seatId == after[j].seatId)
    {
      if i < |freed| <= j {
        assert after[j] == rows[j - |freed|];
        assert after[j].seatId in seatIds;
        assert after[j].seatId !in Taken(freed, rq.dep, seatIds);
        assert !Claimed(freed, rq.dep, after[j].seatId);
      } else if |freed| <= i {
        assert after[i] == rows[i - |freed|] && after[j] == rows[j - |freed|];
      }
    }
  }

  lemma InsertKeepsLocksOk(freed: seq<LockRow>, rq: AcquireRequest, seatIds: seq<SeatId>, now: int)
    requires LocksOk(freed) && Ascending(seatIds)
    requires Taken(freed, rq.dep, seatIds) == [] && !HoldIdUsed(freed, rq.newHoldId)
    ensures LocksOk(freed + NewRows(rq, seatIds, now))
  {
    var rows := NewRows(rq, seatIds, now);
    var after := freed + rows;
    AscendingIsDistinct(seatIds);
    InsertKeepsUnique(freed, rq, seatIds, now);
    forall i, j | 0 <= i < j < |after| ensures Coherent(after[i], after[j]) {
      if j < |freed| {
        assert Coherent(freed[i], freed[j]);
      } else if i < |freed| {
        assert after[j] == rows[j - |freed|];
      } else {
        assert after[i] == rows[i - |freed|] && after[j] == rows[j - |freed|];
      }
    }
  }

  lemma InsertKeepsTimely(freed: seq<LockRow>, rq: AcquireRequest, seatIds: seq<SeatId>, now: int)
    requires Timely(freed, now) && NothingLiveFor(freed, rq.buyer, now)
    ensures Timely(freed + NewRows(rq, seatIds, now), now)
  {
    var rows := NewRows(rq, seatIds, now);
    var after := freed + rows;
    forall i | |freed| <= i < |after| ensures after[i] == rows[i - |freed|] {}
  }

  /** Every outcome of an acquire leaves the lock table in order, whatever instant it is given. */
  lemma AcquireKeepsLocksOk(locks: seq<LockRow>, rq: AcquireRequest, now: int)
    requires LocksOk(locks)
    ensures LocksOk(Acquire(locks, rq, now).0)
  {
    var seatIds := SortedDistinct(rq.seatIds);
    SweepKeepsLocksOk(locks, Only({rq.dep}), now);
    FreedKeepsLocksOk(locks, rq, now);
    var freed := Freed(locks, rq, now);
    if Taken(freed, rq.dep, seatIds) == [] && !HoldIdUsed(freed, rq.newHoldId) {
      InsertKeepsLocksOk(freed, rq, seatIds, now);
    }
  }

  lemma AcquireKeepsTimely(locks: seq<LockRow>, rq: AcquireRequest, now: int)
    requires LocksOk(locks) && Timely(locks, now)
    ensures Timely(Acquire(locks, rq, now).0, now)
  {
    SweepKeepsTimely(locks, Only({rq.dep}), now, now);
    FreedLeavesNothingLive(locks, rq, now);
    InsertKeepsTimely(Freed(locks, rq, now), rq, SortedDistinct(rq.seatIds), now);
  }

  /* ---- what an acquire promises ---- */

  lemma FreedKeepsUnique(locks: seq<LockRow>, rq: AcquireRequest, now: int)
    requires LiveUnique(locks)
    ensures LiveUnique(Swept(locks, rq, now)) && LiveUnique(Freed(locks, rq, now))
  {
  }

  /** Sweep, release and check already imply the index: the insert never collides with it. */
  lemma InsertNeverHitsTheIndex(locks: seq<LockRow>, rq: AcquireRequest, now: int)
    requires LiveUnique(locks) && Taken(Freed(locks, rq, now), rq.dep, SortedDistinct(rq.seatIds)) == []
    ensures LiveUnique(Freed(locks, rq, now) + NewRows(rq, SortedDistinct(rq.seatIds), now))
  {
    FreedKeepsUnique(locks, rq, now);
    InsertKeepsUnique(Freed(locks, rq, now), rq, SortedDistinct(rq.seatIds), now);
  }

  /** A claim that stands in a buyer's way: a booking of anybody's, or somebody else's unexpired hold. */
  predicate StandsInTheWay(r: LockRow, rq: AcquireRequest, now: int) {
    r.state.BOOKED? || (r.state.HELD? && !Lapsed(r, now) && r.buyer != rq.buyer)
  }

  predicate Blocked(locks: seq<LockRow>, rq: AcquireRequest, seatId: SeatId, now: int) {
    exists i | 0 <= i < |locks| :: On(locks[i], rq.dep, seatId) && StandsInTheWay(locks[i], rq, now)
  }

  /** Row by row, what is live after freeing is what stood in the way before. */
  lemma FreedRowIsLiveIfInTheWay(locks: seq<LockRow>, rq: AcquireRequest, now: int, i: nat)
    requires LocksOk(locks) && Timely(locks, now) && i < |locks| && locks[i].dep == rq.dep
    ensures |Freed(locks, rq, now)| == |locks|
    ensures var r := Freed(locks, rq, now)[i];
      r.dep == locks[i].dep && r.seatId == locks[i].seatId && (Live(r) <==> StandsInTheWay(locks[i], rq, now))
  {
    var swept := Swept(locks, rq, now);
    SweepKeepsLocksOk(locks, Only({rq.dep}), now);
    SweepKeepsTimely(locks, Only({rq.dep}), now, now);
    if swept[i].state.HELD? {
      assert !Lapsed(swept[i], now);
      if swept[i].buyer == rq.buyer {
        OnlyTheNewestHoldIsLive(swept, rq.buyer, now, i);
      } else {
        var n := NewestRow(swept, rq.buyer);
        if n.Some? && swept[i].holdId == swept[n.value].holdId {
          OneRowDecides(swept, i, n.value);
        }
      }
    }
  }

  lemma ClaimedAfterFreeing(locks: seq<LockRow>, rq: AcquireRequest, seatId: SeatId, now: int)
    requires LocksOk(locks) && Timely(locks, now)
    ensures Claimed(Freed(locks, rq, now), rq.dep, seatId) <==> Blocked(locks, rq, seatId, now)
  {
    var freed := Freed(locks, rq, now);
    if Claimed(freed, rq.dep, seatId) {
      var i :| 0 <= i < |freed| && Live(freed[i]) && On(freed[i], rq.dep, seatId);
      FreedRowIsLiveIfInTheWay(locks, rq, now, i);
      assert On(locks[i], rq.dep, seatId);
    }
    if Blocked(locks, rq, seatId, now) {
      var i :| 0 <= i < |locks| && On(locks[i], rq.dep, seatId) && StandsInTheWay(locks[i], rq, now);
      FreedRowIsLiveIfInTheWay(locks, rq, now, i);
      assert On(freed[i], rq.dep, seatId);
    }
  }

  lemma {:induction false} TakenAscending(locks: seq<LockRow>, dep: Departure, seatIds: seq<SeatId>)
    requires Ascending(seatIds)
    ensures Ascending(Taken(locks, dep, seatIds))
  {
    if seatIds != [] {
      TakenAscending(locks, dep, seatIds[1..]);
      var rest := Taken(locks, dep, seatIds[1..]);
      forall j | 0 <= j < |rest| ensures Below(seatIds[0], rest[j]) {
        assert rest[j] in rest;
      }
    }
  }

  /**
   * Exactly when a select is refused for its seats, and with which list: the requested seats
   * that are sold or under somebody else's unexpired hold. A buyer's own hold never counts
   * against it, lapsed or not, swept or not.
   */
  lemma RefusedExactlyForOthersSeats(locks: seq<LockRow>, rq: AcquireRequest, now: int)
    requires LocksOk(locks) && Timely(locks, now)
    ensures var out := Acquire(locks, rq, now).1;
      && (out.SeatUnavailable? <==> !Reselects(locks, rq, now) && exists s | s in rq.seatIds :: Blocked(locks, rq, s, now))
      && (out.SeatUnavailable? ==> Ascending(out.taken) && forall s :: s in out.taken <==> s in rq.seatIds && Blocked(locks, rq, s, now))
  {
    TakenAscending(Freed(locks, rq, now), rq.dep, SortedDistinct(rq.seatIds));
    var seatIds := SortedDistinct(rq.seatIds);
    var freed := Freed(locks, rq, now);
    var taken := Taken(freed, rq.dep, seatIds);
    forall s ensures s in taken <==> s in rq.seatIds && Blocked(locks, rq, s, now) {
      ClaimedAfterFreeing(locks, rq, s, now);
    }
    HasMember(taken);
    if taken == [] {
      InsertNeverHitsTheIndex(locks, rq, now);
    }
  }

  /** A refused acquire leaves the table, and with it the older hold, exactly as it was. */
  lemma RefusalChangesNothing(locks: seq<LockRow>, rq: AcquireRequest, now: int)
    requires !Acquire(locks, rq, now).1.Acquired?
    ensures Acquire(locks, rq, now).0 == locks
  {
  }

  /** Every unexpired HELD row of one buyer belongs to one hold. */
  lemma OneLiveHoldPerBuyer(locks: seq<LockRow>, now: int, i: nat, j: nat)
    requires LocksOk(locks) && Timely(locks, now) && i < |locks| && j < |locks|
    requires locks[i].buyer == locks[j].buyer
    requires locks[i].state.HELD? && !Lapsed(locks[i], now) && locks[j].state.HELD? && !Lapsed(locks[j], now)
    ensures locks[i].holdId == locks[j].holdId
  {
  }

  /**
   * Selecting again exactly the seats of a live hold, in any order and with repetitions, gives
   * the same hold back with its expiry unmoved, and changes nothing beyond the sweep.
   */
  lemma ReselectKeepsHold(locks: seq<LockRow>, rq: AcquireRequest, now: int, i: nat)
    requires LocksOk(locks) && Timely(locks, now) && i < |locks|
    requires locks[i].buyer == rq.buyer && locks[i].dep == rq.dep && locks[i].state.HELD? && !Lapsed(locks[i], now)
    requires forall s :: s in rq.seatIds <==> s in SeatsOfHold(locks, rq.buyer, locks[i].holdId)
    ensures var (after, out) := Acquire(locks, rq, now);
      && after == Swept(locks, rq, now)
      && out.Acquired? && out.hold.holdId == locks[i].holdId && Some(out.hold.expiresAt) == locks[i].expiresAt
      && out.hold.createdAt == locks[i].createdAt
    ensures Reselects(locks, rq, now)
  {
    var swept := Swept(locks, rq, now);
    SweepKeepsLocksOk(locks, Only({rq.dep}), now);
    SweepKeepsTimely(locks, Only({rq.dep}), now, now);
    assert swept[i] == locks[i];
    OnlyTheNewestHoldIsLive(swept, rq.buyer, now, i);
    var n := NewestRow(swept, rq.buyer).value;
    OneRowDecides(swept, i, n);
    SweepKeepsSeatsOfHold(locks, Only({rq.dep}), now, rq.buyer, locks[i].holdId);
    var held := SortedDistinct(SeatsOfHold(swept, rq.buyer, locks[i].holdId));
    AscendingUnique(SortedDistinct(rq.seatIds), held);
    assert i == n || Coherent(swept[i], swept[n]);
  }

  lemma {:induction false} SweepKeepsSeatsOfHold(locks: seq<LockRow>, scope: Scope, now: int, buyer: Buyer, holdId: string)
    ensures SeatsOfHold(Sweep(locks, scope, now), buyer, holdId) == SeatsOfHold(locks, buyer, holdId)
  {
    if locks != [] {
      SweepKeepsSeatsOfHold(locks[1..], scope, now, buyer, holdId);
      assert Sweep(locks, scope, now)[1..] == Sweep(locks[1..], scope, now);
    }
  }

  /** The newest row of a chronological table is the buyer's last one. */
  lemma LastRowIsNewest(locks: seq<LockRow>, buyer: Buyer, now: int)
    requires locks != [] && (forall i | 0 <= i < |locks| :: locks[i].createdAt <= now)
    requires locks[|locks| - 1].buyer == buyer && locks[|locks| - 1].createdAt == now
    ensures NewestRow(locks, buyer) == Some(|locks| - 1)
  {
  }

  lemma InsertedSeats(freed: seq<LockRow>, rq: AcquireRequest, seatIds: seq<SeatId>, now: int)
    requires Ascending(seatIds) && !HoldIdUsed(freed, rq.newHoldId)
    ensures SortedDistinct(SeatsOfHold(freed + NewRows(rq, seatIds, now), rq.buyer, rq.newHoldId)) == seatIds
  {
    var rows := NewRows(rq, seatIds, now);
    var after := freed + rows;
    var listed := SeatsOfHold(after, rq.buyer, rq.newHoldId);
    forall s ensures s in listed <==> s in seatIds {
      if s in seatIds {
        var k :| 0 <= k < |seatIds| && seatIds[k] == s;
        assert after[|freed| + k] == rows[k];
      }
      if s in listed {
        var i :| 0 <= i < |after| && InHold(after[i], rq.buyer, rq.newHoldId) && after[i].seatId == s;
        assert i >= |freed| && after[i] == rows[i - |freed|];
      }
    }
    AscendingUnique(SortedDistinct(listed), seatIds);
  }

  /** The new rows read back as the hold that was announced. */
  lemma InsertedReadsBack(freed: seq<LockRow>, rq: AcquireRequest, seatIds: seq<SeatId>, now: int)
    requires Ascending(seatIds) && seatIds != [] && !HoldIdUsed(freed, rq.newHoldId)
    requires forall i | 0 <= i < |freed| :: freed[i].createdAt <= now
    ensures LatestHold(freed + NewRows(rq, seatIds, now), rq.buyer)
         == Some(HoldRecord(rq.newHoldId, rq.buyer, rq.dep, seatIds, HELD, now + rq.ttlSeconds * 1000, now))
  {
    var after := freed + NewRows(rq, seatIds, now);
    assert after[|after| - 1] == NewRow(rq, seatIds[|seatIds| - 1], now);
    LastRowIsNewest(after, rq.buyer, now);
    InsertedSeats(freed, rq, seatIds, now);
  }

  /** What a successful acquire came from. */
  lemma AcquiredShape(locks: seq<LockRow>, rq: AcquireRequest, now: int, after: seq<LockRow>, hold: HoldRecord)
    requires Acquire(locks, rq, now) == (after, Acquired(hold))
    ensures var seatIds, freed := SortedDistinct(rq.seatIds), Freed(locks, rq, now);
      if Reselects(locks, rq, now) then
        && after == Swept(locks, rq, now) && LatestHold(after, rq.buyer) == Some(hold) && StatusOf(hold, now).LIVE?
        && hold.dep == rq.dep && hold.seatIds == seatIds
      else
        && after == freed + NewRows(rq, seatIds, now) && seatIds != [] && !HoldIdUsed(freed, rq.newHoldId)
        && hold == HoldRecord(rq.newHoldId, rq.buyer, rq.dep, seatIds, HELD, now + rq.ttlSeconds * 1000, now)
  {
  }

  /**
   * What a select announces is what the store reads back: the hold it answers with is the buyer's
   * latest, covers exactly the seats asked for and, when it is a new one, runs for the full time.
   */
  lemma AcquiredReadsBack(locks: seq<LockRow>, rq: AcquireRequest, now: int, after: seq<LockRow>, hold: HoldRecord)
    requires Chronological(locks, now) && Acquire(locks, rq, now) == (after, Acquired(hold))
    ensures LatestHold(after, rq.buyer) == Some(hold)
    ensures hold.buyer == rq.buyer && hold.dep == rq.dep && Elements(hold.seatIds) == Elements(rq.seatIds)
    ensures if Reselects(locks, rq, now) then StatusOf(hold, now).LIVE?
            else hold.state.HELD? && hold.expiresAt == now + rq.ttlSeconds * 1000
  {
    AcquiredShape(locks, rq, now, after, hold);
    if !Reselects(locks, rq, now) {
      FreedChronological(locks, rq, now);
      InsertedReadsBack(Freed(locks, rq, now), rq, SortedDistinct(rq.seatIds), now);
    }
    assert Elements(SortedDistinct(rq.seatIds)) == Elements(rq.seatIds);
  }

  lemma FreedChronological(locks: seq<LockRow>, rq: AcquireRequest, now: int)
    requires Chronological(locks, now)
    ensures forall i | 0 <= i < |Freed(locks, rq, now)| :: Freed(locks, rq, now)[i].createdAt <= now
  {
  }

  /* ---- exactly when an acquire succeeds ---- */

  predicate SeatInHold(locks: seq<LockRow>, holdId: string, s: SeatId) {
    exists j | 0 <= j < |locks| :: locks[j].holdId == holdId && locks[j].seatId == s
  }

  /** Row `i` is of an unexpired hold of the buyer, on that departure, of exactly the seats asked for. */
  ghost predicate HoldsThese(locks: seq<LockRow>, rq: AcquireRequest, now: int, i: nat) {
    && i < |locks| && locks[i].buyer == rq.buyer && locks[i].dep == rq.dep && locks[i].state.HELD?
    && locks[i].expiresAt.Some? && now < locks[i].expiresAt.value
    && (forall s :: s in rq.seatIds <==> SeatInHold(locks, locks[i].holdId, s))
  }

  ghost predicate HoldsTheseAlready(locks: seq<LockRow>, rq: AcquireRequest, now: int) {
    exists i: nat :: HoldsThese(locks, rq, now, i)
  }

  lemma SeatsOfOwnHold(locks: seq<LockRow>, i: nat, s: SeatId)
    requires HoldsCoherent(locks) && i < |locks|
    ensures SeatInHold(locks, locks[i].holdId, s) <==> s in SeatsOfHold(locks, locks[i].buyer, locks[i].holdId)
  {
    if SeatInHold(locks, locks[i].holdId, s) {
      var j :| 0 <= j < |locks| && locks[j].holdId == locks[i].holdId && locks[j].seatId == s;
      assert i < j ==> Coherent(locks[i], locks[j]);
      assert j < i ==> Coherent(locks[j], locks[i]);
      assert InHold(locks[j], locks[i].buyer, locks[i].holdId);
    }
  }

  lemma ReselectsOnlyOwn(locks: seq<LockRow>, rq: AcquireRequest, now: int)
    requires LocksOk(locks) && Reselects(locks, rq, now)
    ensures HoldsTheseAlready(locks, rq, now)
  {
    var swept := Swept(locks, rq, now);
    var n := NewestRow(swept, rq.buyer).value;
    assert swept[n] == locks[n] && RowOk(locks[n]);
    SweepKeepsSeatsOfHold(locks, Only({rq.dep}), now, rq.buyer, locks[n].holdId);
    forall s ensures s in rq.seatIds <==> SeatInHold(locks, locks[n].holdId, s) {
      SeatsOfOwnHold(locks, n, s);
      assert s in rq.seatIds <==> s in SortedDistinct(rq.seatIds);
    }
    assert HoldsThese(locks, rq, now, n);
  }

  lemma ReselectsExactly(locks: seq<LockRow>, rq: AcquireRequest, now: int)
    requires LocksOk(locks) && Timely(locks, now)
    ensures Reselects(locks, rq, now) <==> HoldsTheseAlready(locks, rq, now)
  {
    if Reselects(locks, rq, now) {
      ReselectsOnlyOwn(locks, rq, now);
    }
    if HoldsTheseAlready(locks, rq, now) {
      var i: nat :| HoldsThese(locks, rq, now, i);
      forall s ensures s in rq.seatIds <==> s in SeatsOfHold(locks, rq.buyer, locks[i].holdId) {
        SeatsOfOwnHold(locks, i, s);
      }
      ReselectKeepsHold(locks, rq, now, i);
    }
  }

  /** The outcome by its guards, in the order they are tried. */
  lemma AcquireGuards(locks: seq<LockRow>, rq: AcquireRequest, now: int)
    requires LiveUnique(locks)
    ensures var out, taken := Acquire(locks, rq, now).1, Taken(Freed(locks, rq, now), rq.dep, SortedDistinct(rq.seatIds));
      var resel, used, none := Reselects(locks, rq, now), HoldIdUsed(locks, rq.newHoldId), rq.seatIds == [];
      && (out.Acquired? <==> resel || (taken == [] && !used && !none))
      && (out.SeatUnavailable? <==> !resel && taken != [])
      && (out.RepeatedHoldId? <==> !resel && taken == [] && used)
      && (out.NoSeatsNamed? <==> !resel && taken == [] && !used && none)
  {
    var freed, seatIds := Freed(locks, rq, now), SortedDistinct(rq.seatIds);
    HasMember(seatIds);
    HasMember(rq.seatIds);
    SameIdsUsed(locks, rq, now);
    if Taken(freed, rq.dep, seatIds) == [] {
      InsertNeverHitsTheIndex(locks, rq, now);
    }
  }

  lemma SameIdsUsed(locks: seq<LockRow>, rq: AcquireRequest, now: int)
    ensures HoldIdUsed(Freed(locks, rq, now), rq.newHoldId) <==> HoldIdUsed(locks, rq.newHoldId)
  {
    var freed := Freed(locks, rq, now);
    assert |freed| == |locks|;
    forall i | 0 <= i < |locks| ensures freed[i].holdId == locks[i].holdId {
    }
    if HoldIdUsed(locks, rq.newHoldId) {
      var i :| 0 <= i < |locks| && locks[i].holdId == rq.newHoldId;
      assert freed[i].holdId == rq.newHoldId;
    }
  }

  /** No seat asked for is sold or under somebody else's unexpired hold. */
  ghost predicate AllFree(locks: seq<LockRow>, rq: AcquireRequest, now: int) {
    forall s | s in rq.seatIds :: !Blocked(locks, rq, s, now)
  }

  /**
   * Exactly when a select succeeds, and with which code it is refused: it succeeds when the buyer
   * already holds exactly these seats, or when it names a seat, all seats are free and the new hold id
   * is new.
   */
  lemma AcquireExactly(locks: seq<LockRow>, rq: AcquireRequest, now: int)
    requires LocksOk(locks) && Timely(locks, now)
    ensures var out := Acquire(locks, rq, now).1;
      var held, free, used := HoldsTheseAlready(locks, rq, now), AllFree(locks, rq, now), HoldIdUsed(locks, rq.newHoldId);
      && (out.Acquired? <==> held || (rq.seatIds != [] && free && !used))
      && (out.SeatUnavailable? <==> !held && !free)
      && (out.RepeatedHoldId? <==> !held && free && used)
      && (out.NoSeatsNamed? <==> !held && rq.seatIds == [] && !used)
  {
    ReselectsExactly(locks, rq, now);
    AcquireGuards(locks, rq, now);
    var taken := Taken(Freed(locks, rq, now), rq.dep, SortedDistinct(rq.seatIds));
    forall s ensures s in taken <==> s in rq.seatIds && Blocked(locks, rq, s, now) {
      ClaimedAfterFreeing(locks, rq, s, now);
    }
    HasMember(taken);
  }

  /** A seat with a live claim is blocked exactly when that claim stands in the way. */
  lemma OneClaimDecides(locks: seq<LockRow>, rq: AcquireRequest, s: SeatId, now: int, i: nat)
    requires LiveUnique(locks) && i < |locks| && Live(locks[i]) && On(locks[i], rq.dep, s)
    ensures Blocked(locks, rq, s, now) <==> StandsInTheWay(locks[i], rq, now)
  {
    if Blocked(locks, rq, s, now) {
      var j :| 0 <= j < |locks| && On(locks[j], rq.dep, s) && StandsInTheWay(locks[j], rq, now);
      assert i < j || j < i || i == j;
    }
  }

  lemma InsertedRow(freed: seq<LockRow>, rq: AcquireRequest, now: int, s: SeatId) returns (i: nat)
    requires s in rq.seatIds
    ensures var after := freed + NewRows(rq, SortedDistinct(rq.seatIds), now); i < |after| && after[i] == NewRow(rq, s, now)
  {
    var seatIds := SortedDistinct(rq.seatIds);
    var k :| 0 <= k < |seatIds| && seatIds[k] == s;
    i := |freed| + k;
  }

  /**
   * A new hold keeps its seats from everybody else up to, and not including, the instant announced:
   * `ttlSeconds` seconds after it was taken.
   */
  lemma HoldLastsExactly(locks: seq<LockRow>, rq: AcquireRequest, now: int, after: seq<LockRow>, hold: HoldRecord,
                         other: AcquireRequest, later: int, s: SeatId)
    requires LocksOk(locks) && Acquire(locks, rq, now) == (after, Acquired(hold)) && !Reselects(locks, rq, now)
    requires other.buyer != rq.buyer && other.dep == rq.dep && s in rq.seatIds
    ensures Blocked(after, other, s, later) <==> later < now + 1000 * rq.ttlSeconds
  {
    AcquiredShape(locks, rq, now, after, hold);
    AcquireKeepsLocksOk(locks, rq, now);
    var i := InsertedRow(Freed(locks, rq, now), rq, now, s);
    OneClaimDecides(after, other, s, later, i);
  }
}
