/**
 * Exactly which answer each action of the order service gives (`src/reserved/order.ts`), in terms of the
 * rows it finds, swept or not.
 */
module Outcomes {
  import opened Basics
  import opened SeatMap
  import opened Locks
  import opened Refund
  import opened Store
  import opened StoreInvariant
  import opened Cancellation
  import opened Actions
  import opened Reachable

  /* ---- rows at an instant ---- */

  /** An unexpired HELD row. */
  predicate Running(r: LockRow, now: int) {
    r.state.HELD? && r.expiresAt.Some? && now < r.expiresAt.value
  }

  predicate HasRow(locks: seq<LockRow>, buyer: Buyer) {
    exists i | 0 <= i < |locks| :: locks[i].buyer == buyer
  }

  predicate RunsAt(locks: seq<LockRow>, buyer: Buyer, now: int, i: nat) {
    i < |locks| && locks[i].buyer == buyer && Running(locks[i], now)
  }

  ghost predicate HasRunning(locks: seq<LockRow>, buyer: Buyer, now: int) {
    exists i: nat :: RunsAt(locks, buyer, now, i)
  }

  /** A sweep leaves a running row alone, and no other row runs after it than before. */
  lemma SweptRuns(locks: seq<LockRow>, scope: Scope, buyer: Buyer, now: int, i: nat)
    ensures RunsAt(Sweep(locks, scope, now), buyer, now, i) <==> RunsAt(locks, buyer, now, i)
    ensures RunsAt(locks, buyer, now, i) ==> Sweep(locks, scope, now)[i] == locks[i]
  {
  }

  /* ---- reading a hold ---- */

  lemma LatestRuns(locks: seq<LockRow>, buyer: Buyer, now: int)
    requires forall i | 0 <= i < |locks| :: RowOk(locks[i])
    ensures HasLiveHold(LatestHold(locks, buyer), now) ==> RunsAt(locks, buyer, now, NewestRow(locks, buyer).value)
  {
    var n := NewestRow(locks, buyer);
    if n.Some? {
      assert RowOk(locks[n.value]);
    }
  }

  /** The latest hold is live exactly when some row of the buyer runs, and then it is that row's hold. */
  lemma LiveExactly(locks: seq<LockRow>, buyer: Buyer, now: int)
    requires LocksOk(locks) && Timely(locks, now)
    ensures LatestHold(locks, buyer).Some? <==> HasRow(locks, buyer)
    ensures HasLiveHold(LatestHold(locks, buyer), now) <==> HasRunning(locks, buyer, now)
  {
    LatestRuns(locks, buyer, now);
    if HasRunning(locks, buyer, now) {
      var i: nat :| RunsAt(locks, buyer, now, i);
      OnlyTheNewestHoldIsLive(locks, buyer, now, i);
    }
  }

  lemma LiveHoldIs(locks: seq<LockRow>, buyer: Buyer, now: int, i: nat)
    requires LocksOk(locks) && Timely(locks, now) && RunsAt(locks, buyer, now, i)
    ensures HasLiveHold(LatestHold(locks, buyer), now)
    ensures var hold := LatestHold(locks, buyer).value;
      && hold.holdId == locks[i].holdId && hold.dep == locks[i].dep && hold.expiresAt == locks[i].expiresAt.value
      && Elements(hold.seatIds) == HoldSeats(locks, locks[i].holdId)
  {
    OnlyTheNewestHoldIsLive(locks, buyer, now, i);
    var n := NewestRow(locks, buyer).value;
    OneRowDecides(locks, i, n);
    HoldSeatsListed(locks, i);
    HoldSeatsListed(locks, n);
  }

  lemma HoldSeatsListed(locks: seq<LockRow>, i: nat)
    requires HoldsCoherent(locks) && i < |locks|
    ensures Elements(SortedDistinct(SeatsOfHold(locks, locks[i].buyer, locks[i].holdId))) == HoldSeats(locks, locks[i].holdId)
  {
    var listed := SortedDistinct(SeatsOfHold(locks, locks[i].buyer, locks[i].holdId));
    forall s ensures s in Elements(listed) <==> s in HoldSeats(locks, locks[i].holdId) {
      SeatsOfOwnHold(locks, i, s);
      assert SeatInHold(locks, locks[i].holdId, s) <==> s in HoldSeats(locks, locks[i].holdId);
    }
  }

  /**
   * What a hold query answers: nothing for a buyer without rows, LIVE with its id and expiry exactly
   * while a row of the buyer runs, SPENT exactly when the buyer's newest row is booked.
   */
  lemma HoldReadingExactly(locks: seq<LockRow>, buyer: Buyer, now: int)
    requires LocksOk(locks) && Timely(locks, now)
    ensures var r := ReadHold(locks, buyer, now);
      && (r.Some? <==> HasRow(locks, buyer))
      && (r.Some? && r.value.status.LIVE? <==> HasRunning(locks, buyer, now))
      && (r.Some? && r.value.status.LIVE? ==>
            forall i: nat | RunsAt(locks, buyer, now, i) :: r.value.holdId == locks[i].holdId && r.value.expiresAt == locks[i].expiresAt.value)
      && (r.Some? && r.value.status.SPENT? <==> exists i | 0 <= i < |locks| ::
            locks[i].buyer == buyer && locks[i].state.BOOKED? && forall j | i < j < |locks| :: locks[j].buyer != buyer)
  {
    LiveExactly(locks, buyer, now);
    forall i: nat | RunsAt(locks, buyer, now, i)
      ensures LatestHold(locks, buyer).Some? && LatestHold(locks, buyer).value.holdId == locks[i].holdId
        && LatestHold(locks, buyer).value.expiresAt == locks[i].expiresAt.value
    {
      LiveHoldIs(locks, buyer, now, i);
    }
    NewestIsLast(locks, buyer, now);
  }

  /* ---- sweeping ---- */

  /** The rows of these departures that had run out are EXPIRED now, and nothing else is different. */
  predicate ExpiresOnly(t: Tables, u: Tables, deps: set<Departure>, now: int) {
    && u == t.(locks := u.locks) && |u.locks| == |t.locks|
    && forall i | 0 <= i < |t.locks| ::
         var r := t.locks[i];
         u.locks[i] == if r.state.HELD? && r.dep in deps && r.expiresAt.Some? && r.expiresAt.value <= now then r.(state := EXPIRED) else r
  }

  /** Looking at departures expires what has run out on them; a select that takes no hold does so on its own. */
  lemma LooksExpire(fleet: Fleet, t: Tables, deps: set<Departure>, acq: AcquireRequest, now: int)
    ensures ExpiresOnly(t, Step(fleet, t, Look(deps), now).0, deps, now)
    ensures var (u, answer) := SelectSeats(fleet, t, acq, now); answer.NoHoldTaken? || answer.SimulatedSold? ==> ExpiresOnly(t, u, {acq.dep}, now)
  {
  }

  /* ---- select ---- */

  /** Whether the departure was swept first makes no difference to an acquire's answer. */
  lemma AcquireAfterSweep(locks: seq<LockRow>, rq: AcquireRequest, now: int)
    ensures Acquire(Sweep(locks, Only({rq.dep}), now), rq, now).1 == Acquire(locks, rq, now).1
  {
    var swept := Sweep(locks, Only({rq.dep}), now);
    assert Swept(swept, rq, now) == swept == Swept(locks, rq, now);
  }

  /** The seats asked for, as a set, against the coach. */
  lemma AskedSeats(seatIds: seq<SeatId>, coach: Coach)
    ensures Elements(seatIds) <= SeatIds(coach) <==> !exists s | s in seatIds :: s !in SeatIds(coach)
    ensures Elements(seatIds) * coach.seeded.Keys == set s | s in seatIds && s in coach.seeded
  {
    if s :| s in seatIds && s !in SeatIds(coach) {
      assert s in Elements(seatIds);
    }
  }

  /** The answer of a select that names seats of the coach which the simulation has not sold. */
  lemma SelectAcquires(fleet: Fleet, t: Tables, acq: AcquireRequest, now: int)
    ensures var answer := SelectSeats(fleet, t, acq, now).1;
      answer.Selected? ==> answer.acquired == Acquire(t.locks, acq, now).1
  {
    AcquireAfterSweep(t.locks, acq, now);
  }

  /** The five answers of a select; the fifth is then decided by `AcquireExactly`. */
  lemma SelectExactly(fleet: Fleet, t: Tables, acq: AcquireRequest, now: int)
    ensures var answer := SelectSeats(fleet, t, acq, now).1;
      var offMap := acq.dep in fleet && exists s | s in acq.seatIds :: s !in SeatIds(fleet[acq.dep]);
      var simulated := if acq.dep in fleet then (set s | s in acq.seatIds && s in fleet[acq.dep].seeded) else {};
      && (answer.ServiceNotFound? <==> acq.dep !in fleet)
      && (answer.NoHoldTaken? <==> acq.dep in fleet && acq.seatIds == [])
      && (answer.SeatNotOnMap? <==> offMap)
      && (answer.SimulatedSold? <==> acq.dep in fleet && !offMap && simulated != {})
      && (answer.SimulatedSold? ==> answer.seats == simulated)
      && (answer.Selected? <==> acq.dep in fleet && acq.seatIds != [] && !offMap && simulated == {})
      && (answer.Selected? ==> answer.acquired == Acquire(t.locks, acq, now).1)
  {
    SelectAcquires(fleet, t, acq, now);
    if acq.dep in fleet {
      AskedSeats(acq.seatIds, fleet[acq.dep]);
    }
  }

  /**
   * In every state that a run with nondecreasing instants reaches, a select of free seats succeeds: it
   * names seats of the coach that the simulation has not sold, none of them sold or under somebody else's
   * running hold, and the hold id drawn for it is new.
   */
  lemma FreeSeatsCanBeSelected(fleet: Fleet, trace: seq<Event>, clock: int, acq: AcquireRequest, now: int)
    requires InOrder(trace, clock) && LastInstant(trace, clock) <= now
    requires acq.dep in fleet && acq.seatIds != []
    requires forall s | s in acq.seatIds :: s in SeatIds(fleet[acq.dep]) && s !in fleet[acq.dep].seeded
    ensures var t := Run(fleet, EMPTY, trace).0; var answer := Step(fleet, t, Select(acq), now).1;
      AllFree(t.locks, acq, now) && !HoldIdUsed(t.locks, acq.newHoldId) ==> answer.Selected? && answer.acquired.Acquired?
  {
    var t := Run(fleet, EMPTY, trace).0;
    ReachableTimely(fleet, trace, clock, now);
    SelectExactly(fleet, t, acq, now);
    AcquireExactly(t.locks, acq, now);
  }

  /* ---- confirm ---- */

  predicate Sold(t: Tables, buyer: Buyer, b: string) {
    b in t.bookings && t.bookings[b].buyer == buyer
  }

  lemma AlreadyBookedExactly(t: Tables, rq: ConfirmRequest, now: int)
    requires KeysOk(t)
    ensures (exists b :: Sold(t, rq.buyer, b)) <==> BookingOf(t, rq.buyer).Some?
    ensures forall b | Sold(t, rq.buyer, b) :: Confirm(t, rq, now) == (t, AlreadyBooked(b))
  {
    var existing := BookingOf(t, rq.buyer);
    if existing.Some? {
      assert Sold(t, rq.buyer, existing.value);
    }
    forall b | Sold(t, rq.buyer, b) ensures existing == Some(b) {
      assert b in t.sold;
    }
  }

  lemma ConfirmWithoutHold(t: Tables, rq: ConfirmRequest, now: int)
    requires Inv(t) && Timely(t.locks, now) && BookingOf(t, rq.buyer).None? && !HasRunning(t.locks, rq.buyer, now)
    ensures Confirm(t, rq, now).1 == if HasRow(t.locks, rq.buyer) then HoldExpired else HoldRequired
  {
    var swept := Sweep(t.locks, Only({rq.dep}), now);
    SweepKeepsLocksOk(t.locks, Only({rq.dep}), now);
    SweepKeepsTimely(t.locks, Only({rq.dep}), now, now);
    LiveExactly(swept, rq.buyer, now);
    forall i: nat ensures !RunsAt(swept, rq.buyer, now, i) {
      SweptRuns(t.locks, Only({rq.dep}), rq.buyer, now, i);
    }
    SweptHasRow(t.locks, Only({rq.dep}), rq.buyer, now);
  }

  lemma SweptHasRow(locks: seq<LockRow>, scope: Scope, buyer: Buyer, now: int)
    ensures HasRow(Sweep(locks, scope, now), buyer) <==> HasRow(locks, buyer)
  {
    var swept := Sweep(locks, scope, now);
    if HasRow(locks, buyer) {
      var i :| 0 <= i < |locks| && locks[i].buyer == buyer;
      assert swept[i].buyer == buyer;
    }
    if HasRow(swept, buyer) {
      var i :| 0 <= i < |swept| && swept[i].buyer == buyer;
      assert locks[i].buyer == buyer;
    }
  }

  /** The answer for a buyer with a running hold, by the tests in the order they are made. */
  function AnswerWithHold(t: Tables, rq: ConfirmRequest, now: int, i: nat): ConfirmOutcome
    requires i < |t.locks|
  {
    var held, named := HoldSeats(t.locks, t.locks[i].holdId), Named(rq.manifest);
    if t.locks[i].dep != rq.dep then HoldSeatMismatch
    else if !DistinctPassengers(rq.manifest) then ManifestIncomplete
    else if exists s | s in named :: s !in held then HoldSeatMismatch
    else if named != held then ManifestIncomplete
    else
      var locked := GenderRefusal(rq.coach, ClaimsOn(SweepTables(t, Only({rq.dep}), now), rq.dep), Some(rq.buyer.identity), Assignments(rq.manifest));
      if locked.Some? then GenderLocked(locked.value)
      else if rq.newBookingId in t.bookings then ConstraintViolation
      else Booked(rq.newBookingId)
  }

  lemma SweptHoldSeats(locks: seq<LockRow>, scope: Scope, now: int, holdId: string)
    ensures HoldSeats(Sweep(locks, scope, now), holdId) == HoldSeats(locks, holdId)
  {
    var swept := Sweep(locks, scope, now);
    forall s ensures s in HoldSeats(swept, holdId) <==> s in HoldSeats(locks, holdId) {
      if s in HoldSeats(locks, holdId) {
        var i :| 0 <= i < |locks| && locks[i].holdId == holdId && locks[i].seatId == s;
        assert swept[i].seatId == s;
      }
      if s in HoldSeats(swept, holdId) {
        var i :| 0 <= i < |swept| && swept[i].holdId == holdId && swept[i].seatId == s;
        assert locks[i].seatId == s;
      }
    }
  }

  lemma BooksWhatPasses(t: Tables, rq: ConfirmRequest, now: int)
    requires Inv(t) && BookingOf(t, rq.buyer).None? && CheckHold(t, rq, now).Passes?
    ensures ConfirmBooking(t, CheckHold(t, rq, now).hold.holdId, rq, now).1
         == if rq.newBookingId in t.bookings then ConstraintViolation else Booked(rq.newBookingId)
  {
    var h := CheckHold(t, rq, now).hold.holdId;
    PassedHoldIsOwn(t, rq, now);
    CountTestIsExact(t.locks, h, rq.manifest);
    AllHeld(t.locks, h);
    DistinctRowsAreDistinctPassengers(rq.manifest, rq.fare);
  }

  lemma AllHeld(locks: seq<LockRow>, h: string)
    ensures (forall i | 0 <= i < |locks| && locks[i].holdId == h :: locks[i].state.HELD?) ==> HeldSeats(locks, h) == HoldSeats(locks, h)
  {
    if forall i | 0 <= i < |locks| && locks[i].holdId == h :: locks[i].state.HELD? {
      forall s | s in HoldSeats(locks, h) ensures s in HeldSeats(locks, h) {
        var i :| 0 <= i < |locks| && locks[i].holdId == h && locks[i].seatId == s;
        assert locks[i].state.HELD?;
      }
    }
  }

  lemma CheckWithHold(t: Tables, swept: Tables, rq: ConfirmRequest, now: int, i: nat)
    requires LocksOk(swept.locks) && Timely(swept.locks, now) && RunsAt(swept.locks, rq.buyer, now, i)
    requires swept == SweepTables(t, Only({rq.dep}), now) && RunsAt(t.locks, rq.buyer, now, i)
    ensures var check, answer := CheckHold(swept, rq, now), AnswerWithHold(t, rq, now, i);
      if answer.Booked? || answer.ConstraintViolation? then check.Passes? else check == Refuses(answer)
  {
    LiveHoldIs(swept.locks, rq.buyer, now, i);
    SweptHoldSeats(t.locks, Only({rq.dep}), now, t.locks[i].holdId);
    var hold := LatestHold(swept.locks, rq.buyer).value;
    assert Elements(hold.seatIds) == HoldSeats(t.locks, t.locks[i].holdId);
  }

  lemma ConfirmWithHold(t: Tables, rq: ConfirmRequest, now: int, i: nat)
    requires Inv(t) && Timely(t.locks, now) && BookingOf(t, rq.buyer).None? && RunsAt(t.locks, rq.buyer, now, i)
    ensures Confirm(t, rq, now).1 == AnswerWithHold(t, rq, now, i)
  {
    var swept := SweepTables(t, Only({rq.dep}), now);
    SweepKeepsInv(t, Only({rq.dep}), now);
    SweepKeepsTimely(t.locks, Only({rq.dep}), now, now);
    SweptRuns(t.locks, Only({rq.dep}), rq.buyer, now, i);
    CheckWithHold(t, swept, rq, now, i);
    if CheckHold(swept, rq, now).Passes? {
      BooksWhatPasses(swept, rq, now);
    }
  }

  /**
   * Exactly which answer a confirm gets. A transaction that is booked gets its booking; without a row
   * HOLD-REQUIRED; without a running row HOLD-EXPIRED; with one, the answer of the tests on that hold.
   */
  lemma ConfirmExactly(t: Tables, rq: ConfirmRequest, now: int)
    requires Inv(t) && Timely(t.locks, now)
    ensures var out := Confirm(t, rq, now).1; var already := exists b :: Sold(t, rq.buyer, b);
      && (forall b | Sold(t, rq.buyer, b) :: out == AlreadyBooked(b))
      && (!already && !HasRow(t.locks, rq.buyer) ==> out == HoldRequired)
      && (!already && HasRow(t.locks, rq.buyer) && !HasRunning(t.locks, rq.buyer, now) ==> out == HoldExpired)
      && (!already ==> forall i: nat | RunsAt(t.locks, rq.buyer, now, i) :: out == AnswerWithHold(t, rq, now, i))
  {
    AlreadyBookedExactly(t, rq, now);
    if BookingOf(t, rq.buyer).None? {
      if !HasRunning(t.locks, rq.buyer, now) {
        ConfirmWithoutHold(t, rq, now);
      }
      forall i: nat | RunsAt(t.locks, rq.buyer, now, i) ensures Confirm(t, rq, now).1 == AnswerWithHold(t, rq, now, i) {
        ConfirmWithHold(t, rq, now, i);
      }
    }
  }

  /** Every column a booked order stores, and that nothing else about bookings changes. */
  predicate Stores(t: Tables, u: Tables, rq: ConfirmRequest, now: int) {
    var b, n := rq.newBookingId, |rq.manifest|;
    && b !in t.bookings && u.bookings.Keys == t.bookings.Keys + {b} && u.seats.Keys == t.seats.Keys + {b}
    && (forall c | c in t.bookings :: u.bookings[c] == t.bookings[c])
    && (forall c | c in t.seats && c != b :: u.seats[c] == t.seats[c])
    && u.quotes == t.quotes && u.sold == t.sold + [b]
    && u.bookings[b] == Booking(rq.buyer, rq.dep, rq.departureAt, CONFIRMED, Fare(n * rq.fare.base, n * rq.fare.fee, n * rq.fare.toll),
                                now, None, None, None, rq.settlement)
    && |u.seats[b]| == n
    && (forall k | 0 <= k < n ::
          u.seats[b][k] == SeatRow(rq.manifest[k].seatId, rq.manifest[k].gender, rq.fare, CONFIRMED, None, None, None))
  }

  lemma BookingStores(t: Tables, holdId: string, rq: ConfirmRequest, now: int)
    requires rq.newBookingId !in t.bookings
    ensures Stores(t, WithBooking(t, holdId, rq, now), rq, now)
  {
    SumOfEqualFares(SeatRowsFor(rq.manifest, rq.fare), rq.fare);
  }

  lemma BookedColumns(t: Tables, rq: ConfirmRequest, now: int)
    requires Confirm(t, rq, now).1.Booked?
    ensures Stores(t, Confirm(t, rq, now).0, rq, now)
  {
    var swept := SweepTables(t, Only({rq.dep}), now);
    var h := CheckHold(swept, rq, now).hold.holdId;
    assert Confirm(t, rq, now).0 == WithBooking(swept, h, rq, now) && rq.newBookingId !in t.bookings;
    BookingStores(swept, h, rq, now);
  }

  lemma {:induction false} SumOfEqualFares(rows: seq<SeatRow>, fare: Fare)
    requires forall k | 0 <= k < |rows| :: rows[k].fare == fare
    ensures SumFare(rows) == Fare(|rows| * fare.base, |rows| * fare.fee, |rows| * fare.toll)
  {
    if rows != [] {
      SumOfEqualFares(rows[1..], fare);
      OneMore(|rows| - 1, fare.base);
      OneMore(|rows| - 1, fare.fee);
      OneMore(|rows| - 1, fare.toll);
    }
  }

  lemma OneMore(n: nat, x: nat)
    ensures (n + 1) * x == n * x + x
  {
  }

  /* ---- cancel ---- */

  /** The booking exists and was sold to the same operator and buyer app. */
  predicate OwnedBy(t: Tables, rq: CancelRequest) {
    && rq.bookingId in t.bookings && rq.bookingId in t.seats
    && t.bookings[rq.bookingId].buyer.operator == rq.buyer.operator
    && t.bookings[rq.bookingId].buyer.identity.bapId == rq.buyer.identity.bapId
    && t.bookings[rq.bookingId].buyer.identity.bapUri == rq.buyer.identity.bapUri
  }

  predicate OnBooking(rows: seq<SeatRow>, s: SeatId) {
    exists k | 0 <= k < |rows| :: rows[k].seatId == s
  }

  predicate AllOnBooking(rows: seq<SeatRow>, named: seq<SeatId>) {
    forall s | s in named :: OnBooking(rows, s)
  }

  predicate SomeTarget(rows: seq<SeatRow>, named: seq<SeatId>) {
    exists k | 0 <= k < |rows| :: IsTarget(rows[k], named)
  }

  /** A cancel that gets past the checks it shares with every other: the party, the seats, something live. */
  predicate Admitted(t: Tables, rq: CancelRequest) {
    OwnedBy(t, rq) && AllOnBooking(t.seats[rq.bookingId], rq.seatIds) && SomeTarget(t.seats[rq.bookingId], rq.seatIds)
  }

  lemma OnBookingIs(rows: seq<SeatRow>, s: SeatId)
    ensures OnBooking(rows, s) <==> s in RowIds(rows)
  {
    if OnBooking(rows, s) {
      var k :| 0 <= k < |rows| && rows[k].seatId == s;
      assert rows[k] in rows;
    }
  }

  lemma SomeTargetIs(rows: seq<SeatRow>, named: seq<SeatId>)
    ensures SomeTarget(rows, named) <==> Targets(rows, named) != []
  {
    if SomeTarget(rows, named) {
      var k :| 0 <= k < |rows| && IsTarget(rows[k], named);
      TargetAmong(rows, named, k);
    }
    var live := Targets(rows, named);
    if live != [] {
      TargetIdsMembers(rows, named, live[0].seatId);
      assert TargetIds(live)[0] in TargetIds(live);
    }
  }

  /** Which refusal the shared checks give, if any. */
  lemma RefusalExactly(t: Tables, rq: CancelRequest)
    ensures var r := CancelRefusal(t, rq);
      && (r == Some(BookingNotFound) <==> !OwnedBy(t, rq))
      && (r == Some(SeatNotOnBooking) <==> OwnedBy(t, rq) && !AllOnBooking(t.seats[rq.bookingId], rq.seatIds))
      && (r.None? <==> Admitted(t, rq))
      && (OwnedBy(t, rq) && AllOnBooking(t.seats[rq.bookingId], rq.seatIds) && !Admitted(t, rq) ==>
            r == Some(NothingLive(t.bookings[rq.bookingId].refund.GetOr(0))))
  {
    if rq.bookingId in t.seats {
      var rows := t.seats[rq.bookingId];
      forall s ensures OnBooking(rows, s) <==> s in RowIds(rows) {
        OnBookingIs(rows, s);
      }
      SomeTargetIs(rows, rq.seatIds);
    }
  }

  /** What a quote for the admitted request says, and that it runs for two minutes. */
  predicate QuoteFor(t: Tables, rq: CancelRequest, now: int, q: Quote)
    requires rq.bookingId in t.bookings && rq.bookingId in t.seats
  {
    var rows, slab := t.seats[rq.bookingId], SlabFor(t.bookings[rq.bookingId].departureAt, now);
    && q.bookingId == rq.bookingId && q.quotedAt == now && q.expiresAt == now + 120_000
    && q.slab == slab && q.percent == Percent(slab) && q.refund == RefundTotal(Fares(Targets(rows, rq.seatIds)), Percent(slab))
    && Ascending(q.seatIds)
    && (forall s | s in q.seatIds :: exists k | 0 <= k < |rows| :: IsTarget(rows[k], rq.seatIds) && rows[k].seatId == s)
    && (forall k | 0 <= k < |rows| && IsTarget(rows[k], rq.seatIds) :: rows[k].seatId in q.seatIds)
  }

  lemma NewQuoteIsFor(t: Tables, rq: CancelRequest, now: int)
    requires rq.bookingId in t.bookings && rq.bookingId in t.seats
    ensures QuoteFor(t, rq, now, NewQuote(rq.bookingId, Targets(t.seats[rq.bookingId], rq.seatIds),
                                          SlabFor(t.bookings[rq.bookingId].departureAt, now), now))
  {
    var rows := t.seats[rq.bookingId];
    forall s ensures s in TargetIds(Targets(rows, rq.seatIds)) <==> exists k | 0 <= k < |rows| :: IsTarget(rows[k], rq.seatIds) && rows[k].seatId == s {
      TargetIdsMembers(rows, rq.seatIds, s);
    }
  }

  /** Exactly which answer a soft cancel gets, and what it stores. */
  lemma SoftCancelExactly(t: Tables, rq: CancelRequest, now: int)
    ensures var (u, out) := SoftCancel(t, rq, now);
      && (out.BookingNotFound? <==> !OwnedBy(t, rq))
      && (out.SeatNotOnBooking? <==> OwnedBy(t, rq) && !AllOnBooking(t.seats[rq.bookingId], rq.seatIds))
      && (out.NothingLive? <==> OwnedBy(t, rq) && AllOnBooking(t.seats[rq.bookingId], rq.seatIds) && !Admitted(t, rq))
      && (out.NothingLive? ==> out.storedRefund == t.bookings[rq.bookingId].refund.GetOr(0))
      && (out.RepeatedQuoteId? <==> Admitted(t, rq) && rq.newQuoteId in t.quotes)
      && (out.Quoted? <==> Admitted(t, rq) && rq.newQuoteId !in t.quotes)
      && (out.Quoted? ==> out.quoteId == rq.newQuoteId && QuoteFor(t, rq, now, out.quote) && u == t.(quotes := t.quotes[rq.newQuoteId := out.quote]))
      && (!out.Quoted? ==> u == t)
  {
    RefusalExactly(t, rq);
    if Admitted(t, rq) {
      NewQuoteIsFor(t, rq, now);
    }
  }

  /** The named quote is for this booking, joins like the targeted seats, and has not run out. */
  predicate NamesLiveQuote(t: Tables, rq: CancelRequest, now: int)
    requires rq.bookingId in t.seats
  {
    && rq.quoteId.Some? && rq.quoteId.value in t.quotes
    && t.quotes[rq.quoteId.value].bookingId == rq.bookingId
    && Join(t.quotes[rq.quoteId.value].seatIds) == Join(Wanted(t.seats[rq.bookingId], rq.seatIds))
    && now < t.quotes[rq.quoteId.value].expiresAt
  }

  /** Exactly which answer a commit gets; `CommitsTo` says what each does to the tables. */
  lemma CommitExactly(t: Tables, rq: CancelRequest, now: int)
    ensures var out := CommitCancel(t, rq, now).1;
      && (out.BookingNotFound? <==> !OwnedBy(t, rq))
      && (out.SeatNotOnBooking? <==> OwnedBy(t, rq) && !AllOnBooking(t.seats[rq.bookingId], rq.seatIds))
      && (out.NothingLive? <==> OwnedBy(t, rq) && AllOnBooking(t.seats[rq.bookingId], rq.seatIds) && !Admitted(t, rq))
      && (out.NothingLive? ==> out.storedRefund == t.bookings[rq.bookingId].refund.GetOr(0))
      && (out.QuoteExpired? <==> Admitted(t, rq) && !NamesLiveQuote(t, rq, now))
      && (Admitted(t, rq) && NamesLiveQuote(t, rq, now) ==>
            var same := t.quotes[rq.quoteId.value].slab == SlabFor(t.bookings[rq.bookingId].departureAt, now);
            && (out.Committed? <==> same)
            && (out.SlabMoved? <==> !same && rq.newQuoteId !in t.quotes)
            && (out.RepeatedQuoteId? <==> !same && rq.newQuoteId in t.quotes))
      && (out.SlabMoved? ==> Admitted(t, rq) && out.replacementId == rq.newQuoteId && QuoteFor(t, rq, now, out.replacement))
    ensures CommitsTo(t, rq, now, CommitCancel(t, rq, now).0, CommitCancel(t, rq, now).1)
  {
    RefusalExactly(t, rq);
    CommitShape(t, rq, now, CommitCancel(t, rq, now).0, CommitCancel(t, rq, now).1);
    if Admitted(t, rq) {
      NewQuoteIsFor(t, rq, now);
    }
  }

  /* ---- retention ---- */

  /** A retention sweep forgets exactly the manifests of departures longer ago than the retention. */
  lemma RetainExactly(fleet: Fleet, t: Tables, retention: int, now: int, b: string, k: nat)
    requires KeysOk(t) && b in t.bookings && k < |t.seats[b]|
    ensures var u := Step(fleet, t, Retain(retention), now).0;
      && u == t.(seats := u.seats) && b in u.seats && |u.seats[b]| == |t.seats[b]|
      && u.seats[b][k] == if t.bookings[b].departureAt + retention < now then t.seats[b][k].(gender := None) else t.seats[b][k]
  {
  }
}
