/** `ReservedStore` as an object: each method runs its statements one by one and rolls back on a refusal. */
module ReservedStoreClass {
  import opened Basics
  import opened SeatMap
  import opened Locks
  import opened Refund
  import opened Store
  import opened StoreInvariant
  import opened Cancellation
  import opened Ledger
  import opened Actions

  class ReservedStore {
    var locks: seq<LockRow>
    var sold: seq<string>
    var bookings: map<string, Booking>
    var seats: map<string, seq<SeatRow>>
    var quotes: map<string, Quote>

    constructor ()
      ensures State() == EMPTY && Valid()
    {
      locks, sold, bookings, seats, quotes := [], [], map[], map[], map[];
      new;
      EmptyIsOk();
    }

    function State(): Tables
      reads this
    {
      Tables(locks, sold, bookings, seats, quotes)
    }

    ghost predicate Valid()
      reads this
    {
      Inv(State())
    }

    /** `acquireHold`: sweep, let go, check and insert in one transaction. */
    method AcquireHold(rq: AcquireRequest, now: int) returns (outcome: AcquireOutcome)
      modifies this`locks
      ensures (locks, outcome) == Acquire(old(locks), rq, now)
      ensures !outcome.Acquired? ==> locks == old(locks)
    {
      var begun := locks;
      var seatIds := SortedDistinct(rq.seatIds);
      locks := Sweep(locks, Only({rq.dep}), now);
      var existing := LatestHold(locks, rq.buyer);
      var live := HasLiveHold(existing, now);
      if live && existing.value.dep == rq.dep && existing.value.seatIds == seatIds {
        return Acquired(existing.value);
      }
      if live {
        locks := ReleaseHold(locks, existing.value.holdId);
      }
      var taken := Taken(locks, rq.dep, seatIds);
      if taken != [] {
        locks := begun;
        return SeatUnavailable(taken);
      }
      if HoldIdUsed(locks, rq.newHoldId) {
        locks := begun;
        return RepeatedHoldId;
      }
      if seatIds == [] {
        locks := begun;
        return NoSeatsNamed;
      }
      locks := locks + NewRows(rq, seatIds, now);
      if !LiveUnique(locks) {
        locks := begun;
        return SeatUnavailable(seatIds);
      }
      outcome := Acquired(HoldRecord(rq.newHoldId, rq.buyer, rq.dep, seatIds, HELD, now + rq.ttlSeconds * 1000, now));
    }

    /** `confirmBooking`: move the locks first, then test the count and the unique keys. */
    method Confirm(holdId: string, rq: ConfirmRequest, now: int) returns (outcome: ConfirmOutcome)
      modifies this`locks, this`sold, this`bookings, this`seats
      ensures (State(), outcome) == ConfirmBooking(old(State()), holdId, rq, now)
      ensures !outcome.Booked? ==> State() == old(State())
    {
      var begun := locks;
      var b := rq.newBookingId;
      var moved := HeldCount(locks, holdId);
      locks := BookHold(locks, holdId, b);
      if moved != |rq.manifest| {
        locks := begun;
        return HoldExpired;
      }
      var rows := SeatRowsFor(rq.manifest, rq.fare);
      var existing := BookingOf(State(), rq.buyer);
      if existing.Some? {
        locks := begun;
        return AlreadyBooked(existing.value);
      }
      if b in bookings || !DistinctRows(rows) {
        locks := begun;
        return ConstraintViolation;
      }
      bookings := bookings[b := Booking(rq.buyer, rq.dep, rq.departureAt, CONFIRMED, SumFare(rows), now, None, None, None, rq.settlement)];
      sold := sold + [b];
      seats := seats[b := rows];
      outcome := Booked(b);
    }

    /**
     * `applyCancellation`: seat by seat, two updates each, then the roll-up. Naming a seat twice,
     * or one that is not the booking's or already cancelled, changes nothing more.
     */
    method Cancel(b: string, seatIds: seq<SeatId>, slab: SlabCode, refunds: map<SeatId, int>, now: int)
      modifies this`locks, this`bookings, this`seats
      ensures State() == ApplyCancellation(old(State()), b, seatIds, slab, refunds, now)
    {
      ghost var was := locks;
      var known := b in bookings && b in seats;
      var rows := if known then seats[b] else [];
      ghost var rowsWas := rows;
      for i := 0 to |seatIds|
        invariant sold == old(sold) && quotes == old(quotes) && bookings == old(bookings) && seats == old(seats)
        invariant locks == Unbook(was, b, seatIds[..i])
        invariant rows == CancelRows(rowsWas, seatIds[..i], slab, refunds, now)
      {
        UnbookOneMore(was, b, seatIds, i);
        CancelOneMore(rowsWas, seatIds, i, slab, refunds, now);
        rows := CancelRows(rows, [seatIds[i]], slab, refunds, now);
        locks := Unbook(locks, b, [seatIds[i]]);
      }
      assert seatIds[..|seatIds|] == seatIds;
      if known {
        var remaining := CountConfirmed(rows);
        var refundTotal := SumRefund(rows);
        seats := seats[b := rows];
        bookings := bookings[b := bookings[b].(
          status := if remaining == 0 then CANCELLED else CONFIRMED,
          cancelledAt := Some(now), refund := Some(refundTotal), slab := Some(slab))];
      }
    }

    /** `unattributedBookings`: one pass over the bookings, grouped by dated departure. */
    method UnattributedBookings() returns (groups: map<Departure, Group>)
      requires KeysOk(State())
      ensures Grouped(State(), sold, groups)
    {
      ghost var t := State();
      groups := map[];
      for i := 0 to |sold|
        invariant Grouped(t, sold[..i], groups)
      {
        var b := sold[i];
        assert b in bookings && b in seats;
        GroupedStep(t, sold, i, groups);
        groups := Enter(groups, bookings[b], seats[b]);
      }
      assert sold[..|sold|] == sold;
    }

    /** A sweep in its own transaction. */
    method SweepExpiredHolds(deps: set<Departure>, now: int)
      requires Valid()
      modifies this`locks
      ensures State() == SweepTables(old(State()), Only(deps), now) && Valid()
    {
      SweepKeepsInv(State(), Only(deps), now);
      locks := Sweep(locks, Only(deps), now);
    }

    /** The select action of the order service, statement by statement. */
    method SelectAction(fleet: Fleet, rq: AcquireRequest, now: int) returns (answer: Answer)
      requires Valid()
      modifies this`locks
      ensures (State(), answer) == SelectSeats(fleet, old(State()), rq, now) && Valid()
    {
      if rq.dep !in fleet {
        return ServiceNotFound;
      }
      var coach := fleet[rq.dep];
      var asked := Elements(rq.seatIds);
      if rq.seatIds != [] && !(asked <= SeatIds(coach)) {
        return SeatNotOnMap;
      }
      SweepExpiredHolds({rq.dep}, now);
      if rq.seatIds == [] {
        return NoHoldTaken;
      }
      var simulated := asked * coach.seeded.Keys;
      if simulated != {} {
        return SimulatedSold(simulated);
      }
      AcquireKeepsInv(State(), rq, now);
      var acquired := AcquireHold(rq, now);
      answer := Selected(acquired);
    }

    /** The confirm action of the order service, statement by statement. */
    method ConfirmAction(rq: ConfirmRequest, now: int) returns (outcome: ConfirmOutcome)
      requires Valid()
      modifies this`locks, this`sold, this`bookings, this`seats
      ensures (State(), outcome) == Store.Confirm(old(State()), rq, now) && Valid()
    {
      ConfirmKeepsInv(State(), rq, now);
      var existing := BookingOf(State(), rq.buyer);
      if existing.Some? {
        return AlreadyBooked(existing.value);
      }
      SweepExpiredHolds({rq.dep}, now);
      var check := CheckHold(State(), rq, now);
      match check {
        case Refuses(refusal) => outcome := refusal;
        case Passes(hold) => outcome := Confirm(hold.holdId, rq, now);
      }
    }

    /** The committing half of the cancel action. */
    method CommitCancelAction(rq: CancelRequest, now: int) returns (outcome: CancelOutcome)
      requires Valid()
      modifies this`locks, this`bookings, this`seats, this`quotes
      ensures (State(), outcome) == CommitCancel(old(State()), rq, now) && Valid()
    {
      CommitCancelKeepsInv(State(), rq, now);
      outcome := ConfirmCancel(rq, now);
    }

    /** `confirmCancel`: quote checks, the refund loop, then the cancellation loop. */
    method ConfirmCancel(rq: CancelRequest, now: int) returns (outcome: CancelOutcome)
      requires BookingsOk(State())
      modifies this`locks, this`bookings, this`seats, this`quotes
      ensures (State(), outcome) == CommitCancel(old(State()), rq, now)
    {
      var refusal := CancelRefusal(State(), rq);
      if refusal.Some? {
        return refusal.value;
      }
      var b := rq.bookingId;
      var live := Targets(seats[b], rq.seatIds);
      var wanted := SortedDistinct(TargetIds(live));
      if rq.quoteId.None? || rq.quoteId.value !in quotes {
        return QuoteExpired;
      }
      var quote := quotes[rq.quoteId.value];
      if quote.bookingId != b || Join(quote.seatIds) != Join(wanted) || quote.expiresAt <= now {
        return QuoteExpired;
      }
      var refund := ComputeRefund(live, bookings[b].departureAt, now);
      if refund.slab != quote.slab {
        if rq.newQuoteId in quotes {
          return RepeatedQuoteId;
        }
        var q := Quote(b, wanted, refund.slab, Percent(refund.slab), refund.refundPaise, now, now + QUOTE_MS);
        quotes := quotes[rq.newQuoteId := q];
        return SlabMoved(rq.newQuoteId, q);
      }
      PerSeatIsComputed(State(), b, rq.seatIds, refund);
      Cancel(b, wanted, refund.slab, refund.perSeatPaise, now);
      outcome := Committed(refund.refundPaise, refund.slab);
    }
  }

  /** The refund loop's per-seat map is the one the cancellation is specified with. */
  lemma PerSeatIsComputed(t: Tables, b: string, named: seq<SeatId>, refund: RefundComputation)
    requires BookingsOk(t) && b in t.bookings && b in t.seats
    requires var live := Targets(t.seats[b], named);
      && refund.perSeatPaise.Keys == (set s | s in live :: s.seatId)
      && (DistinctTargets(live) ==> forall i | 0 <= i < |live| ::
            live[i].seatId in refund.perSeatPaise && refund.perSeatPaise[live[i].seatId] == SeatRefund(live[i].fare, Percent(refund.slab)))
    ensures refund.perSeatPaise == PerSeat(Targets(t.seats[b], named), Percent(refund.slab))
  {
    var live := Targets(t.seats[b], named);
    var per := PerSeat(live, Percent(refund.slab));
    assert BookingOk(t.bookings[b], t.seats[b]);
    TargetsDistinct(t.seats[b], named);
    PerSeatKeys(live, Percent(refund.slab));
    forall s | s in per ensures per[s] == refund.perSeatPaise[s] {
      var seat :| seat in live && seat.seatId == s;
      var i :| 0 <= i < |live| && live[i] == seat;
      PerSeatOf(live, Percent(refund.slab), i);
    }
  }

  lemma {:induction false} PerSeatKeys(live: seq<RefundableSeat>, percent: nat)
    requires percent <= 100
    ensures PerSeat(live, percent).Keys == set s | s in live :: s.seatId
  {
    if live != [] {
      var last := |live| - 1;
      PerSeatKeys(live[..last], percent);
      assert forall s :: s in live <==> s in live[..last] || s == live[last];
    }
  }

  lemma UnbookOneMore(locks: seq<LockRow>, b: string, seatIds: seq<SeatId>, i: nat)
    requires i < |seatIds|
    ensures Unbook(Unbook(locks, b, seatIds[..i]), b, [seatIds[i]]) == Unbook(locks, b, seatIds[..i + 1])
  {
    assert seatIds[..i + 1] == seatIds[..i] + [seatIds[i]];
  }

  lemma CancelOneMore(rows: seq<SeatRow>, seatIds: seq<SeatId>, i: nat, slab: SlabCode, refunds: map<SeatId, int>, now: int)
    requires i < |seatIds|
    ensures CancelRows(CancelRows(rows, seatIds[..i], slab, refunds, now), [seatIds[i]], slab, refunds, now)
         == CancelRows(rows, seatIds[..i + 1], slab, refunds, now)
  {
    assert seatIds[..i + 1] == seatIds[..i] + [seatIds[i]];
  }
}
