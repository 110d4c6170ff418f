/** What holds in every state a run can reach, and what no run can change. */
module Reachable {
  import opened Basics
  import opened Locks
  import opened Refund
  import opened Store
  import opened StoreInvariant
  import opened Cancellation
  import opened Actions

  lemma SelectKeepsInv(fleet: Fleet, t: Tables, acq: AcquireRequest, now: int)
    requires Inv(t)
    ensures Inv(Step(fleet, t, Select(acq), now).0)
  {
    var swept := SweepTables(t, Only({acq.dep}), now);
    SweepKeepsInv(t, Only({acq.dep}), now);
    AcquireKeepsInv(swept, acq, now);
    var after := SelectSeats(fleet, t, acq, now).0;
    assert after == t || after == swept || after == swept.(locks := Acquire(swept.locks, acq, now).0);
  }

  lemma ConfirmOrderKeepsInv(fleet: Fleet, t: Tables, rq: ConfirmRequest, now: int)
    requires Inv(t)
    ensures Inv(Step(fleet, t, ConfirmOrder(rq), now).0)
  {
    if rq.dep in fleet {
      ConfirmKeepsInv(t, rq.(coach := fleet[rq.dep]), now);
    }
  }

  lemma RetainForgets(fleet: Fleet, t: Tables, a: Action, now: int)
    requires a.Retain?
    ensures ForgottenTo(t, Step(fleet, t, a, now).0)
  {
  }

  lemma CancelKeepsInv(fleet: Fleet, t: Tables, rq: CancelRequest, now: int)
    requires Inv(t)
    ensures Inv(Step(fleet, t, AskRefund(rq), now).0) && Inv(Step(fleet, t, CommitRefund(rq), now).0)
  {
    SoftCancelKeepsInv(t, rq, now);
    CommitCancelKeepsInv(t, rq, now);
  }

  lemma LookKeepsInv(fleet: Fleet, t: Tables, deps: set<Departure>, now: int)
    requires Inv(t)
    ensures Inv(Step(fleet, t, Look(deps), now).0)
  {
    SweepKeepsInv(t, Only(deps), now);
  }

  /** Every action keeps the invariant, at whatever instant. */
  lemma StepKeepsInv(fleet: Fleet, t: Tables, a: Action, now: int)
    requires Inv(t)
    ensures Inv(Step(fleet, t, a, now).0)
  {
    match a
    case Look(deps) => LookKeepsInv(fleet, t, deps, now);
    case Select(acq) => SelectKeepsInv(fleet, t, acq, now);
    case ConfirmOrder(rq) => ConfirmOrderKeepsInv(fleet, t, rq, now);
    case AskRefund(rq) => CancelKeepsInv(fleet, t, rq, now);
    case CommitRefund(rq) => CancelKeepsInv(fleet, t, rq, now);
    case AskHold(_) => assert Step(fleet, t, a, now).0 == t;
    case Retain(_) =>
      RetainForgets(fleet, t, a, now);
      ForgettingKeepsInv(t, Step(fleet, t, a, now).0);
  }

  /** So every state reached from the empty tables satisfies it, in whatever order the clock was read. */
  lemma {:induction false} RunKeepsInv(fleet: Fleet, t: Tables, trace: seq<Event>)
    requires Inv(t)
    ensures Inv(Run(fleet, t, trace).0)
    decreases |trace|
  {
    if trace != [] {
      StepKeepsInv(fleet, t, trace[0].action, trace[0].at);
      RunKeepsInv(fleet, Step(fleet, t, trace[0].action, trace[0].at).0, trace[1..]);
    }
  }

  lemma ReachableInv(fleet: Fleet, trace: seq<Event>)
    ensures Inv(Run(fleet, EMPTY, trace).0)
  {
    EmptyIsOk();
    RunKeepsInv(fleet, EMPTY, trace);
  }

  /* ---- what nondecreasing instants add ---- */

  lemma BookKeepsTimely(locks: seq<LockRow>, holdId: string, b: string, clock: int)
    requires Timely(locks, clock)
    ensures Timely(BookHold(locks, holdId, b), clock)
  {
  }

  lemma UnbookKeepsTimely(locks: seq<LockRow>, b: string, ids: seq<SeatId>, clock: int)
    requires Timely(locks, clock)
    ensures Timely(Unbook(locks, b, ids), clock)
  {
  }

  lemma SelectResult(fleet: Fleet, t: Tables, acq: AcquireRequest, now: int)
    ensures var after, swept := SelectSeats(fleet, t, acq, now).0.locks, Sweep(t.locks, Only({acq.dep}), now);
      after == t.locks || after == swept || after == Acquire(swept, acq, now).0
  {
  }

  lemma SelectKeepsTimely(fleet: Fleet, t: Tables, acq: AcquireRequest, now: int)
    requires LocksOk(t.locks) && Timely(t.locks, now)
    ensures Timely(SelectSeats(fleet, t, acq, now).0.locks, now)
  {
    SweepKeepsLocksOk(t.locks, Only({acq.dep}), now);
    SweepKeepsTimely(t.locks, Only({acq.dep}), now, now);
    AcquireKeepsTimely(Sweep(t.locks, Only({acq.dep}), now), acq, now);
    SelectResult(fleet, t, acq, now);
  }

  lemma ConfirmKeepsTimely(t: Tables, rq: ConfirmRequest, now: int)
    requires Timely(t.locks, now)
    ensures Timely(Confirm(t, rq, now).0.locks, now)
  {
    var swept := SweepTables(t, Only({rq.dep}), now);
    SweepKeepsTimely(t.locks, Only({rq.dep}), now, now);
    ConfirmResult(t, rq, now);
    if CheckHold(swept, rq, now).Passes? {
      BookKeepsTimely(swept.locks, CheckHold(swept, rq, now).hold.holdId, rq.newBookingId, now);
    }
  }

  lemma CommitKeepsTimely(t: Tables, rq: CancelRequest, now: int)
    requires Timely(t.locks, now)
    ensures Timely(CommitCancel(t, rq, now).0.locks, now)
  {
    var (t', out) := CommitCancel(t, rq, now);
    CommitShape(t, rq, now, t', out);
    if out.Committed? {
      UnbookKeepsTimely(t.locks, rq.bookingId, Wanted(t.seats[rq.bookingId], rq.seatIds), now);
    }
  }

  lemma StepKeepsTimely(fleet: Fleet, t: Tables, a: Action, now: int)
    requires LocksOk(t.locks) && Timely(t.locks, now)
    ensures Timely(Step(fleet, t, a, now).0.locks, now)
  {
    match a
    case Look(deps) => SweepKeepsTimely(t.locks, Only(deps), now, now);
    case Select(acq) => SelectKeepsTimely(fleet, t, acq, now);
    case ConfirmOrder(rq) =>
      if rq.dep in fleet {
        ConfirmKeepsTimely(t, rq.(coach := fleet[rq.dep]), now);
      }
    case AskRefund(_) =>
    case CommitRefund(rq) => CommitKeepsTimely(t, rq, now);
    case AskHold(_) =>
    case Retain(_) =>
  }

  /** With nondecreasing instants the table stays in time order, and older holds of a buyer have lapsed. */
  lemma {:induction false} RunKeepsTimely(fleet: Fleet, t: Tables, trace: seq<Event>, clock: int)
    requires Inv(t) && Timely(t.locks, clock) && InOrder(trace, clock)
    ensures Timely(Run(fleet, t, trace).0.locks, LastInstant(trace, clock))
    decreases |trace|
  {
    if trace != [] {
      var now := trace[0].at;
      ClockAdvances(t.locks, clock, now);
      StepKeepsInv(fleet, t, trace[0].action, now);
      StepKeepsTimely(fleet, t, trace[0].action, now);
      RunKeepsTimely(fleet, Step(fleet, t, trace[0].action, now).0, trace[1..], now);
    }
  }

  lemma ReachableTimely(fleet: Fleet, trace: seq<Event>, clock: int, now: int)
    requires InOrder(trace, clock) && LastInstant(trace, clock) <= now
    ensures var t := Run(fleet, EMPTY, trace).0; Inv(t) && Timely(t.locks, now)
  {
    EmptyIsOk();
    ReachableInv(fleet, trace);
    RunKeepsTimely(fleet, EMPTY, trace, clock);
    ClockAdvances(Run(fleet, EMPTY, trace).0.locks, LastInstant(trace, clock), now);
  }

  /* ---- what the invariant says about reachable states ---- */

  /** No seat is sold twice: at most one live lock per departure and seat. */
  lemma NoSeatSoldTwice(fleet: Fleet, trace: seq<Event>, i: nat, j: nat)
    requires var locks := Run(fleet, EMPTY, trace).0.locks;
      i < |locks| && j < |locks| && Live(locks[i]) && Live(locks[j]) && locks[i].dep == locks[j].dep && locks[i].seatId == locks[j].seatId
    ensures i == j
  {
    ReachableInv(fleet, trace);
  }

  predicate LockedFor(r: LockRow, b: string, s: SeatId) {
    r.state.BOOKED? && r.bookingId == Some(b) && r.seatId == s
  }

  /**
   * A BOOKED lock exists for a booking and a seat exactly when that booking seat is CONFIRMED; a
   * booking is CANCELLED exactly when none of its seats is CONFIRMED; its refund is their sum.
   */
  lemma BookedExactlyWhenConfirmed(fleet: Fleet, trace: seq<Event>, b: string, s: SeatId)
    requires b in Run(fleet, EMPTY, trace).0.bookings
    ensures b in Run(fleet, EMPTY, trace).0.seats
    ensures var t := Run(fleet, EMPTY, trace).0; var rows := t.seats[b];
      && ((exists i | 0 <= i < |t.locks| :: LockedFor(t.locks[i], b, s))
          <==> (exists k | 0 <= k < |rows| :: rows[k].seatId == s && rows[k].status.CONFIRMED?))
      && (t.bookings[b].status.CANCELLED? <==> forall k | 0 <= k < |rows| :: rows[k].status.CANCELLED?)
      && t.bookings[b].refund.GetOr(0) == SumRefund(rows)
  {
    ReachableInv(fleet, trace);
    var t := Run(fleet, EMPTY, trace).0;
    var rows := t.seats[b];
    assert BookingOk(t.bookings[b], rows) && BookedSeats(t.locks, b) == ConfirmedSeats(rows);
    NoneConfirmed(rows);
    BookedMember(t.locks, b, s);
    ConfirmedMember(rows, s);
  }

  lemma BookedMember(locks: seq<LockRow>, b: string, s: SeatId)
    ensures s in BookedSeats(locks, b) <==> exists i | 0 <= i < |locks| :: LockedFor(locks[i], b, s)
  {
    if s in BookedSeats(locks, b) {
      var i :| 0 <= i < |locks| && locks[i].state.BOOKED? && locks[i].bookingId == Some(b) && locks[i].seatId == s;
      assert LockedFor(locks[i], b, s);
    }
  }

  lemma ConfirmedMember(rows: seq<SeatRow>, s: SeatId)
    ensures s in ConfirmedSeats(rows) <==> exists k | 0 <= k < |rows| :: rows[k].seatId == s && rows[k].status.CONFIRMED?
  {
  }

  lemma {:induction false} NoneConfirmed(rows: seq<SeatRow>)
    ensures CountConfirmed(rows) == 0 <==> forall k | 0 <= k < |rows| :: rows[k].status.CANCELLED?
  {
    if rows != [] {
      NoneConfirmed(rows[1..]);
      assert forall k | 1 <= k < |rows| :: rows[k] == rows[1..][k - 1];
      assert forall k | 0 <= k < |rows[1..]| :: rows[1..][k] == rows[k + 1];
    }
  }

  /** All HELD with one expiry, all EXPIRED, all RELEASED unbooked, or all under one booking. */
  predicate OneFate(a: LockRow, b: LockRow) {
    || (a.state.HELD? && b.state.HELD? && a.expiresAt == b.expiresAt && a.expiresAt.Some?)
    || (a.state.EXPIRED? && b.state.EXPIRED?)
    || (a.state.RELEASED? && b.state.RELEASED? && a.bookingId.None? && b.bookingId.None?)
    || (a.bookingId.Some? && a.bookingId == b.bookingId
        && (a.state.BOOKED? || a.state.RELEASED?) && (b.state.BOOKED? || b.state.RELEASED?))
  }

  lemma CoherentRowsShareFate(locks: seq<LockRow>, i: nat, j: nat)
    requires HoldsCoherent(locks) && i < |locks| && j < |locks| && locks[i].holdId == locks[j].holdId
    ensures OneFate(locks[i], locks[j])
  {
    assert RowOk(locks[i]) && RowOk(locks[j]);
    assert i < j ==> Coherent(locks[i], locks[j]);
    assert j < i ==> Coherent(locks[j], locks[i]);
  }

  /** The rows of one hold share one fate, so reading the state off one row decides for all. */
  lemma HoldsShareOneFate(fleet: Fleet, trace: seq<Event>, i: nat, j: nat)
    requires var locks := Run(fleet, EMPTY, trace).0.locks; i < |locks| && j < |locks| && locks[i].holdId == locks[j].holdId
    ensures var locks := Run(fleet, EMPTY, trace).0.locks; OneFate(locks[i], locks[j])
  {
    ReachableInv(fleet, trace);
    CoherentRowsShareFate(Run(fleet, EMPTY, trace).0.locks, i, j);
  }

  /** With nondecreasing instants a buyer never has two live holds. */
  lemma NeverTwoLiveHolds(fleet: Fleet, trace: seq<Event>, clock: int, now: int, i: nat, j: nat)
    requires InOrder(trace, clock) && LastInstant(trace, clock) <= now
    requires var locks := Run(fleet, EMPTY, trace).0.locks;
      && i < |locks| && j < |locks| && locks[i].buyer == locks[j].buyer
      && locks[i].state.HELD? && !Lapsed(locks[i], now) && locks[j].state.HELD? && !Lapsed(locks[j], now)
    ensures var locks := Run(fleet, EMPTY, trace).0.locks; locks[i].holdId == locks[j].holdId
  {
    ReachableTimely(fleet, trace, clock, now);
    var t := Run(fleet, EMPTY, trace).0;
    OneLiveHoldPerBuyer(t.locks, now, i, j);
  }

  /* ---- what no run changes ---- */

  predicate Moves(from: LockState, to: LockState) {
    from == to || from.HELD? || (from.BOOKED? && to.RELEASED?)
  }

  predicate LockEvolves(r: LockRow, r': LockRow) {
    && r'.dep == r.dep && r'.seatId == r.seatId && r'.holdId == r.holdId && r'.buyer == r.buyer && r'.createdAt == r.createdAt
    && Moves(r.state, r'.state)
    && (r.bookingId.Some? ==> r'.bookingId == r.bookingId)
    && (r'.expiresAt == r.expiresAt || r'.expiresAt.None?)
  }

  /** A cancelled seat is final and a confirmed one keeps its fare; who sat in it may be forgotten, never changed. */
  predicate SeatEvolves(r: SeatRow, r': SeatRow) {
    && r'.seatId == r.seatId && r'.fare == r.fare && (r'.gender == r.gender || r'.gender.None?)
    && (r.status.CANCELLED? ==> r' == r.(gender := r'.gender))
  }

  predicate BookingEvolves(bk: Booking, bk': Booking) {
    && bk'.buyer == bk.buyer && bk'.dep == bk.dep && bk'.departureAt == bk.departureAt && bk'.total == bk.total
    && bk'.createdAt == bk.createdAt && bk'.settlement == bk.settlement
    && (bk.status.CANCELLED? ==> bk'.status.CANCELLED? && bk'.refund.GetOr(0) == bk.refund.GetOr(0))
  }

  predicate LocksEvolve(a: seq<LockRow>, b: seq<LockRow>) {
    |a| <= |b| && forall i | 0 <= i < |a| :: LockEvolves(a[i], b[i])
  }

  predicate SeatsEvolve(a: seq<SeatRow>, b: seq<SeatRow>) {
    |a| == |b| && forall k | 0 <= k < |a| :: SeatEvolves(a[k], b[k])
  }

  predicate Evolves(t: Tables, u: Tables) {
    && LocksEvolve(t.locks, u.locks)
    && t.sold <= u.sold
    && (forall b | b in t.bookings :: b in u.bookings && BookingEvolves(t.bookings[b], u.bookings[b]))
    && (forall b | b in t.seats :: b in u.seats && SeatsEvolve(t.seats[b], u.seats[b]))
    && (forall q | q in t.quotes :: q in u.quotes && u.quotes[q] == t.quotes[q])
  }

  lemma EvolvesTransitive(t: Tables, u: Tables, v: Tables)
    requires Evolves(t, u) && Evolves(u, v)
    ensures Evolves(t, v)
  {
    forall b | b in t.seats ensures b in v.seats && SeatsEvolve(t.seats[b], v.seats[b]) {
      assert SeatsEvolve(t.seats[b], u.seats[b]) && SeatsEvolve(u.seats[b], v.seats[b]);
    }
    forall b | b in t.bookings ensures b in v.bookings && BookingEvolves(t.bookings[b], v.bookings[b]) {
      assert BookingEvolves(t.bookings[b], u.bookings[b]) && BookingEvolves(u.bookings[b], v.bookings[b]);
    }
    forall i | 0 <= i < |t.locks| ensures LockEvolves(t.locks[i], v.locks[i]) {
      assert LockEvolves(t.locks[i], u.locks[i]) && LockEvolves(u.locks[i], v.locks[i]);
    }
  }

  lemma LocksOnlyEvolve(t: Tables, locks: seq<LockRow>)
    requires LocksEvolve(t.locks, locks)
    ensures Evolves(t, t.(locks := locks))
  {
  }

  lemma AcquireEvolves(locks: seq<LockRow>, rq: AcquireRequest, now: int)
    ensures LocksEvolve(locks, Acquire(locks, rq, now).0)
  {
    var freed := Freed(locks, rq, now);
    var after := Acquire(locks, rq, now).0;
    assert LocksEvolve(locks, Swept(locks, rq, now));
    assert LocksEvolve(locks, freed) && |freed| == |locks|;
    assert after == locks || after == Swept(locks, rq, now) || after == freed + NewRows(rq, SortedDistinct(rq.seatIds), now);
    assert LocksEvolve(locks, freed + NewRows(rq, SortedDistinct(rq.seatIds), now)) by {
      forall i | 0 <= i < |locks| ensures LockEvolves(locks[i], (freed + NewRows(rq, SortedDistinct(rq.seatIds), now))[i]) {
        assert LockEvolves(locks[i], freed[i]);
      }
    }
  }

  lemma WithBookingEvolves(t: Tables, holdId: string, rq: ConfirmRequest, now: int)
    requires KeysOk(t) && HoldsCoherent(t.locks) && rq.newBookingId !in t.bookings
    ensures Evolves(t, WithBooking(t, holdId, rq, now))
  {
    var u := WithBooking(t, holdId, rq, now);
    forall i | 0 <= i < |t.locks| ensures LockEvolves(t.locks[i], u.locks[i]) {
      assert RowOk(t.locks[i]);
    }
  }

  lemma RollUpEvolves(bk: Booking, rows: seq<SeatRow>, ids: seq<SeatId>, slab: SlabCode, refunds: map<SeatId, int>, now: int)
    requires BookingOk(bk, rows)
    ensures var after := CancelRows(rows, ids, slab, refunds, now);
      SeatsEvolve(rows, after) && BookingEvolves(bk, RollUp(bk, after, slab, now))
  {
    var after := CancelRows(rows, ids, slab, refunds, now);
    if bk.status.CANCELLED? {
      NoneConfirmed(rows);
      assert after == rows;
    }
  }

  /**
   * Any cancellation at all, repeated or overlapping, with any seats and any figures: seats
   * already cancelled keep what they stored.
   */
  lemma ApplyCancellationEvolves(t: Tables, b: string, ids: seq<SeatId>, slab: SlabCode, refunds: map<SeatId, int>, now: int)
    requires KeysOk(t) && BookingsOk(t)
    ensures Evolves(t, ApplyCancellation(t, b, ids, slab, refunds, now))
  {
    var locks := Unbook(t.locks, b, ids);
    assert LocksEvolve(t.locks, locks);
    if b in t.bookings {
      assert BookingOk(t.bookings[b], t.seats[b]);
      RollUpEvolves(t.bookings[b], t.seats[b], ids, slab, refunds, now);
      var rows := CancelRows(t.seats[b], ids, slab, refunds, now);
      OneBookingEvolves(t, locks, b, RollUp(t.bookings[b], rows, slab, now), rows);
    } else {
      LocksOnlyEvolve(t, locks);
    }
  }

  lemma OneBookingEvolves(t: Tables, locks: seq<LockRow>, b: string, bk: Booking, rows: seq<SeatRow>)
    requires LocksEvolve(t.locks, locks) && b in t.bookings && b in t.seats
    requires BookingEvolves(t.bookings[b], bk) && SeatsEvolve(t.seats[b], rows)
    ensures Evolves(t, t.(locks := locks, seats := t.seats[b := rows], bookings := t.bookings[b := bk]))
  {
  }

  lemma SelectEvolves(fleet: Fleet, t: Tables, acq: AcquireRequest, now: int)
    ensures Evolves(t, SelectSeats(fleet, t, acq, now).0)
  {
    var swept := SweepTables(t, Only({acq.dep}), now);
    var locks := Acquire(swept.locks, acq, now).0;
    LocksOnlyEvolve(t, t.locks);
    LocksOnlyEvolve(t, swept.locks);
    AcquireEvolves(swept.locks, acq, now);
    LocksOnlyEvolve(swept, locks);
    EvolvesTransitive(t, swept, swept.(locks := locks));
    var after := SelectSeats(fleet, t, acq, now).0;
    assert after == t || after == swept || after == swept.(locks := locks);
  }

  lemma ConfirmEvolves(t: Tables, rq: ConfirmRequest, now: int)
    requires Inv(t)
    ensures Evolves(t, Confirm(t, rq, now).0)
  {
    var swept := SweepTables(t, Only({rq.dep}), now);
    LocksOnlyEvolve(t, t.locks);
    LocksOnlyEvolve(t, swept.locks);
    SweepKeepsInv(t, Only({rq.dep}), now);
    var after := Confirm(t, rq, now).0;
    ConfirmResult(t, rq, now);
    if after != t && after != swept {
      var h := CheckHold(swept, rq, now).hold.holdId;
      WithBookingEvolves(swept, h, rq, now);
      EvolvesTransitive(t, swept, after);
    }
  }

  lemma ConfirmResult(t: Tables, rq: ConfirmRequest, now: int)
    ensures var after, swept := Confirm(t, rq, now).0, SweepTables(t, Only({rq.dep}), now);
      || after == t
      || after == swept
      || (CheckHold(swept, rq, now).Passes? && rq.newBookingId !in swept.bookings
          && after == WithBooking(swept, CheckHold(swept, rq, now).hold.holdId, rq, now))
  {
  }

  lemma QuoteEvolves(t: Tables, id: string, q: Quote)
    requires id !in t.quotes
    ensures Evolves(t, t.(quotes := t.quotes[id := q]))
  {
  }

  lemma SoftCancelEvolves(t: Tables, rq: CancelRequest, now: int)
    ensures Evolves(t, SoftCancel(t, rq, now).0)
  {
    LocksOnlyEvolve(t, t.locks);
    var (soft, quoted) := SoftCancel(t, rq, now);
    if quoted.Quoted? {
      QuoteEvolves(t, rq.newQuoteId, quoted.quote);
    }
  }

  lemma CommitCancelEvolves(t: Tables, rq: CancelRequest, now: int)
    requires KeysOk(t) && BookingsOk(t)
    ensures Evolves(t, CommitCancel(t, rq, now).0)
  {
    var (t', out) := CommitCancel(t, rq, now);
    CommitShape(t, rq, now, t', out);
    CommitsToEvolves(t, rq, now, t', out);
  }

  lemma CommitsToEvolves(t: Tables, rq: CancelRequest, now: int, t': Tables, out: CancelOutcome)
    requires KeysOk(t) && BookingsOk(t) && CommitsTo(t, rq, now, t', out)
    ensures Evolves(t, t')
  {
    if out.Committed? {
      var rows := t.seats[rq.bookingId];
      ApplyCancellationEvolves(t, rq.bookingId, Wanted(rows, rq.seatIds), out.slab,
                               PerSeat(Targets(rows, rq.seatIds), Percent(out.slab)), now);
    } else if out.SlabMoved? {
      QuoteEvolves(t, rq.newQuoteId, out.replacement);
    } else {
      LocksOnlyEvolve(t, t.locks);
    }
  }

  lemma ConfirmOrderEvolves(fleet: Fleet, t: Tables, rq: ConfirmRequest, now: int)
    requires Inv(t)
    ensures Evolves(t, Step(fleet, t, ConfirmOrder(rq), now).0)
  {
    if rq.dep in fleet {
      ConfirmEvolves(t, rq.(coach := fleet[rq.dep]), now);
    } else {
      LocksOnlyEvolve(t, t.locks);
    }
  }

  lemma LookEvolves(fleet: Fleet, t: Tables, deps: set<Departure>, now: int)
    ensures Evolves(t, Step(fleet, t, Look(deps), now).0)
  {
    LocksOnlyEvolve(t, Sweep(t.locks, Only(deps), now));
  }

  lemma StepEvolves(fleet: Fleet, t: Tables, a: Action, now: int)
    requires Inv(t)
    ensures Evolves(t, Step(fleet, t, a, now).0)
  {
    match a
    case Look(deps) => LookEvolves(fleet, t, deps, now);
    case Select(acq) => SelectEvolves(fleet, t, acq, now);
    case ConfirmOrder(rq) => ConfirmOrderEvolves(fleet, t, rq, now);
    case AskRefund(rq) => SoftCancelEvolves(t, rq, now);
    case CommitRefund(rq) => CommitCancelEvolves(t, rq, now);
    case AskHold(_) => LocksOnlyEvolve(t, t.locks);
    case Retain(_) =>
      RetainForgets(fleet, t, a, now);
      ForgettingEvolves(t, Step(fleet, t, a, now).0);
  }

  lemma ForgettingEvolves(t: Tables, u: Tables)
    requires ForgottenTo(t, u)
    ensures Evolves(t, u)
  {
    assert LocksEvolve(t.locks, u.locks);
    forall b | b in t.seats ensures b in u.seats && SeatsEvolve(t.seats[b], u.seats[b]) {
    }
  }

  /**
   * Over any run: lock rows only ever move HELD to EXPIRED, RELEASED or BOOKED and BOOKED to
   * RELEASED, a seat's stored refund and slab never change once written, and a cancelled
   * booking's refund stands.
   */
  lemma {:induction false} RunEvolves(fleet: Fleet, t: Tables, trace: seq<Event>)
    requires Inv(t)
    ensures Evolves(t, Run(fleet, t, trace).0)
    decreases |trace|
  {
    if trace != [] {
      var now := trace[0].at;
      StepKeepsInv(fleet, t, trace[0].action, now);
      StepEvolves(fleet, t, trace[0].action, now);
      var t' := Step(fleet, t, trace[0].action, now).0;
      RunEvolves(fleet, t', trace[1..]);
      EvolvesTransitive(t, t', Run(fleet, t', trace[1..]).0);
    }
  }
}
