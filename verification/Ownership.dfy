/**
 * Whose requests can touch a booking (`src/reserved/order.ts`, `src/reserved/store.ts`): one buyer app
 * must not be able to read or cancel another's, and every booking is some rider's confirmed order.
 */
module Ownership {
  import opened Basics
  import opened Locks
  import opened Refund
  import opened Store
  import opened StoreInvariant
  import opened Cancellation
  import opened Actions
  import opened Reachable
  import opened Outcomes
  import opened Ledger

  /** The same operator and buyer app, in whatever transaction. */
  predicate SameApp(a: Buyer, b: Buyer) {
    a.operator == b.operator && a.identity.bapId == b.identity.bapId && a.identity.bapUri == b.identity.bapUri
  }

  /** To a stranger a booking does not exist: both cancels answer so and change nothing. */
  lemma StrangerIsRefused(t: Tables, rq: CancelRequest, now: int)
    requires rq.bookingId in t.bookings && !SameApp(rq.buyer, t.bookings[rq.bookingId].buyer)
    ensures SoftCancel(t, rq, now) == (t, BookingNotFound) && CommitCancel(t, rq, now) == (t, BookingNotFound)
  {
    SoftCancelExactly(t, rq, now);
    CommitExactly(t, rq, now);
  }

  /* ---- one step ---- */

  /** A committed refund of this booking, asked for by its own buyer app, that names this seat or all seats. */
  predicate OwnersCommit(a: Action, bk: Booking, b: string, s: SeatId) {
    && a.CommitRefund? && a.cancel.bookingId == b && SameApp(a.cancel.buyer, bk.buyer)
    && (a.cancel.seatIds == [] || s in a.cancel.seatIds)
  }

  predicate Cancels(t: Tables, u: Tables, b: string, k: nat) {
    && b in t.seats && b in u.seats && k < |t.seats[b]| && k < |u.seats[b]|
    && t.seats[b][k].status.CONFIRMED? && u.seats[b][k].status.CANCELLED?
  }

  /** Confirmed rows stay confirmed in every other booking, and in this one outside the cancelled ids. */
  lemma CancellationTouches(t: Tables, c: string, ids: seq<SeatId>, slab: SlabCode, refunds: map<SeatId, int>, now: int, b: string, k: nat)
    requires Cancels(t, ApplyCancellation(t, c, ids, slab, refunds, now), b, k)
    ensures b == c && t.seats[b][k].seatId in ids
  {
  }

  lemma CommitCancels(t: Tables, rq: CancelRequest, now: int, b: string, k: nat)
    requires KeysOk(t) && BookingsOk(t) && b in t.bookings && Cancels(t, CommitCancel(t, rq, now).0, b, k)
    ensures OwnersCommit(CommitRefund(rq), t.bookings[b], b, t.seats[b][k].seatId)
  {
    CommitExactly(t, rq, now);
    var (u, out) := CommitCancel(t, rq, now);
    if out.Committed? {
      var rows := t.seats[rq.bookingId];
      CancellationTouches(t, rq.bookingId, Wanted(rows, rq.seatIds), out.slab, PerSeat(Targets(rows, rq.seatIds), Percent(out.slab)), now, b, k);
      assert BookingOk(t.bookings[b], t.seats[b]);
      WantedRow(t.seats[b], rq.seatIds, k);
    }
  }

  /** No row of any booking there was changes its status. */
  predicate SameStatuses(t: Tables, u: Tables) {
    forall b | b in t.bookings && b in t.seats ::
      b in u.seats && |u.seats[b]| == |t.seats[b]| && forall k | 0 <= k < |t.seats[b]| :: u.seats[b][k].status == t.seats[b][k].status
  }

  lemma SelectLeaves(fleet: Fleet, t: Tables, acq: AcquireRequest, now: int)
    ensures var u := SelectSeats(fleet, t, acq, now).0; u == t.(locks := u.locks)
  {
  }

  lemma ConfirmLeaves(t: Tables, rq: ConfirmRequest, now: int)
    ensures var u := Confirm(t, rq, now).0; SameStatuses(t, u) && u.quotes == t.quotes
  {
    ConfirmResult(t, rq, now);
  }

  lemma ForgettingLeaves(t: Tables, u: Tables)
    requires ForgottenTo(t, u)
    ensures SameStatuses(t, u) && u.quotes == t.quotes
  {
    forall b | b in t.seats ensures |u.seats[b]| == |t.seats[b]| && forall k | 0 <= k < |t.seats[b]| :: u.seats[b][k].status == t.seats[b][k].status {
    }
  }

  /** Any action but the two cancels leaves statuses and quotes alone; a soft cancel leaves statuses alone. */
  lemma OthersLeave(fleet: Fleet, t: Tables, a: Action, now: int)
    requires !a.CommitRefund?
    ensures SameStatuses(t, Step(fleet, t, a, now).0)
    ensures !a.AskRefund? ==> Step(fleet, t, a, now).0.quotes == t.quotes
  {
    match a
    case Look(_) =>
    case Select(acq) => SelectLeaves(fleet, t, acq, now);
    case ConfirmOrder(rq) =>
      if rq.dep in fleet {
        ConfirmLeaves(t, rq.(coach := fleet[rq.dep]), now);
      }
    case AskRefund(rq) => SoftCancelExactly(t, rq, now);
    case AskHold(_) =>
    case Retain(_) =>
      RetainForgets(fleet, t, a, now);
      ForgettingLeaves(t, Step(fleet, t, a, now).0);
  }

  /** Unchanged statuses cancel nothing. */
  lemma NothingCancelled(t: Tables, u: Tables, b: string, k: nat)
    requires b in t.bookings && SameStatuses(t, u)
    ensures !Cancels(t, u, b, k)
  {
  }

  lemma StepCommits(fleet: Fleet, t: Tables, a: Action, now: int)
    requires a.CommitRefund?
    ensures Step(fleet, t, a, now).0 == CommitCancel(t, a.cancel, now).0
  {
  }

  lemma CommitsForOwner(t: Tables, u: Tables, a: Action, now: int, b: string, k: nat)
    requires KeysOk(t) && BookingsOk(t) && b in t.bookings && Cancels(t, u, b, k)
    requires a.CommitRefund? && u == CommitCancel(t, a.cancel, now).0
    ensures OwnersCommit(a, t.bookings[b], b, t.seats[b][k].seatId)
  {
    CommitCancels(t, a.cancel, now, b, k);
  }

  /** A step cancels a seat only at the request of the booking's own buyer app. */
  lemma StepCancelsForOwner(fleet: Fleet, t: Tables, a: Action, now: int, b: string, k: nat, u: Tables)
    requires KeysOk(t) && BookingsOk(t) && b in t.bookings && u == Step(fleet, t, a, now).0 && Cancels(t, u, b, k)
    ensures OwnersCommit(a, t.bookings[b], b, t.seats[b][k].seatId)
  {
    if a.CommitRefund? {
      StepCommits(fleet, t, a, now);
      CommitsForOwner(t, u, a, now, b, k);
    } else {
      OthersLeave(fleet, t, a, now);
      NothingCancelled(t, u, b, k);
    }
  }

  lemma SoftCancelQuotes(t: Tables, rq: CancelRequest, now: int, q: string)
    requires q in SoftCancel(t, rq, now).0.quotes && q !in t.quotes
    ensures OwnedBy(t, rq) && SoftCancel(t, rq, now).0.quotes[q].bookingId == rq.bookingId
  {
    SoftCancelExactly(t, rq, now);
  }

  lemma CommitQuotes(t: Tables, rq: CancelRequest, now: int, q: string)
    requires q in CommitCancel(t, rq, now).0.quotes && q !in t.quotes
    ensures OwnedBy(t, rq) && CommitCancel(t, rq, now).0.quotes[q].bookingId == rq.bookingId
  {
    CommitExactly(t, rq, now);
  }

  /** And a quote appears only for a booking of the asking buyer app. */
  lemma StepQuotesForOwner(fleet: Fleet, t: Tables, a: Action, now: int, q: string)
    requires q in Step(fleet, t, a, now).0.quotes && q !in t.quotes
    ensures a.AskRefund? || a.CommitRefund?
    ensures OwnedBy(t, a.cancel) && Step(fleet, t, a, now).0.quotes[q].bookingId == a.cancel.bookingId
  {
    if a.AskRefund? {
      SoftCancelQuotes(t, a.cancel, now, q);
    } else if a.CommitRefund? {
      CommitQuotes(t, a.cancel, now, q);
    } else {
      OthersLeave(fleet, t, a, now);
    }
  }

  /* ---- every run ---- */

  ghost predicate OwnerCommits(trace: seq<Event>, bk: Booking, b: string, s: SeatId) {
    exists i | 0 <= i < |trace| :: OwnersCommit(trace[i].action, bk, b, s)
  }

  lemma LaterCommit(trace: seq<Event>, later: Booking, bk: Booking, b: string, s: SeatId)
    requires trace != [] && later.buyer == bk.buyer && OwnerCommits(trace[1..], later, b, s)
    ensures OwnerCommits(trace, bk, b, s)
  {
    var i :| 0 <= i < |trace[1..]| && OwnersCommit(trace[1..][i].action, later, b, s);
    assert trace[i + 1] == trace[1..][i];
  }

  /**
   * Over every run: a seat of a booking is cancelled only if the run contains a committed refund of that
   * booking, for that seat or for all, from the operator and buyer app it was sold to.
   */
  lemma {:induction false} OnlyTheOwnerCancels(fleet: Fleet, t: Tables, trace: seq<Event>, b: string, k: nat)
    requires Inv(t) && b in t.bookings && Cancels(t, Run(fleet, t, trace).0, b, k)
    ensures OwnerCommits(trace, t.bookings[b], b, t.seats[b][k].seatId)
    decreases |trace|
  {
    var now, a := trace[0].at, trace[0].action;
    var u := Step(fleet, t, a, now).0;
    StepKeepsInv(fleet, t, a, now);
    StepEvolves(fleet, t, a, now);
    assert BookingEvolves(t.bookings[b], u.bookings[b]) && SeatsEvolve(t.seats[b], u.seats[b]);
    assert SeatEvolves(t.seats[b][k], u.seats[b][k]);
    if u.seats[b][k].status.CANCELLED? {
      StepCancelsForOwner(fleet, t, a, now, b, k, u);
    } else {
      OnlyTheOwnerCancels(fleet, u, trace[1..], b, k);
      LaterCommit(trace, u.bookings[b], t.bookings[b], b, t.seats[b][k].seatId);
    }
  }

  /* ---- where bookings come from ---- */

  /** The confirmed order a booking is the record of. */
  predicate RecordOf(bk: Booking, b: string, e: Event) {
    && e.action.ConfirmOrder? && e.action.order.newBookingId == b && bk.createdAt == e.at
    && bk.buyer == e.action.order.buyer && bk.dep == e.action.order.dep
    && bk.departureAt == e.action.order.departureAt && bk.settlement == e.action.order.settlement
  }

  lemma ConfirmRecords(t: Tables, rq: ConfirmRequest, now: int, b: string)
    requires KeysOk(t) && b in Confirm(t, rq, now).0.bookings && b !in t.bookings
    ensures b == rq.newBookingId && Confirm(t, rq, now).1.Booked?
  {
    ConfirmResult(t, rq, now);
  }

  lemma ConfirmStepRecords(fleet: Fleet, t: Tables, rq: ConfirmRequest, now: int, b: string)
    requires Inv(t) && rq.dep in fleet
    requires var u := Confirm(t, rq.(coach := fleet[rq.dep]), now).0; b in u.bookings && b !in t.bookings
    ensures RecordOf(Confirm(t, rq.(coach := fleet[rq.dep]), now).0.bookings[b], b, Event(now, ConfirmOrder(rq)))
  {
    var order := rq.(coach := fleet[rq.dep]);
    ConfirmRecords(t, order, now, b);
    BookedColumns(t, order, now);
  }

  /** No action but a confirm adds a booking. */
  lemma OthersBookNothing(fleet: Fleet, t: Tables, a: Action, now: int, b: string)
    requires !a.ConfirmOrder? && b !in t.bookings
    ensures b !in Step(fleet, t, a, now).0.bookings
  {
    match a
    case Look(_) =>
    case Select(acq) => SelectLeaves(fleet, t, acq, now);
    case AskRefund(rq) => SoftCancelExactly(t, rq, now);
    case CommitRefund(rq) => CommitExactly(t, rq, now);
    case AskHold(_) =>
    case Retain(_) =>
  }

  lemma StepConfirms(fleet: Fleet, t: Tables, rq: ConfirmRequest, now: int)
    ensures Step(fleet, t, ConfirmOrder(rq), now).0 == if rq.dep in fleet then Confirm(t, rq.(coach := fleet[rq.dep]), now).0 else t
  {
  }

  lemma StepRecords(fleet: Fleet, t: Tables, a: Action, now: int, b: string)
    requires Inv(t) && b in Step(fleet, t, a, now).0.bookings && b !in t.bookings
    ensures RecordOf(Step(fleet, t, a, now).0.bookings[b], b, Event(now, a))
  {
    if a.ConfirmOrder? {
      StepConfirms(fleet, t, a.order, now);
      ConfirmStepRecords(fleet, t, a.order, now, b);
    } else {
      OthersBookNothing(fleet, t, a, now, b);
    }
  }

  /** Every booking a run adds is the record of an order confirmed in it, settlement included. */
  lemma {:induction false} EveryBookingWasConfirmed(fleet: Fleet, t: Tables, trace: seq<Event>, b: string)
    requires Inv(t) && b in Run(fleet, t, trace).0.bookings && b !in t.bookings
    ensures exists i | 0 <= i < |trace| :: RecordOf(Run(fleet, t, trace).0.bookings[b], b, trace[i])
    decreases |trace|
  {
    var now, a := trace[0].at, trace[0].action;
    var u, end := Step(fleet, t, a, now).0, Run(fleet, t, trace).0;
    StepKeepsInv(fleet, t, a, now);
    if b in u.bookings {
      StepRecords(fleet, t, a, now, b);
      RunEvolves(fleet, u, trace[1..]);
      assert BookingEvolves(u.bookings[b], end.bookings[b]);
      assert RecordOf(end.bookings[b], b, trace[0]);
    } else {
      EveryBookingWasConfirmed(fleet, u, trace[1..], b);
      var i :| 0 <= i < |trace[1..]| && RecordOf(end.bookings[b], b, trace[1..][i]);
      assert trace[i + 1] == trace[1..][i];
    }
  }

  /* ---- the backlog ---- */

  /** The orders of a departure that were confirmed without a corporation. */
  function Backlog(t: Tables, sold: seq<string>, dep: Departure): set<string> {
    set b | b in sold && Unattributed(t, b, dep)
  }

  lemma BacklogStep(t: Tables, sold: seq<string>, dep: Departure)
    requires Distinct(sold) && sold != []
    ensures var n := |sold| - 1;
      Backlog(t, sold, dep) == Backlog(t, sold[..n], dep) + (if Unattributed(t, sold[n], dep) then {sold[n]} else {})
      && sold[n] !in Backlog(t, sold[..n], dep)
  {
    var n := |sold| - 1;
    forall b ensures b in sold <==> b in sold[..n] || b == sold[n] {
    }
  }

  /** A group counts them, each once. */
  lemma {:induction false} GroupCounts(t: Tables, sold: seq<string>, dep: Departure)
    requires Distinct(sold)
    ensures GroupOf(t, sold, dep).bookings == |Backlog(t, sold, dep)|
  {
    if sold != [] {
      GroupCounts(t, sold[..|sold| - 1], dep);
      BacklogStep(t, sold, dep);
    }
  }

  /**
   * In every reachable state the backlog of a departure is exactly the orders confirmed for it without a
   * corporation, and its group counts them.
   */
  lemma BacklogExactly(fleet: Fleet, trace: seq<Event>, dep: Departure, b: string)
    ensures var t := Run(fleet, EMPTY, trace).0;
      && GroupOf(t, t.sold, dep).bookings == |Backlog(t, t.sold, dep)|
      && (b in Backlog(t, t.sold, dep) <==> b in t.bookings && t.bookings[b].dep == dep && t.bookings[b].settlement.None?)
      && (b in Backlog(t, t.sold, dep) ==> exists i | 0 <= i < |trace| ::
            RecordOf(t.bookings[b], b, trace[i]) && trace[i].action.order.dep == dep && trace[i].action.order.settlement.None?)
  {
    var t := Run(fleet, EMPTY, trace).0;
    ReachableInv(fleet, trace);
    GroupCounts(t, t.sold, dep);
    if b in t.bookings {
      EmptyIsOk();
      EveryBookingWasConfirmed(fleet, EMPTY, trace, b);
      var i :| 0 <= i < |trace| && RecordOf(t.bookings[b], b, trace[i]);
      assert RecordOf(t.bookings[b], b, trace[i]);
    }
  }
}
