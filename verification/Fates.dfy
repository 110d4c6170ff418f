/**
 * Why a lock row is in the state it is in (`src/reserved/store.ts`): every row was inserted by a select,
 * and every move of its state has the one request, or the one expiry, that the state is named after.
 */
module Fates {
  import opened Basics
  import opened Locks
  import opened Refund
  import opened Store
  import opened StoreInvariant
  import opened Cancellation
  import opened Actions
  import opened Reachable

  /* ---- the four moves ---- */

  /** The hold had run out when somebody's transaction swept. */
  predicate RanOut(r: LockRow, r': LockRow, e: Event) {
    r.state.HELD? && Lapsed(r, e.at) && r' == r.(state := EXPIRED)
  }

  /** The buyer selected something else while the hold was running. */
  predicate GivenUp(r: LockRow, r': LockRow, e: Event) {
    && r.state.HELD? && !Lapsed(r, e.at) && r' == r.(state := RELEASED)
    && e.action.Select? && e.action.acq.buyer == r.buyer && e.action.acq.newHoldId != r.holdId
  }

  /** The buyer confirmed the running hold, naming this seat. */
  predicate SoldBy(r: LockRow, r': LockRow, e: Event) {
    && r.state.HELD? && !Lapsed(r, e.at) && e.action.ConfirmOrder?
    && var order := e.action.order;
       && r' == r.(state := BOOKED, bookingId := Some(order.newBookingId), expiresAt := None)
       && order.buyer == r.buyer && order.dep == r.dep && r.seatId in Named(order.manifest)
  }

  /** The booking's seat was cancelled. */
  predicate CancelledBy(r: LockRow, r': LockRow, e: Event) {
    && r.state.BOOKED? && r' == r.(state := RELEASED) && e.action.CommitRefund?
    && var rq := e.action.cancel; r.bookingId == Some(rq.bookingId) && (rq.seatIds == [] || r.seatId in rq.seatIds)
  }

  predicate Moved(r: LockRow, r': LockRow, e: Event) {
    r' == r || RanOut(r, r', e) || GivenUp(r, r', e) || SoldBy(r, r', e) || CancelledBy(r, r', e)
  }

  predicate AllMoved(a: seq<LockRow>, b: seq<LockRow>, e: Event) {
    |a| <= |b| && forall i | 0 <= i < |a| :: Moved(a[i], b[i], e)
  }

  /** The select a row was inserted by. */
  predicate InsertedBy(r: LockRow, e: Event) {
    && e.action.Select? && r.createdAt == e.at
    && var acq := e.action.acq; r.buyer == acq.buyer && r.dep == acq.dep && r.holdId == acq.newHoldId && r.seatId in acq.seatIds
  }

  predicate Fresh(a: seq<LockRow>, b: seq<LockRow>, e: Event) {
    forall i | |a| <= i < |b| :: InsertedBy(b[i], e) && b[i] == NewRow(e.action.acq, b[i].seatId, e.at)
  }

  /* ---- one step ---- */

  lemma SweepMoves(locks: seq<LockRow>, scope: Scope, e: Event)
    ensures AllMoved(locks, Sweep(locks, scope, e.at), e)
  {
  }

  /** What an acquire lets go of is the buyer's own running hold. */
  lemma FreedMoves(locks: seq<LockRow>, acq: AcquireRequest, now: int, i: nat)
    requires HoldsCoherent(locks) && i < |locks|
    ensures var r, r' := locks[i], Freed(locks, acq, now)[i];
      || r' == SweepRow(r, Only({acq.dep}), now)
      || (r.state.HELD? && !Lapsed(r, now) && r.buyer == acq.buyer && r' == r.(state := RELEASED))
  {
    var swept := Swept(locks, acq, now);
    var latest := LatestHold(swept, acq.buyer);
    SweepKeepsCoherent(locks, Only({acq.dep}), now);
    if HasLiveHold(latest, now) && swept[i].holdId == latest.value.holdId {
      var n := NewestRow(swept, acq.buyer).value;
      assert RowOk(swept[n]);
      OneRowDecides(swept, n, i);
    }
  }

  lemma SweepKeepsCoherent(locks: seq<LockRow>, scope: Scope, now: int)
    requires HoldsCoherent(locks)
    ensures HoldsCoherent(Sweep(locks, scope, now))
  {
    var s := Sweep(locks, scope, now);
    forall i, j | 0 <= i < j < |s| ensures Coherent(s[i], s[j]) {
      assert Coherent(locks[i], locks[j]);
    }
  }

  lemma AcquireResult(locks: seq<LockRow>, acq: AcquireRequest, now: int)
    ensures var after := Acquire(locks, acq, now).0;
      || after == locks
      || after == Swept(locks, acq, now)
      || (after == Freed(locks, acq, now) + NewRows(acq, SortedDistinct(acq.seatIds), now) && !HoldIdUsed(Freed(locks, acq, now), acq.newHoldId))
  {
  }

  lemma UnusedId(locks: seq<LockRow>, acq: AcquireRequest, now: int, i: nat)
    requires i < |locks| && !HoldIdUsed(Freed(locks, acq, now), acq.newHoldId)
    ensures locks[i].holdId != acq.newHoldId
  {
    assert Freed(locks, acq, now)[i].holdId == locks[i].holdId;
  }

  lemma AcquireMoves(locks: seq<LockRow>, acq: AcquireRequest, now: int)
    requires HoldsCoherent(locks)
    ensures AllMoved(locks, Acquire(locks, acq, now).0, Event(now, Select(acq)))
    ensures Fresh(locks, Acquire(locks, acq, now).0, Event(now, Select(acq)))
  {
    var e, after := Event(now, Select(acq)), Acquire(locks, acq, now).0;
    AcquireResult(locks, acq, now);
    SweepMoves(locks, Only({acq.dep}), e);
    if after != locks && after != Swept(locks, acq, now) {
      AfterInsert(locks, acq, now);
    }
  }

  lemma AfterInsert(locks: seq<LockRow>, acq: AcquireRequest, now: int)
    requires HoldsCoherent(locks) && !HoldIdUsed(Freed(locks, acq, now), acq.newHoldId)
    ensures var e, after := Event(now, Select(acq)), Freed(locks, acq, now) + NewRows(acq, SortedDistinct(acq.seatIds), now);
      AllMoved(locks, after, e) && Fresh(locks, after, e)
  {
    var seatIds := SortedDistinct(acq.seatIds);
    var e, after := Event(now, Select(acq)), Freed(locks, acq, now) + NewRows(acq, seatIds, now);
    assert |Freed(locks, acq, now)| == |locks|;
    forall i | 0 <= i < |locks| ensures Moved(locks[i], after[i], e) {
      FreedMoves(locks, acq, now, i);
      UnusedId(locks, acq, now, i);
    }
    forall i | |locks| <= i < |after| ensures InsertedBy(after[i], e) && after[i] == NewRow(acq, after[i].seatId, now) {
      assert seatIds[i - |locks|] in seatIds;
      assert after[i] == NewRow(acq, seatIds[i - |locks|], now);
    }
  }

  /** A sweep and then one more move is still one move: what has run out moves no further. */
  lemma SweepThenMoves(a: seq<LockRow>, scope: Scope, c: seq<LockRow>, e: Event)
    requires AllMoved(Sweep(a, scope, e.at), c, e)
    ensures AllMoved(a, c, e)
  {
    var b := Sweep(a, scope, e.at);
    forall i | 0 <= i < |a| ensures Moved(a[i], c[i], e) {
      assert b[i] == SweepRow(a[i], scope, e.at) && Moved(b[i], c[i], e);
    }
  }

  lemma SelectMoves(fleet: Fleet, t: Tables, acq: AcquireRequest, now: int)
    requires HoldsCoherent(t.locks)
    ensures var e, u := Event(now, Select(acq)), SelectSeats(fleet, t, acq, now).0; AllMoved(t.locks, u.locks, e) && Fresh(t.locks, u.locks, e)
  {
    var e, swept := Event(now, Select(acq)), Sweep(t.locks, Only({acq.dep}), now);
    SelectResult(fleet, t, acq, now);
    SweepMoves(t.locks, Only({acq.dep}), e);
    SweepKeepsCoherent(t.locks, Only({acq.dep}), now);
    AcquireMoves(swept, acq, now);
    SweepThenMoves(t.locks, Only({acq.dep}), Acquire(swept, acq, now).0, e);
  }

  lemma BookMoves(t: Tables, rq: ConfirmRequest, now: int)
    requires HoldsCoherent(t.locks) && CheckHold(t, rq, now).Passes?
    ensures AllMoved(t.locks, BookHold(t.locks, CheckHold(t, rq, now).hold.holdId, rq.newBookingId), Event(now, ConfirmOrder(rq)))
  {
    var h := CheckHold(t, rq, now).hold.holdId;
    PassedHoldIsOwn(t, rq, now);
    forall i | 0 <= i < |t.locks| ensures Moved(t.locks[i], BookRow(t.locks[i], h, rq.newBookingId), Event(now, ConfirmOrder(rq))) {
      if t.locks[i].holdId == h {
        assert t.locks[i].seatId in HoldSeats(t.locks, h);
      }
    }
  }

  lemma ConfirmMoves(t: Tables, rq: ConfirmRequest, now: int)
    requires HoldsCoherent(t.locks)
    ensures var u := Confirm(t, rq, now).0; AllMoved(t.locks, u.locks, Event(now, ConfirmOrder(rq))) && |u.locks| == |t.locks|
  {
    var e, swept := Event(now, ConfirmOrder(rq)), SweepTables(t, Only({rq.dep}), now);
    var u := Confirm(t, rq, now).0;
    ConfirmResult(t, rq, now);
    SweepMoves(t.locks, Only({rq.dep}), e);
    SweepKeepsCoherent(t.locks, Only({rq.dep}), now);
    if u != t && u != swept {
      BookMoves(swept, rq, now);
      SweepThenMoves(t.locks, Only({rq.dep}), u.locks, e);
    }
  }

  /** The coach a request carries plays no part in a move. */
  lemma CoachAside(a: seq<LockRow>, b: seq<LockRow>, rq: ConfirmRequest, coach: SeatMap.Coach, now: int)
    requires AllMoved(a, b, Event(now, ConfirmOrder(rq.(coach := coach))))
    ensures AllMoved(a, b, Event(now, ConfirmOrder(rq)))
  {
    forall i | 0 <= i < |a| ensures Moved(a[i], b[i], Event(now, ConfirmOrder(rq))) {
      assert Moved(a[i], b[i], Event(now, ConfirmOrder(rq.(coach := coach))));
    }
  }

  lemma CommitMoves(t: Tables, rq: CancelRequest, now: int)
    ensures var u := CommitCancel(t, rq, now).0; AllMoved(t.locks, u.locks, Event(now, CommitRefund(rq))) && |u.locks| == |t.locks|
  {
    var (u, out) := CommitCancel(t, rq, now);
    CommitShape(t, rq, now, u, out);
    if out.Committed? {
      var ids := Wanted(t.seats[rq.bookingId], rq.seatIds);
      assert u.locks == Unbook(t.locks, rq.bookingId, ids);
      forall i | 0 <= i < |t.locks| ensures Moved(t.locks[i], UnbookRow(t.locks[i], rq.bookingId, ids), Event(now, CommitRefund(rq))) {
        TargetIdsMembers(t.seats[rq.bookingId], rq.seatIds, t.locks[i].seatId);
      }
    }
  }

  /** One action moves a row for one of the four reasons, or not at all, and inserts rows for its own select only. */
  lemma StepMoves(fleet: Fleet, t: Tables, a: Action, now: int)
    requires HoldsCoherent(t.locks)
    ensures var u := Step(fleet, t, a, now).0; AllMoved(t.locks, u.locks, Event(now, a)) && Fresh(t.locks, u.locks, Event(now, a))
  {
    match a
    case Look(deps) => SweepMoves(t.locks, Only(deps), Event(now, a));
    case Select(acq) => SelectMoves(fleet, t, acq, now);
    case ConfirmOrder(rq) =>
      if rq.dep in fleet {
        ConfirmMoves(t, rq.(coach := fleet[rq.dep]), now);
        CoachAside(t.locks, Step(fleet, t, a, now).0.locks, rq, fleet[rq.dep], now);
      }
    case AskRefund(_) =>
    case CommitRefund(rq) => CommitMoves(t, rq, now);
    case AskHold(_) =>
    case Retain(_) =>
  }

  /* ---- every run ---- */

  ghost predicate SomeRanOut(r: LockRow, trace: seq<Event>) {
    exists k | 0 <= k < |trace| :: Lapsed(r, trace[k].at)
  }

  /** The buyer's own select of another hold, while this one was running. */
  predicate Replaces(r: LockRow, e: Event) {
    !Lapsed(r, e.at) && e.action.Select? && e.action.acq.buyer == r.buyer && e.action.acq.newHoldId != r.holdId
  }

  ghost predicate SomeReplaced(r: LockRow, trace: seq<Event>) {
    exists k | 0 <= k < |trace| :: Replaces(r, trace[k])
  }

  predicate Sells(r: LockRow, e: Event) {
    && e.action.ConfirmOrder? && r.bookingId == Some(e.action.order.newBookingId)
    && e.action.order.buyer == r.buyer && e.action.order.dep == r.dep && r.seatId in Named(e.action.order.manifest)
  }

  ghost predicate SomeSold(r: LockRow, trace: seq<Event>) {
    exists k | 0 <= k < |trace| :: Sells(r, trace[k])
  }

  predicate Cancels(r: LockRow, e: Event) {
    && e.action.CommitRefund? && r.bookingId == Some(e.action.cancel.bookingId)
    && (e.action.cancel.seatIds == [] || r.seatId in e.action.cancel.seatIds)
  }

  ghost predicate SomeCancelled(r: LockRow, trace: seq<Event>) {
    exists k | 0 <= k < |trace| :: Cancels(r, trace[k])
  }

  /** What a run can have made of a row. */
  ghost predicate Fated(r: LockRow, r': LockRow, trace: seq<Event>) {
    match r'.state
    case HELD => r' == r
    case EXPIRED => r' == r || (r.state.HELD? && r' == r.(state := EXPIRED) && SomeRanOut(r, trace))
    case BOOKED => r' == r || (r.state.HELD? && r' == Booked(r, r') && SomeSold(r', trace))
    case RELEASED =>
      || r' == r
      || (r.state.BOOKED? && r' == r.(state := RELEASED) && SomeCancelled(r', trace))
      || (r.state.HELD? && r' == r.(state := RELEASED) && SomeReplaced(r, trace))
      || (r.state.HELD? && r' == Booked(r, r').(state := RELEASED) && SomeSold(r', trace) && SomeCancelled(r', trace))
  }

  /** `r` with the booking of `r'`. */
  function Booked(r: LockRow, r': LockRow): LockRow {
    r.(state := BOOKED, bookingId := r'.bookingId, expiresAt := None)
  }

  lemma LaterFates(r: LockRow, trace: seq<Event>)
    requires trace != []
    ensures SomeRanOut(r, trace) <==> Lapsed(r, trace[0].at) || SomeRanOut(r, trace[1..])
    ensures SomeReplaced(r, trace) <==> Replaces(r, trace[0]) || SomeReplaced(r, trace[1..])
    ensures SomeSold(r, trace) <==> Sells(r, trace[0]) || SomeSold(r, trace[1..])
    ensures SomeCancelled(r, trace) <==> Cancels(r, trace[0]) || SomeCancelled(r, trace[1..])
  {
    assert forall k | 0 < k < |trace| :: trace[k] == trace[1..][k - 1];
    assert forall k | 0 <= k < |trace| - 1 :: trace[1..][k] == trace[k + 1];
  }

  lemma FateUnmoved(r: LockRow, r': LockRow, trace: seq<Event>)
    requires trace != [] && Fated(r, r', trace[1..])
    ensures Fated(r, r', trace)
  {
    LaterFates(r, trace);
    LaterFates(r', trace);
  }

  /** What is EXPIRED or RELEASED stays as it is. */
  lemma FateOver(r: LockRow, s: LockRow, r': LockRow, trace: seq<Event>)
    requires trace != [] && (RanOut(r, s, trace[0]) || GivenUp(r, s, trace[0]) || CancelledBy(r, s, trace[0])) && Fated(s, r', trace[1..])
    ensures Fated(r, r', trace)
  {
    assert r' == s;
    LaterFates(r, trace);
    LaterFates(s, trace);
  }

  lemma FateSold(r: LockRow, s: LockRow, r': LockRow, trace: seq<Event>)
    requires trace != [] && SoldBy(r, s, trace[0]) && Fated(s, r', trace[1..])
    ensures Fated(r, r', trace)
  {
    assert r' == s || r' == s.(state := RELEASED);
    LaterFates(r', trace);
  }

  /** One move, then the rest of the run. */
  lemma FateStep(r: LockRow, s: LockRow, r': LockRow, trace: seq<Event>)
    requires trace != [] && Moved(r, s, trace[0]) && Fated(s, r', trace[1..])
    ensures Fated(r, r', trace)
  {
    if s == r {
      FateUnmoved(r, r', trace);
    } else if SoldBy(r, s, trace[0]) {
      FateSold(r, s, r', trace);
    } else {
      FateOver(r, s, r', trace);
    }
  }

  lemma StartFate(r: LockRow)
    ensures Fated(r, r, [])
  {
  }

  /** Whatever became of a row during a run, the run holds the request or the expiry it became so by. */
  lemma {:induction false} RowsAreFated(fleet: Fleet, t: Tables, trace: seq<Event>, i: nat)
    requires Inv(t) && i < |t.locks|
    ensures i < |Run(fleet, t, trace).0.locks| && Fated(t.locks[i], Run(fleet, t, trace).0.locks[i], trace)
    decreases |trace|
  {
    if trace == [] {
      StartFate(t.locks[i]);
    } else {
      var u := Step(fleet, t, trace[0].action, trace[0].at).0;
      StepMoves(fleet, t, trace[0].action, trace[0].at);
      StepKeepsInv(fleet, t, trace[0].action, trace[0].at);
      RowsAreFated(fleet, u, trace[1..], i);
      assert Moved(t.locks[i], u.locks[i], trace[0]);
      FateStep(t.locks[i], u.locks[i], Run(fleet, u, trace[1..]).0.locks[i], trace);
    }
  }

  /** The row was inserted by event `k`, and what it is now it became after that. */
  ghost predicate ExplainedAt(r: LockRow, trace: seq<Event>, k: nat) {
    k < |trace| && InsertedBy(r, trace[k]) && Fated(NewRow(trace[k].action.acq, r.seatId, trace[k].at), r, trace[k + 1..])
  }

  lemma ExplainedLater(r: LockRow, trace: seq<Event>, k: nat)
    requires trace != [] && ExplainedAt(r, trace[1..], k)
    ensures ExplainedAt(r, trace, k + 1)
  {
    assert trace[1..][k + 1..] == trace[k + 2..];
  }

  lemma InsertedNow(r: LockRow, r': LockRow, trace: seq<Event>)
    requires trace != [] && InsertedBy(r, trace[0]) && r == NewRow(trace[0].action.acq, r.seatId, trace[0].at)
    requires Fated(r, r', trace[1..])
    ensures ExplainedAt(r', trace, 0)
  {
  }

  lemma {:induction false} NewRowsAreExplained(fleet: Fleet, t: Tables, trace: seq<Event>, i: nat)
    requires Inv(t) && |t.locks| <= i < |Run(fleet, t, trace).0.locks|
    ensures exists k: nat :: ExplainedAt(Run(fleet, t, trace).0.locks[i], trace, k)
    decreases |trace|
  {
    if trace != [] {
      var u := Step(fleet, t, trace[0].action, trace[0].at).0;
      StepMoves(fleet, t, trace[0].action, trace[0].at);
      StepKeepsInv(fleet, t, trace[0].action, trace[0].at);
      var r' := Run(fleet, u, trace[1..]).0.locks[i];
      if i < |u.locks| {
        RowsAreFated(fleet, u, trace[1..], i);
        InsertedNow(u.locks[i], r', trace);
      } else {
        NewRowsAreExplained(fleet, u, trace[1..], i);
        var k: nat :| ExplainedAt(r', trace[1..], k);
        ExplainedLater(r', trace, k);
      }
    }
  }

  /**
   * Every lock row of every reachable state was inserted HELD by a select for that seat, and is EXPIRED
   * only if it had run out, BOOKED only if its buyer confirmed it, and RELEASED only if its buyer selected
   * anew while it ran or its sold seat was cancelled.
   */
  lemma EveryRowIsExplained(fleet: Fleet, trace: seq<Event>, i: nat)
    requires i < |Run(fleet, EMPTY, trace).0.locks|
    ensures exists k: nat :: ExplainedAt(Run(fleet, EMPTY, trace).0.locks[i], trace, k)
  {
    EmptyIsOk();
    NewRowsAreExplained(fleet, EMPTY, trace, i);
  }
}
