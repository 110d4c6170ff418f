/**
 * The lazily swept store answers exactly as one that expires each hold the moment its instant
 * passes: who happens to sweep a coach first, and whether a refused select rolled its sweep back,
 * can never be told from the answers.
 */
module LazyExpiry {
  import opened Basics
  import opened SeatMap
  import opened Locks
  import opened Store
  import opened StoreInvariant
  import opened Actions
  import opened Reachable

  function Eager(t: Tables, now: int): Tables {
    SweepTables(t, Everywhere, now)
  }

  /* ---- sweeping ---- */

  /** A later complete sweep makes an earlier one, of any scope, invisible. */
  lemma LaterSweepAbsorbs(locks: seq<LockRow>, scope: Scope, now: int, later: int)
    requires now <= later
    ensures Sweep(Sweep(locks, scope, now), Everywhere, later) == Sweep(locks, Everywhere, later)
  {
  }

  lemma CompleteSweepCovers(locks: seq<LockRow>, scope: Scope, now: int)
    ensures Sweep(Sweep(locks, Everywhere, now), scope, now) == Sweep(locks, Everywhere, now)
  {
  }

  /* ---- reads ---- */

  lemma {:induction false} NewestUnderSweep(locks: seq<LockRow>, scope: Scope, now: int, buyer: Buyer)
    ensures NewestRow(Sweep(locks, scope, now), buyer) == NewestRow(locks, buyer)
  {
    if locks != [] {
      var last := |locks| - 1;
      assert Sweep(locks, scope, now)[..last] == Sweep(locks[..last], scope, now);
      NewestUnderSweep(locks[..last], scope, now, buyer);
    }
  }

  /** A hold's status, and the hold itself while it is live, do not depend on who has swept. */
  lemma HoldUnderSweep(locks: seq<LockRow>, scope: Scope, now: int, buyer: Buyer)
    requires forall i | 0 <= i < |locks| :: RowOk(locks[i])
    ensures ReadHold(Sweep(locks, scope, now), buyer, now) == ReadHold(locks, buyer, now)
    ensures var a, b := LatestHold(locks, buyer), LatestHold(Sweep(locks, scope, now), buyer);
      && (a.Some? <==> b.Some?)
      && (HasLiveHold(a, now) <==> HasLiveHold(b, now))
      && (HasLiveHold(a, now) ==> a == b)
  {
    NewestUnderSweep(locks, scope, now, buyer);
    var n := NewestRow(locks, buyer);
    if n.Some? {
      assert RowOk(locks[n.value]);
      SweepKeepsSeatsOfHold(locks, scope, now, buyer, locks[n.value].holdId);
    }
  }

  /** The two lock tables show the same live rows on one departure. */
  predicate SameLive(a: seq<LockRow>, b: seq<LockRow>, dep: Departure) {
    |a| == |b| && forall i | 0 <= i < |a| :: a[i] == b[i] || (!(a[i].dep == dep && Live(a[i])) && !(b[i].dep == dep && Live(b[i])))
  }

  lemma {:induction false} LiveRowAgrees(a: seq<LockRow>, b: seq<LockRow>, dep: Departure, seatId: SeatId)
    requires SameLive(a, b, dep)
    ensures LiveRow(a, dep, seatId) == LiveRow(b, dep, seatId)
  {
    if a != [] {
      LiveRowAgrees(a[..|a| - 1], b[..|b| - 1], dep, seatId);
    }
  }

  lemma LiveRowFound(locks: seq<LockRow>, dep: Departure, seatId: SeatId)
    ensures LiveRow(locks, dep, seatId).Some? <==> seatId in LiveSeats(locks, dep)
  {
    if seatId in LiveSeats(locks, dep) {
      var i :| 0 <= i < |locks| && Live(locks[i]) && locks[i].dep == dep && locks[i].seatId == seatId;
      assert On(locks[i], dep, seatId);
    }
  }

  lemma ClaimsAgree(t: Tables, u: Tables, dep: Departure)
    requires SameLive(t.locks, u.locks, dep) && t.seats == u.seats
    ensures ClaimsOn(t, dep) == ClaimsOn(u, dep)
  {
    forall s ensures s in ClaimsOn(t, dep) <==> s in ClaimsOn(u, dep)
    ensures s in ClaimsOn(t, dep) ==> ClaimsOn(t, dep)[s] == ClaimsOn(u, dep)[s]
    {
      LiveRowFound(t.locks, dep, s);
      LiveRowFound(u.locks, dep, s);
      LiveRowAgrees(t.locks, u.locks, dep, s);
    }
  }

  lemma SweptClaimsAgree(t: Tables, deps: set<Departure>, dep: Departure, now: int)
    requires dep in deps
    ensures ClaimsOn(SweepTables(t, Only(deps), now), dep) == ClaimsOn(Eager(t, now), dep)
  {
    ClaimsAgree(SweepTables(t, Only(deps), now), Eager(t, now), dep);
  }

  /* ---- acquire ---- */

  /** Letting go of the older hold commutes with the complete sweep. */
  lemma FreedUnderSweep(locks: seq<LockRow>, rq: AcquireRequest, now: int)
    requires LocksOk(locks)
    ensures Freed(Sweep(locks, Everywhere, now), rq, now) == Sweep(Freed(locks, rq, now), Everywhere, now)
    ensures Reselects(Sweep(locks, Everywhere, now), rq, now) == Reselects(locks, rq, now)
    ensures LatestHold(Swept(Sweep(locks, Everywhere, now), rq, now), rq.buyer).Some? <==> LatestHold(Swept(locks, rq, now), rq.buyer).Some?
    ensures Reselects(locks, rq, now) ==>
      LatestHold(Swept(Sweep(locks, Everywhere, now), rq, now), rq.buyer) == LatestHold(Swept(locks, rq, now), rq.buyer)
  {
    var eager := Sweep(locks, Everywhere, now);
    var swept := Swept(locks, rq, now);
    CompleteSweepCovers(locks, Only({rq.dep}), now);
    LaterSweepAbsorbs(locks, Only({rq.dep}), now, now);
    SweepKeepsLocksOk(locks, Only({rq.dep}), now);
    HoldUnderSweep(swept, Everywhere, now, rq.buyer);
    assert Swept(eager, rq, now) == eager == Sweep(swept, Everywhere, now);
    var latest := LatestHold(swept, rq.buyer);
    if HasLiveHold(latest, now) {
      ReleaseUnderSweep(swept, NewestRow(swept, rq.buyer).value, now);
    }
  }

  lemma ReleaseUnderSweep(locks: seq<LockRow>, n: nat, now: int)
    requires HoldsCoherent(locks) && n < |locks| && locks[n].state.HELD? && !Lapsed(locks[n], now)
    ensures ReleaseHold(Sweep(locks, Everywhere, now), locks[n].holdId) == Sweep(ReleaseHold(locks, locks[n].holdId), Everywhere, now)
  {
    var h := locks[n].holdId;
    var a := ReleaseHold(Sweep(locks, Everywhere, now), h);
    var b := Sweep(ReleaseHold(locks, h), Everywhere, now);
    forall i | 0 <= i < |locks| ensures a[i] == b[i] {
      if locks[i].holdId == h {
        OneRowDecides(locks, n, i);
      }
    }
  }

  lemma TakenUnderSweep(locks: seq<LockRow>, dep: Departure, now: int, seatIds: seq<SeatId>)
    requires forall i | 0 <= i < |locks| && locks[i].dep == dep && locks[i].state.HELD? :: !Lapsed(locks[i], now)
    ensures Taken(Sweep(locks, Everywhere, now), dep, seatIds) == Taken(locks, dep, seatIds)
  {
    if seatIds != [] {
      TakenUnderSweep(locks, dep, now, seatIds[1..]);
      var e, s := Sweep(locks, Everywhere, now), seatIds[0];
      if Claimed(locks, dep, s) {
        var i :| 0 <= i < |locks| && Live(locks[i]) && On(locks[i], dep, s);
        assert Live(e[i]) && On(e[i], dep, s);
      }
      if Claimed(e, dep, s) {
        var i :| 0 <= i < |e| && Live(e[i]) && On(e[i], dep, s);
        assert Live(locks[i]) && On(locks[i], dep, s);
      }
    }
  }

  lemma FreedHasNoLapsed(locks: seq<LockRow>, rq: AcquireRequest, now: int)
    ensures var freed := Freed(locks, rq, now);
      forall i | 0 <= i < |freed| && freed[i].dep == rq.dep && freed[i].state.HELD? :: !Lapsed(freed[i], now)
  {
  }

  lemma AcquireUnderSweep(locks: seq<LockRow>, rq: AcquireRequest, now: int)
    requires LocksOk(locks)
    ensures var eager := Sweep(locks, Everywhere, now);
      && Acquire(eager, rq, now).1 == Acquire(locks, rq, now).1
      && Sweep(Acquire(eager, rq, now).0, Everywhere, now) == Sweep(Acquire(locks, rq, now).0, Everywhere, now)
  {
    var eager := Sweep(locks, Everywhere, now);
    var seatIds := SortedDistinct(rq.seatIds);
    SweepKeepsLocksOk(locks, Everywhere, now);
    FreedUnderSweep(locks, rq, now);
    var freed, freed' := Freed(locks, rq, now), Freed(eager, rq, now);
    LaterSweepAbsorbs(locks, Everywhere, now, now);
    LaterSweepAbsorbs(locks, Only({rq.dep}), now, now);
    CompleteSweepCovers(locks, Only({rq.dep}), now);
    if !Reselects(locks, rq, now) {
      FreedHasNoLapsed(locks, rq, now);
      TakenUnderSweep(freed, rq.dep, now, seatIds);
      UsedUnderSweep(freed, rq.newHoldId, now);
      if Taken(freed, rq.dep, seatIds) == [] && !HoldIdUsed(freed, rq.newHoldId) && seatIds != [] {
        InsertNeverHitsTheIndex(locks, rq, now);
        InsertNeverHitsTheIndex(eager, rq, now);
        var rows := NewRows(rq, seatIds, now);
        LaterSweepAbsorbs(freed, Everywhere, now, now);
        SweepConcat(freed, rows, now);
        SweepConcat(freed', rows, now);
      }
    }
  }

  lemma UsedUnderSweep(locks: seq<LockRow>, holdId: string, now: int)
    ensures HoldIdUsed(Sweep(locks, Everywhere, now), holdId) == HoldIdUsed(locks, holdId)
  {
    var e := Sweep(locks, Everywhere, now);
    if HoldIdUsed(locks, holdId) {
      var i :| 0 <= i < |locks| && locks[i].holdId == holdId;
      assert e[i].holdId == holdId;
    }
  }

  lemma SweepConcat(a: seq<LockRow>, b: seq<LockRow>, now: int)
    ensures Sweep(a + b, Everywhere, now) == Sweep(a, Everywhere, now) + Sweep(b, Everywhere, now)
  {
  }

  /* ---- confirm ---- */

  lemma {:induction false} HeldCountUnderSweep(locks: seq<LockRow>, holdId: string, now: int)
    requires forall i | 0 <= i < |locks| && locks[i].holdId == holdId :: !Lapsed(locks[i], now)
    ensures HeldCount(Sweep(locks, Everywhere, now), holdId) == HeldCount(locks, holdId)
  {
    if locks != [] {
      assert Sweep(locks, Everywhere, now)[1..] == Sweep(locks[1..], Everywhere, now);
      HeldCountUnderSweep(locks[1..], holdId, now);
    }
  }

  lemma BookUnderSweep(locks: seq<LockRow>, holdId: string, b: string, now: int)
    requires forall i | 0 <= i < |locks| && locks[i].holdId == holdId :: !Lapsed(locks[i], now)
    ensures Sweep(BookHold(Sweep(locks, Everywhere, now), holdId, b), Everywhere, now) == Sweep(BookHold(locks, holdId, b), Everywhere, now)
  {
  }

  /** The check reads nothing but the claims and the latest hold, and of a lapsed hold only that it is one. */
  lemma CheckReadsOnly(t: Tables, u: Tables, rq: ConfirmRequest, now: int)
    requires ClaimsOn(t, rq.dep) == ClaimsOn(u, rq.dep)
    requires var a, b := LatestHold(t.locks, rq.buyer), LatestHold(u.locks, rq.buyer);
      && (a.Some? <==> b.Some?)
      && (HasLiveHold(a, now) <==> HasLiveHold(b, now))
      && (HasLiveHold(a, now) ==> a == b)
    ensures CheckHold(t, rq, now) == CheckHold(u, rq, now)
  {
  }

  lemma CheckUnderSweep(t: Tables, rq: ConfirmRequest, now: int)
    requires Inv(t)
    ensures var swept := SweepTables(t, Only({rq.dep}), now); CheckHold(Eager(t, now), rq, now) == CheckHold(swept, rq, now)
  {
    var swept := SweepTables(t, Only({rq.dep}), now);
    SweepKeepsLocksOk(t.locks, Only({rq.dep}), now);
    LaterSweepAbsorbs(t.locks, Only({rq.dep}), now, now);
    HoldUnderSweep(swept.locks, Everywhere, now, rq.buyer);
    SweptClaimsAgree(t, {rq.dep}, rq.dep, now);
    CheckReadsOnly(swept, Eager(t, now), rq, now);
  }

  lemma ConfirmBookingUnderSweep(t: Tables, h: string, rq: ConfirmRequest, now: int)
    requires forall i | 0 <= i < |t.locks| && t.locks[i].holdId == h :: !Lapsed(t.locks[i], now)
    ensures ConfirmBooking(Eager(t, now), h, rq, now).1 == ConfirmBooking(t, h, rq, now).1
    ensures Eager(ConfirmBooking(Eager(t, now), h, rq, now).0, now) == Eager(ConfirmBooking(t, h, rq, now).0, now)
  {
    HeldCountUnderSweep(t.locks, h, now);
    BookUnderSweep(t.locks, h, rq.newBookingId, now);
    LaterSweepAbsorbs(t.locks, Everywhere, now, now);
  }

  lemma ConfirmUnderSweep(t: Tables, rq: ConfirmRequest, now: int)
    requires Inv(t)
    ensures Confirm(Eager(t, now), rq, now).1 == Confirm(t, rq, now).1
    ensures Eager(Confirm(Eager(t, now), rq, now).0, now) == Eager(Confirm(t, rq, now).0, now)
  {
    var swept, eager := SweepTables(t, Only({rq.dep}), now), Eager(t, now);
    LaterSweepAbsorbs(t.locks, Only({rq.dep}), now, now);
    LaterSweepAbsorbs(t.locks, Everywhere, now, now);
    CompleteSweepCovers(t.locks, Only({rq.dep}), now);
    CheckUnderSweep(t, rq, now);
    assert SweepTables(eager, Only({rq.dep}), now) == eager;
    if BookingOf(t, rq.buyer).None? && CheckHold(swept, rq, now).Passes? {
      SweepKeepsInv(t, Only({rq.dep}), now);
      PassedHoldIsOwn(swept, rq, now);
      ConfirmBookingUnderSweep(swept, CheckHold(swept, rq, now).hold.holdId, rq, now);
    }
  }

  /* ---- cancel ---- */

  lemma UnbookUnderSweep(locks: seq<LockRow>, b: string, ids: seq<SeatId>, now: int)
    ensures Unbook(Sweep(locks, Everywhere, now), b, ids) == Sweep(Unbook(locks, b, ids), Everywhere, now)
  {
  }

  lemma CancelUnderSweep(t: Tables, rq: CancelRequest, now: int)
    ensures SoftCancel(Eager(t, now), rq, now).1 == SoftCancel(t, rq, now).1
    ensures Eager(SoftCancel(Eager(t, now), rq, now).0, now) == Eager(SoftCancel(t, rq, now).0, now)
    ensures CommitCancel(Eager(t, now), rq, now).1 == CommitCancel(t, rq, now).1
    ensures Eager(CommitCancel(Eager(t, now), rq, now).0, now) == Eager(CommitCancel(t, rq, now).0, now)
  {
    LaterSweepAbsorbs(t.locks, Everywhere, now, now);
    if CommitCancel(t, rq, now).1.Committed? {
      var ids := SortedDistinct(TargetIds(Targets(t.seats[rq.bookingId], rq.seatIds)));
      UnbookUnderSweep(t.locks, rq.bookingId, ids, now);
      LaterSweepAbsorbs(Unbook(t.locks, rq.bookingId, ids), Everywhere, now, now);
    }
  }

  /* ---- every action, and every run ---- */

  lemma SelectUnderSweep(fleet: Fleet, t: Tables, acq: AcquireRequest, now: int)
    requires Inv(t)
    ensures SelectSeats(fleet, Eager(t, now), acq, now).1 == SelectSeats(fleet, t, acq, now).1
    ensures Eager(SelectSeats(fleet, Eager(t, now), acq, now).0, now) == Eager(SelectSeats(fleet, t, acq, now).0, now)
  {
    var swept, eager := SweepTables(t, Only({acq.dep}), now), Eager(t, now);
    LaterSweepAbsorbs(t.locks, Only({acq.dep}), now, now);
    LaterSweepAbsorbs(t.locks, Everywhere, now, now);
    CompleteSweepCovers(t.locks, Only({acq.dep}), now);
    assert SweepTables(eager, Only({acq.dep}), now) == eager == Eager(swept, now);
    if acq.dep in fleet && acq.seatIds != [] && Elements(acq.seatIds) <= SeatIds(fleet[acq.dep])
       && Elements(acq.seatIds) * fleet[acq.dep].seeded.Keys == {} {
      SweepKeepsLocksOk(t.locks, Only({acq.dep}), now);
      AcquireUnderSweep(swept.locks, acq, now);
      var a, b := Acquire(swept.locks, acq, now), Acquire(eager.locks, acq, now);
      assert SelectSeats(fleet, t, acq, now) == (swept.(locks := a.0), Selected(a.1));
      assert SelectSeats(fleet, eager, acq, now) == (eager.(locks := b.0), Selected(b.1));
    }
  }

  lemma RetainUnderSweep(fleet: Fleet, t: Tables, a: Action, now: int)
    requires a.Retain?
    ensures Step(fleet, Eager(t, now), a, now).1 == Step(fleet, t, a, now).1
    ensures Eager(Step(fleet, Eager(t, now), a, now).0, now) == Eager(Step(fleet, t, a, now).0, now)
  {
    LaterSweepAbsorbs(t.locks, Everywhere, now, now);
  }

  /** One action gives the same answer, and indistinguishable tables, swept or not. */
  lemma StepUnderSweep(fleet: Fleet, t: Tables, a: Action, now: int)
    requires Inv(t)
    ensures Step(fleet, Eager(t, now), a, now).1 == Step(fleet, t, a, now).1
    ensures Eager(Step(fleet, Eager(t, now), a, now).0, now) == Eager(Step(fleet, t, a, now).0, now)
  {
    LaterSweepAbsorbs(t.locks, Everywhere, now, now);
    match a
    case Look(deps) =>
      LaterSweepAbsorbs(t.locks, Only(deps), now, now);
      CompleteSweepCovers(t.locks, Only(deps), now);
      forall dep | dep in deps
        ensures ClaimsOn(SweepTables(t, Only(deps), now), dep) == ClaimsOn(SweepTables(Eager(t, now), Only(deps), now), dep)
      {
        SweptClaimsAgree(t, deps, dep, now);
      }
    case Select(acq) => SelectUnderSweep(fleet, t, acq, now);
    case ConfirmOrder(rq) =>
      if rq.dep in fleet {
        ConfirmUnderSweep(t, rq.(coach := fleet[rq.dep]), now);
      }
    case AskRefund(rq) => CancelUnderSweep(t, rq, now);
    case CommitRefund(rq) => CancelUnderSweep(t, rq, now);
    case AskHold(buyer) => HoldUnderSweep(t.locks, Everywhere, now, buyer);
    case Retain(_) => RetainUnderSweep(fleet, t, a, now);
  }

  /**
   * For every run with nondecreasing instants, the lazy store and the eager store give the same
   * answers. The two may start from any tables that a complete sweep makes equal.
   */
  lemma {:induction false} LazyRefinesEager(fleet: Fleet, lazy: Tables, eager: Tables, trace: seq<Event>, clock: int)
    requires Inv(lazy) && InOrder(trace, clock)
    requires Eager(lazy, clock) == Eager(eager, clock)
    ensures Run(fleet, lazy, trace).1 == RunEagerly(fleet, eager, trace).1
    ensures var end := LastInstant(trace, clock);
      Eager(Run(fleet, lazy, trace).0, end) == Eager(RunEagerly(fleet, eager, trace).0, end)
    decreases |trace|
  {
    if trace != [] {
      var now, a := trace[0].at, trace[0].action;
      LaterSweepAbsorbs(lazy.locks, Everywhere, clock, now);
      LaterSweepAbsorbs(eager.locks, Everywhere, clock, now);
      assert Eager(lazy, now) == Eager(Eager(lazy, clock), now) == Eager(Eager(eager, clock), now) == Eager(eager, now);
      StepUnderSweep(fleet, lazy, a, now);
      StepKeepsInv(fleet, lazy, a, now);
      LazyRefinesEager(fleet, Step(fleet, lazy, a, now).0, EagerStep(fleet, eager, a, now).0, trace[1..], now);
    }
  }

  /** What makes the eager store eager: the rows an action finds are those before it with every lapsed hold expired. */
  lemma EagerFindsNothingLapsed(fleet: Fleet, t: Tables, a: Action, now: int)
    ensures exists u: Tables ::
      && EagerStep(fleet, t, a, now) == Step(fleet, u, a, now) && u == t.(locks := u.locks) && |u.locks| == |t.locks|
      && forall i | 0 <= i < |u.locks| ::
           && (u.locks[i] == t.locks[i] || u.locks[i] == t.locks[i].(state := EXPIRED))
           && (u.locks[i].state.HELD? && u.locks[i].expiresAt.Some? ==> now < u.locks[i].expiresAt.value)
  {
    var u := SweepTables(t, Everywhere, now);
    assert EagerStep(fleet, t, a, now) == Step(fleet, u, a, now);
  }
}
