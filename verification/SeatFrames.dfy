/** How each action on the store moves the published seat map, for every viewer. */
module SeatFrames {
  import opened Basics
  import opened SeatMap
  import opened Locks
  import opened Refund
  import opened Store
  import opened StoreInvariant
  import opened Cancellation
  import opened Actions

  /* ---- claims and the seeded seats ---- */

  /** Live locks lie on seats of their coach that the simulation has not sold. */
  predicate OffSeeded(fleet: Fleet, t: Tables) {
    forall i | 0 <= i < |t.locks| && Live(t.locks[i]) :: OnSale(fleet, t.locks[i])
  }

  predicate OnSale(fleet: Fleet, r: LockRow) {
    r.dep in fleet && r.seatId in SeatIds(fleet[r.dep]) && r.seatId !in fleet[r.dep].seeded
  }

  /** Row by row the later table has a live lock only where the earlier one had it. */
  predicate NoNewLive(a: seq<LockRow>, b: seq<LockRow>) {
    |a| == |b| && forall i | 0 <= i < |a| :: Live(b[i]) ==> Live(a[i]) && b[i].dep == a[i].dep && b[i].seatId == a[i].seatId
  }

  lemma NoNewLiveOffSeeded(fleet: Fleet, a: seq<LockRow>, b: seq<LockRow>)
    requires NoNewLive(a, b) && forall i | 0 <= i < |a| && Live(a[i]) :: OnSale(fleet, a[i])
    ensures forall i | 0 <= i < |b| && Live(b[i]) :: OnSale(fleet, b[i])
  {
  }

  lemma FreedNoNewLive(locks: seq<LockRow>, acq: AcquireRequest, now: int)
    ensures NoNewLive(locks, Swept(locks, acq, now)) && NoNewLive(locks, Freed(locks, acq, now))
  {
  }

  lemma AcquireOffSeeded(fleet: Fleet, t: Tables, acq: AcquireRequest, now: int)
    requires OffSeeded(fleet, t) && acq.dep in fleet
    requires forall s | s in acq.seatIds :: s in SeatIds(fleet[acq.dep]) && s !in fleet[acq.dep].seeded
    ensures OffSeeded(fleet, t.(locks := Acquire(t.locks, acq, now).0))
  {
    var swept, freed := Swept(t.locks, acq, now), Freed(t.locks, acq, now);
    FreedNoNewLive(t.locks, acq, now);
    NoNewLiveOffSeeded(fleet, t.locks, swept);
    NoNewLiveOffSeeded(fleet, t.locks, freed);
    var rows := NewRows(acq, SortedDistinct(acq.seatIds), now);
    var after := Acquire(t.locks, acq, now).0;
    assert after == t.locks || after == swept || after == freed + rows;
    forall i | 0 <= i < |rows| ensures OnSale(fleet, rows[i]) {
      assert rows[i].seatId in SortedDistinct(acq.seatIds);
    }
  }

  lemma SelectOffSeeded(fleet: Fleet, t: Tables, acq: AcquireRequest, now: int)
    requires OffSeeded(fleet, t)
    ensures OffSeeded(fleet, SelectSeats(fleet, t, acq, now).0)
  {
    var swept := SweepTables(t, Only({acq.dep}), now);
    assert NoNewLive(t.locks, swept.locks);
    if acq.dep in fleet && Elements(acq.seatIds) <= SeatIds(fleet[acq.dep])
       && Elements(acq.seatIds) * fleet[acq.dep].seeded.Keys == {} {
      forall s | s in acq.seatIds ensures s in SeatIds(fleet[acq.dep]) && s !in fleet[acq.dep].seeded {
        assert s in Elements(acq.seatIds);
        assert s !in Elements(acq.seatIds) * fleet[acq.dep].seeded.Keys;
      }
      AcquireOffSeeded(fleet, swept, acq, now);
    }
    var after := SelectSeats(fleet, t, acq, now).0;
    assert after == t || after == swept || after == swept.(locks := Acquire(swept.locks, acq, now).0);
  }

  /** What a confirm can do to the locks: nothing, a sweep, or a sweep and a booking. */
  lemma ConfirmShape(t: Tables, rq: ConfirmRequest, now: int, swept: seq<LockRow>) returns (h: string)
    requires swept == Sweep(t.locks, Only({rq.dep}), now)
    ensures var after := Confirm(t, rq, now).0.locks;
      after == t.locks || after == swept || after == BookHold(swept, h, rq.newBookingId)
  {
    var check := CheckHold(t.(locks := swept), rq, now);
    h := if check.Passes? then check.hold.holdId else "";
  }

  lemma BookNoNewLive(locks: seq<LockRow>, h: string, b: string)
    ensures NoNewLive(locks, BookHold(locks, h, b))
  {
  }

  lemma ConfirmOffSeeded(fleet: Fleet, t: Tables, rq: ConfirmRequest, now: int)
    requires OffSeeded(fleet, t)
    ensures OffSeeded(fleet, Confirm(t, rq, now).0)
  {
    var swept := Sweep(t.locks, Only({rq.dep}), now);
    var h := ConfirmShape(t, rq, now, swept);
    assert NoNewLive(t.locks, swept);
    NoNewLiveOffSeeded(fleet, t.locks, swept);
    BookNoNewLive(swept, h, rq.newBookingId);
    NoNewLiveOffSeeded(fleet, swept, BookHold(swept, h, rq.newBookingId));
  }

  lemma StepOffSeeded(fleet: Fleet, t: Tables, a: Action, now: int)
    requires OffSeeded(fleet, t)
    ensures OffSeeded(fleet, Step(fleet, t, a, now).0)
  {
    match a
    case Look(deps) => assert NoNewLive(t.locks, Sweep(t.locks, Only(deps), now));
    case Select(acq) => SelectOffSeeded(fleet, t, acq, now);
    case ConfirmOrder(rq) =>
      if rq.dep in fleet {
        ConfirmOffSeeded(fleet, t, rq.(coach := fleet[rq.dep]), now);
      }
    case AskRefund(rq) =>
    case CommitRefund(rq) =>
      if CommitCancel(t, rq, now).1.Committed? {
        assert NoNewLive(t.locks, CommitCancel(t, rq, now).0.locks);
      }
    case AskHold(_) =>
    case Retain(_) =>
  }

  /** In every reachable state claims are disjoint from the seeded sold set. */
  lemma {:induction false} RunOffSeeded(fleet: Fleet, t: Tables, trace: seq<Event>)
    requires OffSeeded(fleet, t)
    ensures OffSeeded(fleet, Run(fleet, t, trace).0)
    decreases |trace|
  {
    if trace != [] {
      StepOffSeeded(fleet, t, trace[0].action, trace[0].at);
      RunOffSeeded(fleet, Step(fleet, t, trace[0].action, trace[0].at).0, trace[1..]);
    }
  }

  /* ---- reading claims off the table ---- */

  lemma ClaimOfLiveRow(t: Tables, dep: Departure, i: nat)
    requires LiveUnique(t.locks) && i < |t.locks| && Live(t.locks[i]) && t.locks[i].dep == dep
    ensures t.locks[i].seatId in ClaimsOn(t, dep)
    ensures ClaimsOn(t, dep)[t.locks[i].seatId] == ClaimOfRow(t.seats, t.locks[i])
  {
    var s := t.locks[i].seatId;
    assert On(t.locks[i], dep, s);
    var j := LiveRow(t.locks, dep, s);
    assert j == Some(i);
    assert s in LiveSeats(t.locks, dep);
  }

  lemma LiveRowOfClaim(t: Tables, dep: Departure, s: SeatId) returns (i: nat)
    requires s in ClaimsOn(t, dep)
    ensures i < |t.locks| && Live(t.locks[i]) && On(t.locks[i], dep, s)
    ensures ClaimsOn(t, dep)[s] == ClaimOfRow(t.seats, t.locks[i])
  {
    i := LiveRow(t.locks, dep, s).value;
  }

  /* ---- select ---- */

  /** The later table differs from the earlier one only in holds on `changed`. */
  predicate OnlyHoldRows(a: seq<LockRow>, b: seq<LockRow>, dep: Departure, changed: set<SeatId>) {
    && |a| <= |b|
    && (forall i | 0 <= i < |a| :: b[i].dep == a[i].dep && b[i].seatId == a[i].seatId)
    && (forall i | 0 <= i < |a| :: b[i] == a[i] || (!Live(b[i]) && (a[i].dep == dep && Live(a[i]) ==> a[i].seatId in changed)))
    && (forall i | |a| <= i < |b| :: b[i].dep == dep ==> b[i].seatId in changed)
    && (forall i | 0 <= i < |a| :: a[i].dep == dep && a[i].seatId in changed ==> !a[i].state.BOOKED?)
    && (forall i | 0 <= i < |b| :: b[i].dep == dep && b[i].seatId in changed ==> !b[i].state.BOOKED?)
  }

  lemma OnlyHoldClaims(t: Tables, u: Tables, dep: Departure, changed: set<SeatId>)
    requires LiveUnique(t.locks) && LiveUnique(u.locks) && t.seats == u.seats
    requires OnlyHoldRows(t.locks, u.locks, dep, changed)
    ensures OnlyHoldsChange(ClaimsOn(t, dep), ClaimsOn(u, dep), changed)
  {
    var before, after := ClaimsOn(t, dep), ClaimsOn(u, dep);
    forall s | s !in changed ensures (s in before <==> s in after) && (s in before ==> before[s] == after[s]) {
      if s in before {
        var i := LiveRowOfClaim(t, dep, s);
        ClaimOfLiveRow(u, dep, i);
      }
      if s in after {
        var i := LiveRowOfClaim(u, dep, s);
        ClaimOfLiveRow(t, dep, i);
      }
    }
    forall s | s in changed ensures (s in before ==> before[s].HeldClaim?) && (s in after ==> after[s].HeldClaim?) {
      if s in before { var i := LiveRowOfClaim(t, dep, s); }
      if s in after { var i := LiveRowOfClaim(u, dep, s); }
    }
  }

  /** The seats a buyer itself holds on one departure. */
  function OwnHeld(locks: seq<LockRow>, buyer: Buyer, dep: Departure): set<SeatId> {
    set i | 0 <= i < |locks| && locks[i].state.HELD? && locks[i].buyer == buyer && locks[i].dep == dep :: locks[i].seatId
  }

  /** The seats a successful acquire can touch: those it takes and those its buyer held there. */
  function Touched(locks: seq<LockRow>, acq: AcquireRequest): set<SeatId> {
    Elements(acq.seatIds) + OwnHeld(locks, acq.buyer, acq.dep)
  }

  /** What an acquire may do to one row. */
  predicate MayBecome(a: LockRow, b: LockRow, dep: Departure, changed: set<SeatId>) {
    && b.dep == a.dep && b.seatId == a.seatId
    && (b == a || (!Live(b) && (a.dep == dep && Live(a) ==> a.seatId in changed)))
    && (a.dep == dep && a.seatId in changed ==> !a.state.BOOKED? && !b.state.BOOKED?)
  }

  lemma FreedMayBecome(locks: seq<LockRow>, acq: AcquireRequest, now: int, i: nat)
    requires LocksOk(locks) && Sweep(locks, Only({acq.dep}), now) == locks && i < |locks|
    requires Taken(Freed(locks, acq, now), acq.dep, SortedDistinct(acq.seatIds)) == []
    ensures |Freed(locks, acq, now)| == |locks|
    ensures MayBecome(locks[i], Freed(locks, acq, now)[i], acq.dep, Touched(locks, acq))
  {
    FreedRow(locks, acq, now, i);
    if locks[i].dep == acq.dep && locks[i].state.BOOKED? {
      NotTouchedByBooked(locks, acq, now, i);
    }
  }

  lemma RowByRow(a: seq<LockRow>, freed: seq<LockRow>, rows: seq<LockRow>, dep: Departure, changed: set<SeatId>)
    requires |a| == |freed| && forall i | 0 <= i < |a| :: MayBecome(a[i], freed[i], dep, changed)
    requires forall i | 0 <= i < |rows| :: rows[i].seatId in changed && !rows[i].state.BOOKED?
    ensures OnlyHoldRows(a, freed + rows, dep, changed)
  {
  }

  lemma AcquireTouches(locks: seq<LockRow>, acq: AcquireRequest, now: int, after: seq<LockRow>)
    requires LocksOk(locks) && Sweep(locks, Only({acq.dep}), now) == locks
    requires Acquire(locks, acq, now).0 == after && Acquire(locks, acq, now).1.Acquired? && !Reselects(locks, acq, now)
    ensures OnlyHoldRows(locks, after, acq.dep, Touched(locks, acq))
  {
    var freed := Freed(locks, acq, now);
    var rows := NewRows(acq, SortedDistinct(acq.seatIds), now);
    assert after == freed + rows && Taken(freed, acq.dep, SortedDistinct(acq.seatIds)) == [];
    assert |freed| == |locks|;
    forall i | 0 <= i < |locks| ensures MayBecome(locks[i], freed[i], acq.dep, Touched(locks, acq)) {
      FreedMayBecome(locks, acq, now, i);
    }
    forall i | 0 <= i < |rows| ensures rows[i].seatId in Touched(locks, acq) && !rows[i].state.BOOKED? {
      assert rows[i].seatId in SortedDistinct(acq.seatIds);
    }
    RowByRow(locks, freed, rows, acq.dep, Touched(locks, acq));
  }

  /** Freeing changes only the buyer's own held rows, to RELEASED. */
  lemma FreedRow(locks: seq<LockRow>, acq: AcquireRequest, now: int, i: nat)
    requires LocksOk(locks) && Sweep(locks, Only({acq.dep}), now) == locks && i < |locks|
    ensures |Freed(locks, acq, now)| == |locks|
    ensures var r := Freed(locks, acq, now)[i];
      r == locks[i] || (locks[i].state.HELD? && locks[i].buyer == acq.buyer && r == locks[i].(state := RELEASED))
  {
    var latest := LatestHold(locks, acq.buyer);
    if HasLiveHold(latest, now) && locks[i].holdId == latest.value.holdId && locks[i].state.HELD? {
      OneRowDecides(locks, i, NewestRow(locks, acq.buyer).value);
    }
  }

  lemma NotTouchedByBooked(locks: seq<LockRow>, acq: AcquireRequest, now: int, i: nat)
    requires LocksOk(locks) && Sweep(locks, Only({acq.dep}), now) == locks
    requires Taken(Freed(locks, acq, now), acq.dep, SortedDistinct(acq.seatIds)) == []
    requires i < |locks| && locks[i].state.BOOKED? && locks[i].dep == acq.dep
    ensures locks[i].seatId !in Touched(locks, acq)
  {
    var freed, s := Freed(locks, acq, now), locks[i].seatId;
    FreedRow(locks, acq, now, i);
    assert Live(freed[i]) && On(freed[i], acq.dep, s);
    assert s !in Taken(freed, acq.dep, SortedDistinct(acq.seatIds));
  }

  /**
   * Taking or replacing a hold changes the published state only of the seats taken and the seats
   * given back, whoever is looking; a refused select changes none.
   */
  lemma SelectMovesOnlyItsSeats(fleet: Fleet, t: Tables, acq: AcquireRequest, now: int, viewer: Option<Identity>, s: SeatId)
    requires Inv(t) && OffSeeded(fleet, t) && acq.dep in fleet
    ensures var before, after := SweepTables(t, Only({acq.dep}), now), SelectSeats(fleet, t, acq, now);
      after.1 != SeatNotOnMap && (s !in Touched(before.locks, acq) || !(after.1.Selected? && after.1.acquired.Acquired?)) ==>
      StateOf(s, fleet[acq.dep], ClaimsOn(before, acq.dep), viewer) == StateOf(s, fleet[acq.dep], ClaimsOn(after.0, acq.dep), viewer)
  {
    var before := SweepTables(t, Only({acq.dep}), now);
    var (after, answer) := SelectSeats(fleet, t, acq, now);
    assert Sweep(before.locks, Only({acq.dep}), now) == before.locks;
    SelectShape(fleet, t, acq, now, before, after, answer);
    if answer.Selected? && answer.acquired.Acquired? && s !in Touched(before.locks, acq) {
      SweepKeepsInv(t, Only({acq.dep}), now);
      StepOffSeeded(fleet, t, Look({acq.dep}), now);
      AcquireMovesOnlyItsSeats(fleet, before, acq, now, viewer, s, after);
    }
  }

  /** Seen from the swept tables, a select does nothing unless its acquire succeeds. */
  lemma SelectShape(fleet: Fleet, t: Tables, acq: AcquireRequest, now: int, swept: Tables, after: Tables, answer: Answer)
    requires acq.dep in fleet && SelectSeats(fleet, t, acq, now) == (after, answer)
    requires swept == SweepTables(t, Only({acq.dep}), now)
    ensures answer.Selected? ==>
      && Elements(acq.seatIds) * fleet[acq.dep].seeded.Keys == {}
      && (after.locks, answer.acquired) == Acquire(swept.locks, acq, now) && after == swept.(locks := after.locks)
    ensures answer != SeatNotOnMap && !(answer.Selected? && answer.acquired.Acquired?) ==> after == swept
  {
  }

  lemma AcquireMovesOnlyItsSeats(fleet: Fleet, t: Tables, acq: AcquireRequest, now: int, viewer: Option<Identity>, s: SeatId, u: Tables)
    requires LocksOk(t.locks) && OffSeeded(fleet, t) && Sweep(t.locks, Only({acq.dep}), now) == t.locks
    requires acq.dep in fleet && Elements(acq.seatIds) * fleet[acq.dep].seeded.Keys == {}
    requires Acquire(t.locks, acq, now).0 == u.locks && Acquire(t.locks, acq, now).1.Acquired? && u == t.(locks := u.locks)
    requires s !in Touched(t.locks, acq)
    ensures StateOf(s, fleet[acq.dep], ClaimsOn(t, acq.dep), viewer) == StateOf(s, fleet[acq.dep], ClaimsOn(u, acq.dep), viewer)
  {
    if Reselects(t.locks, acq, now) {
      assert u.locks == t.locks;
    } else {
      var changed := Touched(t.locks, acq);
      AcquireKeepsLocksOk(t.locks, acq, now);
      AcquireTouches(t.locks, acq, now, u.locks);
      OnlyHoldClaims(t, u, acq.dep, changed);
      TouchedOffSeeded(fleet, t, acq);
      HoldsTouchOnlyTheirSeats(fleet[acq.dep], ClaimsOn(t, acq.dep), ClaimsOn(u, acq.dep), changed, viewer, s);
    }
  }

  lemma TouchedOffSeeded(fleet: Fleet, t: Tables, acq: AcquireRequest)
    requires OffSeeded(fleet, t) && acq.dep in fleet && Elements(acq.seatIds) * fleet[acq.dep].seeded.Keys == {}
    ensures Touched(t.locks, acq) !! fleet[acq.dep].seeded.Keys
  {
    forall s | s in OwnHeld(t.locks, acq.buyer, acq.dep) ensures s !in fleet[acq.dep].seeded {
      var i :| 0 <= i < |t.locks| && t.locks[i].state.HELD? && t.locks[i].dep == acq.dep && t.locks[i].seatId == s;
      assert OnSale(fleet, t.locks[i]);
    }
    forall s | s in Elements(acq.seatIds) ensures s !in fleet[acq.dep].seeded.Keys {
      assert s !in Elements(acq.seatIds) * fleet[acq.dep].seeded.Keys;
    }
  }

  /* ---- select, seen from another departure ---- */

  lemma OwnHeldNotBooked(locks: seq<LockRow>, buyer: Buyer, d: Departure, i: nat)
    requires LiveUnique(locks) && i < |locks| && locks[i].dep == d && locks[i].seatId in OwnHeld(locks, buyer, d)
    ensures !locks[i].state.BOOKED?
  {
    var j :| 0 <= j < |locks| && locks[j].state.HELD? && locks[j].buyer == buyer && locks[j].dep == d && locks[j].seatId == locks[i].seatId;
    assert i < j || j < i || i == j;
  }

  /** Away from the departure selected on, only the buyer's own holds can go. */
  lemma ElsewhereMayBecome(locks: seq<LockRow>, swept: seq<LockRow>, acq: AcquireRequest, now: int, d: Departure, i: nat)
    requires LocksOk(locks) && LocksOk(swept) && d != acq.dep && i < |locks|
    requires swept == Sweep(locks, Only({acq.dep}), now) && Sweep(swept, Only({acq.dep}), now) == swept
    ensures |Freed(swept, acq, now)| == |locks|
    ensures MayBecome(locks[i], swept[i], d, OwnHeld(locks, acq.buyer, d))
    ensures MayBecome(locks[i], Freed(swept, acq, now)[i], d, OwnHeld(locks, acq.buyer, d))
  {
    FreedRow(swept, acq, now, i);
    if locks[i].dep == d && locks[i].seatId in OwnHeld(locks, acq.buyer, d) {
      OwnHeldNotBooked(locks, acq.buyer, d, i);
    }
  }

  /** What an acquire does to the rows, seen from another departure. */
  lemma AcquireElsewhere(locks: seq<LockRow>, swept: seq<LockRow>, acq: AcquireRequest, now: int, d: Departure, after: seq<LockRow>)
    requires LocksOk(locks) && LocksOk(swept) && d != acq.dep
    requires swept == Sweep(locks, Only({acq.dep}), now) && Sweep(swept, Only({acq.dep}), now) == swept
    requires after == locks || after == swept || after == Freed(swept, acq, now) + NewRows(acq, SortedDistinct(acq.seatIds), now)
    ensures OnlyHoldRows(locks, after, d, OwnHeld(locks, acq.buyer, d))
  {
    var freed, rows := Freed(swept, acq, now), NewRows(acq, SortedDistinct(acq.seatIds), now);
    var own := OwnHeld(locks, acq.buyer, d);
    forall i | 0 <= i < |locks|
      ensures |freed| == |locks| && MayBecome(locks[i], swept[i], d, own) && MayBecome(locks[i], freed[i], d, own)
      ensures MayBecome(locks[i], locks[i], d, own)
    {
      ElsewhereMayBecome(locks, swept, acq, now, d, i);
      if locks[i].dep == d && locks[i].seatId in own {
        OwnHeldNotBooked(locks, acq.buyer, d, i);
      }
    }
    if after == locks {
      RowsFrom(locks, locks, [], d, own);
      assert locks + [] == locks;
    } else if after == swept {
      RowsFrom(locks, swept, [], d, own);
      assert swept + [] == swept;
    } else {
      assert |freed| == |locks|;
      RowsFrom(locks, freed, rows, d, own);
    }
  }

  lemma RowsFrom(a: seq<LockRow>, freed: seq<LockRow>, rows: seq<LockRow>, d: Departure, changed: set<SeatId>)
    requires |a| == |freed| && forall i | 0 <= i < |a| :: MayBecome(a[i], freed[i], d, changed)
    requires forall i | 0 <= i < |rows| :: rows[i].dep != d
    ensures OnlyHoldRows(a, freed + rows, d, changed)
  {
  }

  lemma OwnHeldOffSeeded(fleet: Fleet, t: Tables, buyer: Buyer, d: Departure)
    requires OffSeeded(fleet, t) && d in fleet
    ensures OwnHeld(t.locks, buyer, d) !! fleet[d].seeded.Keys
  {
    forall s | s in OwnHeld(t.locks, buyer, d) ensures s !in fleet[d].seeded {
      var i :| 0 <= i < |t.locks| && t.locks[i].state.HELD? && t.locks[i].dep == d && t.locks[i].seatId == s;
      assert OnSale(fleet, t.locks[i]);
    }
  }

  /** The tables a select can leave. */
  lemma SelectRows(fleet: Fleet, t: Tables, acq: AcquireRequest, now: int, swept: seq<LockRow>)
    requires swept == Sweep(t.locks, Only({acq.dep}), now) && Sweep(swept, Only({acq.dep}), now) == swept
    ensures var u := SelectSeats(fleet, t, acq, now).0;
      && u == t.(locks := u.locks)
      && (u.locks == t.locks || u.locks == swept || u.locks == Freed(swept, acq, now) + NewRows(acq, SortedDistinct(acq.seatIds), now))
  {
  }

  /**
   * A select may replace a hold on another departure. There, only seats the buyer itself held can
   * change, whoever is looking.
   */
  lemma SelectElsewhereMovesOnlyOwnHolds(
      fleet: Fleet, t: Tables, acq: AcquireRequest, now: int, d: Departure, viewer: Option<Identity>, s: SeatId)
    requires Inv(t) && OffSeeded(fleet, t) && d in fleet && d != acq.dep && s !in OwnHeld(t.locks, acq.buyer, d)
    ensures var u := SelectSeats(fleet, t, acq, now).0;
      StateOf(s, fleet[d], ClaimsOn(t, d), viewer) == StateOf(s, fleet[d], ClaimsOn(u, d), viewer)
  {
    var u := SelectSeats(fleet, t, acq, now).0;
    var swept := Sweep(t.locks, Only({acq.dep}), now);
    SweepKeepsLocksOk(t.locks, Only({acq.dep}), now);
    assert Sweep(swept, Only({acq.dep}), now) == swept;
    SelectRows(fleet, t, acq, now, swept);
    AcquireElsewhere(t.locks, swept, acq, now, d, u.locks);
    SelectKeepsLocksOk(fleet, t, acq, now);
    OnlyHoldClaims(t, u, d, OwnHeld(t.locks, acq.buyer, d));
    OwnHeldOffSeeded(fleet, t, acq.buyer, d);
    HoldsTouchOnlyTheirSeats(fleet[d], ClaimsOn(t, d), ClaimsOn(u, d), OwnHeld(t.locks, acq.buyer, d), viewer, s);
  }

  lemma SelectKeepsLocksOk(fleet: Fleet, t: Tables, acq: AcquireRequest, now: int)
    requires LocksOk(t.locks)
    ensures LocksOk(SelectSeats(fleet, t, acq, now).0.locks)
  {
    SweepKeepsLocksOk(t.locks, Only({acq.dep}), now);
    AcquireKeepsLocksOk(Sweep(t.locks, Only({acq.dep}), now), acq, now);
  }

  /* ---- cancel ---- */

  lemma {:induction false} GenderKept(rows: seq<SeatRow>, after: seq<SeatRow>, s: SeatId)
    requires SameSeats(rows, after)
    ensures GenderOf(after, s) == GenderOf(rows, s)
  {
    if rows != [] {
      GenderKept(rows[1..], after[1..], s);
    }
  }

  /** The part of a cancellation that claims can see. */
  predicate CancelledTo(t: Tables, u: Tables, b: string, ids: seq<SeatId>) {
    && LiveUnique(t.locks) && LiveUnique(u.locks) && u.locks == Unbook(t.locks, b, ids)
    && t.seats.Keys == u.seats.Keys && b in t.seats && SameSeats(t.seats[b], u.seats[b])
    && (forall c | c in t.seats && c != b :: u.seats[c] == t.seats[c])
  }

  lemma FreedClaim(t: Tables, u: Tables, dep: Departure, b: string, ids: seq<SeatId>, s: SeatId)
    requires CancelledTo(t, u, b, ids) && s in ids && s in BookedSeats(t.locks, b)
    requires forall i | 0 <= i < |t.locks| && t.locks[i].bookingId == Some(b) :: t.locks[i].dep == dep
    ensures s in ClaimsOn(t, dep) && ClaimsOn(t, dep)[s].BookedClaim? && s !in ClaimsOn(u, dep)
  {
    var i :| 0 <= i < |t.locks| && t.locks[i].state.BOOKED? && t.locks[i].bookingId == Some(b) && t.locks[i].seatId == s;
    ClaimOfLiveRow(t, dep, i);
    forall j | 0 <= j < |u.locks| && On(u.locks[j], dep, s) ensures !Live(u.locks[j]) {
      assert j == i || !Live(t.locks[j]);
    }
    assert !Claimed(u.locks, dep, s);
  }

  lemma KeptClaim(t: Tables, u: Tables, dep: Departure, b: string, ids: seq<SeatId>, s: SeatId)
    requires CancelledTo(t, u, b, ids) && s !in ids
    ensures var before, after := ClaimsOn(t, dep), ClaimsOn(u, dep);
      (s in before <==> s in after) && (s in before ==> after[s] == before[s])
  {
    if s in ClaimsOn(t, dep) {
      var i := LiveRowOfClaim(t, dep, s);
      assert u.locks[i] == t.locks[i];
      ClaimOfLiveRow(u, dep, i);
      SameClaim(t, u, b, t.locks[i]);
    }
    if s in ClaimsOn(u, dep) {
      var i := LiveRowOfClaim(u, dep, s);
      assert u.locks[i] == t.locks[i];
      ClaimOfLiveRow(t, dep, i);
    }
  }

  /** Pointwise: a freed seat loses its booked claim, any other keeps what it has. */
  predicate ClaimMoves(before: Claims, after: Claims, freed: set<SeatId>, s: SeatId) {
    && (s in freed ==> s in before && before[s].BookedClaim? && s !in after)
    && (s !in freed ==> (s in before <==> s in after) && (s in before ==> after[s] == before[s]))
  }

  lemma ClaimsFreed(before: Claims, after: Claims, freed: set<SeatId>)
    requires forall s :: ClaimMoves(before, after, freed, s)
    ensures BookingsFreed(before, after, freed)
  {
    assert forall s | s in freed :: ClaimMoves(before, after, freed, s);
    assert forall s | s in after :: ClaimMoves(before, after, freed, s);
    assert forall s | s in before :: ClaimMoves(before, after, freed, s);
    assert after == before - freed;
  }

  lemma FreedClaims(t: Tables, u: Tables, dep: Departure, b: string, ids: seq<SeatId>)
    requires CancelledTo(t, u, b, ids)
    requires forall i | 0 <= i < |t.locks| && t.locks[i].bookingId == Some(b) :: t.locks[i].dep == dep
    requires forall s | s in ids :: s in BookedSeats(t.locks, b)
    ensures BookingsFreed(ClaimsOn(t, dep), ClaimsOn(u, dep), Elements(ids))
  {
    forall s ensures ClaimMoves(ClaimsOn(t, dep), ClaimsOn(u, dep), Elements(ids), s) {
      if s in ids {
        FreedClaim(t, u, dep, b, ids, s);
      } else {
        KeptClaim(t, u, dep, b, ids, s);
      }
    }
    ClaimsFreed(ClaimsOn(t, dep), ClaimsOn(u, dep), Elements(ids));
  }

  lemma CancellationIsCancelledTo(t: Tables, b: string, ids: seq<SeatId>, slab: SlabCode, refunds: map<SeatId, int>, now: int)
    requires LocksOk(t.locks) && KeysOk(t) && LocksPointToBookings(t) && b in t.bookings
    ensures CancelledTo(t, ApplyCancellation(t, b, ids, slab, refunds, now), b, ids)
    ensures forall i | 0 <= i < |t.locks| && t.locks[i].bookingId == Some(b) :: t.locks[i].dep == t.bookings[b].dep
  {
    UnbookKeepsLocksOk(t.locks, b, ids);
  }

  /** The booked claims a cancellation of confirmed seats takes off the departure. */
  lemma CancelledClaims(t: Tables, b: string, ids: seq<SeatId>, slab: SlabCode, refunds: map<SeatId, int>, now: int)
    requires LocksOk(t.locks) && KeysOk(t) && LocksPointToBookings(t) && b in t.bookings
    requires forall s | s in ids :: s in BookedSeats(t.locks, b)
    ensures var dep := t.bookings[b].dep;
      BookingsFreed(ClaimsOn(t, dep), ClaimsOn(ApplyCancellation(t, b, ids, slab, refunds, now), dep), Elements(ids))
  {
    CancellationIsCancelledTo(t, b, ids, slab, refunds, now);
    FreedClaims(t, ApplyCancellation(t, b, ids, slab, refunds, now), t.bookings[b].dep, b, ids);
  }

  lemma SameClaim(t: Tables, u: Tables, b: string, r: LockRow)
    requires t.seats.Keys == u.seats.Keys && b in t.seats && SameSeats(t.seats[b], u.seats[b])
    requires forall c | c in t.seats && c != b :: u.seats[c] == t.seats[c]
    ensures ClaimOfRow(u.seats, r) == ClaimOfRow(t.seats, r)
  {
    GenderKept(t.seats[b], u.seats[b], r.seatId);
  }

  /**
   * Committing a cancellation frees exactly the live seats it targets: the available count rises
   * by their number, no seat that was free gets locked, and only a freed seat can come back
   * female-only.
   */
  lemma CommitFreesItsSeats(fleet: Fleet, t: Tables, rq: CancelRequest, now: int, viewer: Option<Identity>, s: SeatId, u: Tables)
    requires Inv(t) && OffSeeded(fleet, t)
    requires CommitCancel(t, rq, now).1.Committed? && CommitCancel(t, rq, now).0 == u
    ensures rq.bookingId in t.bookings && rq.bookingId in t.seats && t.bookings[rq.bookingId].dep in fleet
    ensures var dep := t.bookings[rq.bookingId].dep;
      var coach, freed := fleet[dep], Elements(Wanted(t.seats[rq.bookingId], rq.seatIds));
      var before, after := ClaimsOn(t, dep), ClaimsOn(u, dep);
      && |FreeSeats(coach, after)| == |FreeSeats(coach, before)| + |freed|
      && (s !in freed ==>
            || StateOf(s, coach, after, viewer) == StateOf(s, coach, before, viewer)
            || (StateOf(s, coach, before, viewer) == FEMALE_ONLY && StateOf(s, coach, after, viewer) == AVAILABLE))
      && (s in freed ==> Open(StateOf(s, coach, after, viewer)))
  {
    var b := rq.bookingId;
    var ids := Wanted(t.seats[b], rq.seatIds);
    CommitTargets(t, rq, now, u);
    WantedOnSale(fleet, t, b, ids);
    var dep := t.bookings[b].dep;
    CancellationFreesExactly(fleet[dep], ClaimsOn(t, dep), ClaimsOn(u, dep), Elements(ids));
    CancellationNeverLocks(fleet[dep], ClaimsOn(t, dep), ClaimsOn(u, dep), Elements(ids), viewer, s);
  }

  lemma CommitTargets(t: Tables, rq: CancelRequest, now: int, u: Tables)
    requires Inv(t) && CommitCancel(t, rq, now).1.Committed? && CommitCancel(t, rq, now).0 == u
    ensures rq.bookingId in t.bookings && rq.bookingId in t.seats
    ensures var b := rq.bookingId; var ids := Wanted(t.seats[b], rq.seatIds); var dep := t.bookings[b].dep;
      && ids != [] && (forall s | s in ids :: s in BookedSeats(t.locks, b))
      && BookingsFreed(ClaimsOn(t, dep), ClaimsOn(u, dep), Elements(ids))
  {
    var b := rq.bookingId;
    var rows := t.seats[b];
    var ids := Wanted(rows, rq.seatIds);
    CommitShape(t, rq, now, u, CommitCancel(t, rq, now).1);
    var slab := SlabFor(t.bookings[b].departureAt, now);
    var per := PerSeat(Targets(rows, rq.seatIds), Percent(slab));
    assert BookingOk(t.bookings[b], rows) && BookedSeats(t.locks, b) == ConfirmedSeats(rows);
    WantedAreConfirmed(rows, rq.seatIds);
    assert TargetIds(Targets(rows, rq.seatIds))[0] in ids;
    CancelledClaims(t, b, ids, slab, per, now);
  }

  lemma WantedAreConfirmed(rows: seq<SeatRow>, named: seq<SeatId>)
    ensures forall s | s in Wanted(rows, named) :: s in ConfirmedSeats(rows)
  {
    forall s | s in Wanted(rows, named) ensures s in ConfirmedSeats(rows) {
      TargetIdsMembers(rows, named, s);
    }
  }

  lemma WantedOnSale(fleet: Fleet, t: Tables, b: string, ids: seq<SeatId>)
    requires OffSeeded(fleet, t) && LocksPointToBookings(t) && b in t.bookings
    requires ids != [] && forall s | s in ids :: s in BookedSeats(t.locks, b)
    ensures t.bookings[b].dep in fleet
    ensures Elements(ids) <= SeatIds(fleet[t.bookings[b].dep]) && Elements(ids) !! fleet[t.bookings[b].dep].seeded.Keys
  {
    forall s | s in ids ensures t.bookings[b].dep in fleet && s in SeatIds(fleet[t.bookings[b].dep]) && s !in fleet[t.bookings[b].dep].seeded {
      var i :| 0 <= i < |t.locks| && t.locks[i].state.BOOKED? && t.locks[i].bookingId == Some(b) && t.locks[i].seatId == s;
      assert OnSale(fleet, t.locks[i]);
    }
    assert ids[0] in ids;
  }

  /* ---- confirm ---- */

  /** A woman just seated next to `s`, in another party than the viewer's. */
  predicate SeatedBeside(coach: Coach, after: Claims, sold: set<SeatId>, viewer: Option<Identity>, s: SeatId, n: SeatId) {
    && n in sold && n in after && after[n].BookedClaim? && after[n].gender == Some(Female) && viewer != Some(after[n].identity)
    && FindSeat(coach.seats, s).Some? && n in FindSeat(coach.seats, s).value.adjacent
  }

  /**
   * A confirmation turns its own holds into bookings and nothing else: no seat is freed, and a
   * free seat becomes female-only only beside a woman it has just seated, against other parties.
   */
  lemma ConfirmSellsItsHold(t: Tables, rq: ConfirmRequest, now: int, viewer: Option<Identity>, s: SeatId)
    requires Inv(t) && Confirm(t, rq, now).1.Booked?
    ensures var before, after := ClaimsOn(SweepTables(t, Only({rq.dep}), now), rq.dep), ClaimsOn(Confirm(t, rq, now).0, rq.dep);
      && HoldsBooked(before, after, Named(rq.manifest))
      && FreeSeats(rq.coach, after) == FreeSeats(rq.coach, before)
      && (StateOf(s, rq.coach, before, viewer) == FEMALE_ONLY ==> StateOf(s, rq.coach, after, viewer) == FEMALE_ONLY)
      && (StateOf(s, rq.coach, before, viewer) == AVAILABLE && StateOf(s, rq.coach, after, viewer) == FEMALE_ONLY ==>
            exists n :: SeatedBeside(rq.coach, after, Named(rq.manifest), viewer, s, n))
  {
    var swept := SweepTables(t, Only({rq.dep}), now);
    SweepKeepsInv(t, Only({rq.dep}), now);
    PassedHoldIsOwn(swept, rq, now);
    var h := CheckHold(swept, rq, now).hold.holdId;
    var u := WithBooking(swept, h, rq, now);
    assert Confirm(t, rq, now).0 == u;
    BookedClaims(swept, h, rq, now);
    LocksOnlyBeside(rq.coach, ClaimsOn(swept, rq.dep), ClaimsOn(u, rq.dep), Named(rq.manifest), viewer, s);
  }

  lemma LocksOnlyBeside(coach: Coach, before: Claims, after: Claims, sold: set<SeatId>, viewer: Option<Identity>, s: SeatId)
    requires HoldsBooked(before, after, sold)
    ensures FreeSeats(coach, after) == FreeSeats(coach, before)
    ensures StateOf(s, coach, before, viewer) == FEMALE_ONLY ==> StateOf(s, coach, after, viewer) == FEMALE_ONLY
    ensures StateOf(s, coach, before, viewer) == AVAILABLE && StateOf(s, coach, after, viewer) == FEMALE_ONLY ==>
      exists n :: SeatedBeside(coach, after, sold, viewer, s, n)
  {
    ConfirmationLocksOnlyBesideWomen(coach, before, after, sold, viewer, s);
    if StateOf(s, coach, before, viewer) == AVAILABLE && StateOf(s, coach, after, viewer) == FEMALE_ONLY {
      var n :| n in sold && after[n].gender == Some(Female) && viewer != Some(after[n].identity)
        && FindSeat(coach.seats, s).Some? && n in FindSeat(coach.seats, s).value.adjacent;
      assert SeatedBeside(coach, after, sold, viewer, s, n);
    }
  }

  /** Row by row, nothing that claims on `d` can see differs. */
  predicate SameOn(t: Tables, u: Tables, d: Departure) {
    && |u.locks| == |t.locks| && (forall i | 0 <= i < |t.locks| :: u.locks[i].dep == t.locks[i].dep)
    && (forall i | 0 <= i < |t.locks| && t.locks[i].dep == d :: SameRow(t, u, i))
  }

  predicate SameRow(t: Tables, u: Tables, i: nat)
    requires i < |t.locks| && i < |u.locks|
  {
    u.locks[i] == t.locks[i] && (Live(t.locks[i]) ==> ClaimOfRow(u.seats, t.locks[i]) == ClaimOfRow(t.seats, t.locks[i]))
  }

  lemma SameOnTransitive(t: Tables, u: Tables, v: Tables, d: Departure)
    requires SameOn(t, u, d) && SameOn(u, v, d)
    ensures SameOn(t, v, d)
  {
    forall i | 0 <= i < |t.locks| && t.locks[i].dep == d ensures SameRow(t, v, i) {
      assert SameRow(t, u, i) && SameRow(u, v, i);
    }
  }

  lemma SameClaims(t: Tables, u: Tables, d: Departure)
    requires LiveUnique(t.locks) && LiveUnique(u.locks) && SameOn(t, u, d)
    ensures ClaimsOn(u, d) == ClaimsOn(t, d)
  {
    forall s ensures (s in ClaimsOn(t, d) <==> s in ClaimsOn(u, d)) && (s in ClaimsOn(t, d) ==> ClaimsOn(t, d)[s] == ClaimsOn(u, d)[s]) {
      if s in ClaimsOn(t, d) {
        var i := LiveRowOfClaim(t, d, s);
        assert SameRow(t, u, i);
        ClaimOfLiveRow(u, d, i);
      }
      if s in ClaimsOn(u, d) {
        var i := LiveRowOfClaim(u, d, s);
        assert SameRow(t, u, i);
        ClaimOfLiveRow(t, d, i);
      }
    }
  }

  lemma BookElsewhere(t: Tables, h: string, rq: ConfirmRequest, now: int, d: Departure)
    requires LocksPointToBookings(t) && rq.newBookingId !in t.bookings && d != rq.dep
    requires forall i | 0 <= i < |t.locks| :: RowOk(t.locks[i])
    requires forall i | 0 <= i < |t.locks| && t.locks[i].holdId == h :: t.locks[i].dep == rq.dep
    ensures SameOn(t, WithBooking(t, h, rq, now), d)
  {
    NoLockUses(t, rq.newBookingId);
  }

  /** The tables a confirm can leave. */
  predicate ConfirmLeaves(t: Tables, swept: Tables, rq: ConfirmRequest, now: int, u: Tables) {
    || u == t || u == swept
    || (rq.newBookingId !in swept.bookings && CheckHold(swept, rq, now).Passes?
        && u == WithBooking(swept, CheckHold(swept, rq, now).hold.holdId, rq, now))
  }

  lemma ConfirmCases(t: Tables, rq: ConfirmRequest, now: int)
    ensures ConfirmLeaves(t, SweepTables(t, Only({rq.dep}), now), rq, now, Confirm(t, rq, now).0)
  {
  }

  lemma SweepElsewhere(t: Tables, dep: Departure, now: int, d: Departure)
    requires d != dep
    ensures SameOn(t, t, d) && SameOn(t, SweepTables(t, Only({dep}), now), d)
  {
  }

  lemma ConfirmSameOn(t: Tables, swept: Tables, rq: ConfirmRequest, now: int, d: Departure, u: Tables)
    requires Inv(swept) && d != rq.dep && swept == SweepTables(t, Only({rq.dep}), now) && ConfirmLeaves(t, swept, rq, now, u)
    ensures SameOn(t, u, d)
  {
    SweepElsewhere(t, rq.dep, now, d);
    if u != t && u != swept {
      PassedHoldIsOwn(swept, rq, now);
      BookElsewhere(swept, CheckHold(swept, rq, now).hold.holdId, rq, now, d);
      SameOnTransitive(t, swept, u, d);
    }
  }

  /** A confirmation moves no claim on another departure. */
  lemma ConfirmElsewhere(t: Tables, rq: ConfirmRequest, now: int, d: Departure)
    requires Inv(t) && d != rq.dep
    ensures ClaimsOn(Confirm(t, rq, now).0, d) == ClaimsOn(t, d)
  {
    SweepKeepsInv(t, Only({rq.dep}), now);
    ConfirmCases(t, rq, now);
    ConfirmSameOn(t, SweepTables(t, Only({rq.dep}), now), rq, now, d, Confirm(t, rq, now).0);
    ConfirmKeepsInv(t, rq, now);
    SameClaims(t, Confirm(t, rq, now).0, d);
  }

  lemma BookedClaims(t: Tables, h: string, rq: ConfirmRequest, now: int)
    requires Inv(t) && rq.newBookingId !in t.bookings
    requires Named(rq.manifest) == HoldSeats(t.locks, h)
    requires forall i | 0 <= i < |t.locks| && t.locks[i].holdId == h :: t.locks[i].dep == rq.dep && t.locks[i].state.HELD?
    ensures HoldsBooked(ClaimsOn(t, rq.dep), ClaimsOn(WithBooking(t, h, rq, now), rq.dep), Named(rq.manifest))
  {
    var u := WithBooking(t, h, rq, now);
    NoLockUses(t, rq.newBookingId);
    BookKeepsLocksOk(t.locks, h, rq.newBookingId);
    forall s ensures BooksClaim(ClaimsOn(t, rq.dep), ClaimsOn(u, rq.dep), Named(rq.manifest), s) {
      if s in Named(rq.manifest) {
        HeldBecomesBooked(t, h, rq, now, s, u);
      } else {
        OtherClaimStays(t, h, rq, now, s, u);
      }
    }
    ClaimsBooked(ClaimsOn(t, rq.dep), ClaimsOn(u, rq.dep), Named(rq.manifest));
  }

  /** Pointwise: a named seat's hold becomes a booking of the same rider, any other claim stays. */
  predicate BooksClaim(before: Claims, after: Claims, named: set<SeatId>, s: SeatId) {
    && (s in named ==> s in before && s in after && before[s].HeldClaim? && after[s].BookedClaim? && before[s].identity == after[s].identity)
    && (s !in named ==> (s in before <==> s in after) && (s in before ==> before[s] == after[s]))
  }

  lemma ClaimsBooked(before: Claims, after: Claims, named: set<SeatId>)
    requires forall s :: BooksClaim(before, after, named, s)
    ensures HoldsBooked(before, after, named)
  {
    assert forall s | s in named :: BooksClaim(before, after, named, s);
    assert forall s | s in before :: BooksClaim(before, after, named, s);
    assert forall s | s in after :: BooksClaim(before, after, named, s);
  }

  lemma HeldBecomesBooked(t: Tables, h: string, rq: ConfirmRequest, now: int, s: SeatId, u: Tables)
    requires LiveUnique(t.locks) && LiveUnique(u.locks) && u == WithBooking(t, h, rq, now)
    requires s in HoldSeats(t.locks, h)
    requires forall i | 0 <= i < |t.locks| && t.locks[i].holdId == h :: t.locks[i].dep == rq.dep && t.locks[i].state.HELD?
    ensures var before, after := ClaimsOn(t, rq.dep), ClaimsOn(u, rq.dep);
      s in before && s in after && before[s].HeldClaim? && after[s].BookedClaim? && before[s].identity == after[s].identity
  {
    var i :| 0 <= i < |t.locks| && t.locks[i].holdId == h && t.locks[i].seatId == s;
    ClaimOfLiveRow(t, rq.dep, i);
    ClaimOfLiveRow(u, rq.dep, i);
  }

  lemma OtherClaimStays(t: Tables, h: string, rq: ConfirmRequest, now: int, s: SeatId, u: Tables)
    requires KeysOk(t) && LocksPointToBookings(t) && LocksOk(t.locks) && rq.newBookingId !in t.bookings
    requires LiveUnique(u.locks) && u == WithBooking(t, h, rq, now)
    requires Named(rq.manifest) == HoldSeats(t.locks, h) && s !in Named(rq.manifest)
    ensures var before, after := ClaimsOn(t, rq.dep), ClaimsOn(u, rq.dep);
      (s in before <==> s in after) && (s in before ==> before[s] == after[s])
  {
    if s in ClaimsOn(t, rq.dep) {
      var i := LiveRowOfClaim(t, rq.dep, s);
      OtherClaim(t, h, rq, now, i);
      ClaimOfLiveRow(u, rq.dep, i);
    }
    if s in ClaimsOn(u, rq.dep) {
      var i := LiveRowOfClaim(u, rq.dep, s);
      OtherClaim(t, h, rq, now, i);
      ClaimOfLiveRow(t, rq.dep, i);
    }
  }

  lemma OtherClaim(t: Tables, h: string, rq: ConfirmRequest, now: int, i: nat)
    requires KeysOk(t) && LocksPointToBookings(t) && HoldsCoherent(t.locks) && rq.newBookingId !in t.bookings
    requires Named(rq.manifest) == HoldSeats(t.locks, h)
    requires i < |t.locks| && t.locks[i].seatId !in Named(rq.manifest)
    ensures WithBooking(t, h, rq, now).locks[i] == t.locks[i]
    ensures Live(t.locks[i]) ==> ClaimOfRow(WithBooking(t, h, rq, now).seats, t.locks[i]) == ClaimOfRow(t.seats, t.locks[i])
  {
    assert t.locks[i].holdId != h;
    assert RowOk(t.locks[i]);
  }
}
