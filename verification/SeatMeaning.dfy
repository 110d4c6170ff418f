/**
 * What a published seat state means (`src/reserved/seatstate.ts`): each of the six states holds exactly
 * when the lock rows, the seeded seats and the neighbours are as it says.
 */
module SeatMeaning {
  import opened Basics
  import opened SeatMap
  import opened Locks
  import opened Store
  import opened StoreInvariant
  import opened Actions
  import opened Reachable
  import opened Outcomes
  import opened SeatFrames

  /* ---- rows on a seat ---- */

  predicate BookedAt(locks: seq<LockRow>, dep: Departure, s: SeatId, i: nat) {
    i < |locks| && On(locks[i], dep, s) && locks[i].state.BOOKED?
  }

  predicate HeldAt(locks: seq<LockRow>, dep: Departure, s: SeatId, now: int, i: nat) {
    i < |locks| && On(locks[i], dep, s) && Running(locks[i], now)
  }

  ghost predicate IsBooked(locks: seq<LockRow>, dep: Departure, s: SeatId) {
    exists i: nat :: BookedAt(locks, dep, s, i)
  }

  ghost predicate IsHeld(locks: seq<LockRow>, dep: Departure, s: SeatId, now: int) {
    exists i: nat :: HeldAt(locks, dep, s, now, i)
  }

  /** Neither booked, nor under a running hold, nor sold by the simulation. */
  ghost predicate IsFree(t: Tables, coach: Coach, dep: Departure, s: SeatId, now: int) {
    !IsBooked(t.locks, dep, s) && !IsHeld(t.locks, dep, s, now) && s !in coach.seeded
  }

  /** A woman of another party than the viewer's is booked on `n`: lock row `i`, seat row `k`. */
  predicate WomanBookedAt(t: Tables, dep: Departure, n: SeatId, viewer: Option<Identity>, i: nat, k: nat) {
    && BookedAt(t.locks, dep, n, i) && viewer != Some(t.locks[i].buyer.identity)
    && t.locks[i].bookingId.Some? && t.locks[i].bookingId.value in t.seats
    && var rows := t.seats[t.locks[i].bookingId.value];
       k < |rows| && rows[k].seatId == n && rows[k].gender == Some(Female)
  }

  /** A seat with a woman on it who locks the seats beside her: booked, or seeded on a seat nobody claims. */
  ghost predicate WomanOn(t: Tables, coach: Coach, dep: Departure, n: SeatId, now: int, viewer: Option<Identity>) {
    || (exists i: nat, k: nat :: WomanBookedAt(t, dep, n, viewer, i, k))
    || (!IsBooked(t.locks, dep, n) && !IsHeld(t.locks, dep, n, now) && n in coach.seeded && coach.seeded[n] == Female)
  }

  ghost predicate BesideAWoman(t: Tables, coach: Coach, dep: Departure, s: SeatId, now: int, viewer: Option<Identity>) {
    && FindSeat(coach.seats, s).Some?
    && exists n | n in FindSeat(coach.seats, s).value.adjacent :: WomanOn(t, coach, dep, n, now, viewer)
  }

  /* ---- claims after a sweep ---- */

  /** The tables a look at a departure leaves. */
  function Looked(t: Tables, dep: Departure, now: int): Tables {
    SweepTables(t, Only({dep}), now)
  }

  lemma BookedClaimMeans(t: Tables, dep: Departure, now: int, s: SeatId, i: nat)
    requires LocksOk(t.locks) && BookedAt(t.locks, dep, s, i)
    ensures var claims := ClaimsOn(Looked(t, dep, now), dep);
      s in claims && claims[s] == ClaimOfRow(t.seats, t.locks[i]) && claims[s].BookedClaim?
  {
    SweepKeepsLocksOk(t.locks, Only({dep}), now);
    assert Looked(t, dep, now).locks[i] == t.locks[i];
    ClaimOfLiveRow(Looked(t, dep, now), dep, i);
  }

  lemma HeldClaimMeans(t: Tables, dep: Departure, now: int, s: SeatId, i: nat)
    requires LocksOk(t.locks) && HeldAt(t.locks, dep, s, now, i)
    ensures var claims := ClaimsOn(Looked(t, dep, now), dep);
      s in claims && claims[s] == HeldClaim(t.locks[i].holdId, t.locks[i].buyer.identity)
  {
    SweepKeepsLocksOk(t.locks, Only({dep}), now);
    assert Looked(t, dep, now).locks[i] == t.locks[i];
    ClaimOfLiveRow(Looked(t, dep, now), dep, i);
  }

  lemma ClaimMeans(t: Tables, dep: Departure, now: int, s: SeatId)
    requires LocksOk(t.locks)
    ensures var claims := ClaimsOn(Looked(t, dep, now), dep);
      && (s in claims && claims[s].BookedClaim? <==> IsBooked(t.locks, dep, s))
      && (s in claims && claims[s].HeldClaim? <==> IsHeld(t.locks, dep, s, now))
      && (s in claims <==> IsBooked(t.locks, dep, s) || IsHeld(t.locks, dep, s, now))
  {
    var swept := Looked(t, dep, now);
    if s in ClaimsOn(swept, dep) {
      var i := LiveRowOfClaim(swept, dep, s);
      assert swept.locks[i] == t.locks[i] && RowOk(t.locks[i]);
      assert BookedAt(t.locks, dep, s, i) || HeldAt(t.locks, dep, s, now, i);
    }
    if IsBooked(t.locks, dep, s) {
      var i: nat :| BookedAt(t.locks, dep, s, i);
      BookedClaimMeans(t, dep, now, s, i);
    }
    if IsHeld(t.locks, dep, s, now) {
      var i: nat :| HeldAt(t.locks, dep, s, now, i);
      HeldClaimMeans(t, dep, now, s, i);
    }
  }

  /* ---- neighbours ---- */

  lemma {:induction false} GenderMeans(rows: seq<SeatRow>, s: SeatId)
    requires DistinctRows(rows)
    ensures GenderOf(rows, s) == Some(Female) <==> exists k | 0 <= k < |rows| :: rows[k].seatId == s && rows[k].gender == Some(Female)
  {
    if rows != [] {
      assert forall k | 0 <= k < |rows| - 1 :: rows[1..][k] == rows[k + 1];
      GenderMeans(rows[1..], s);
    }
  }

  /** A booked claim locks its neighbours by the gender its seat row carries. */
  lemma BookedClaimLocks(t: Tables, coach: Coach, dep: Departure, n: SeatId, now: int, viewer: Option<Identity>, i: nat)
    requires LocksOk(t.locks) && BookedAt(t.locks, dep, n, i) && t.locks[i].bookingId.Some? && t.locks[i].bookingId.value in t.seats
    ensures LocksNeighbours(n, coach, ClaimsOn(Looked(t, dep, now), dep), viewer)
       <==> GenderOf(t.seats[t.locks[i].bookingId.value], n) == Some(Female) && viewer != Some(t.locks[i].buyer.identity)
  {
    BookedClaimMeans(t, dep, now, n, i);
  }

  lemma WomanRow(t: Tables, dep: Departure, n: SeatId, viewer: Option<Identity>, i: nat)
    requires BookedAt(t.locks, dep, n, i) && t.locks[i].bookingId.Some? && t.locks[i].bookingId.value in t.seats
    requires DistinctRows(t.seats[t.locks[i].bookingId.value])
    ensures (exists k: nat :: WomanBookedAt(t, dep, n, viewer, i, k))
       <==> GenderOf(t.seats[t.locks[i].bookingId.value], n) == Some(Female) && viewer != Some(t.locks[i].buyer.identity)
  {
    var rows := t.seats[t.locks[i].bookingId.value];
    GenderMeans(rows, n);
    if GenderOf(rows, n) == Some(Female) && viewer != Some(t.locks[i].buyer.identity) {
      var k :| 0 <= k < |rows| && rows[k].seatId == n && rows[k].gender == Some(Female);
      assert WomanBookedAt(t, dep, n, viewer, i, k);
    }
  }

  lemma BookedWomanMeans(t: Tables, coach: Coach, dep: Departure, n: SeatId, now: int, viewer: Option<Identity>, i: nat)
    requires Inv(t) && BookedAt(t.locks, dep, n, i)
    ensures LocksNeighbours(n, coach, ClaimsOn(Looked(t, dep, now), dep), viewer) <==> exists k: nat :: WomanBookedAt(t, dep, n, viewer, i, k)
  {
    assert RowOk(t.locks[i]);
    var b := t.locks[i].bookingId.value;
    assert b in t.bookings && b in t.seats && BookingOk(t.bookings[b], t.seats[b]);
    BookedClaimLocks(t, coach, dep, n, now, viewer, i);
    WomanRow(t, dep, n, viewer, i);
  }

  lemma OneBookedRow(locks: seq<LockRow>, dep: Departure, s: SeatId, i: nat, j: nat)
    requires LiveUnique(locks) && BookedAt(locks, dep, s, i) && BookedAt(locks, dep, s, j)
    ensures i == j
  {
    assert i < j || j < i || i == j;
  }

  lemma LocksNeighboursMeans(t: Tables, coach: Coach, dep: Departure, n: SeatId, now: int, viewer: Option<Identity>)
    requires Inv(t)
    ensures LocksNeighbours(n, coach, ClaimsOn(Looked(t, dep, now), dep), viewer) <==> WomanOn(t, coach, dep, n, now, viewer)
  {
    ClaimMeans(t, dep, now, n);
    if IsBooked(t.locks, dep, n) {
      var i: nat :| BookedAt(t.locks, dep, n, i);
      BookedWomanMeans(t, coach, dep, n, now, viewer, i);
      forall j: nat, k: nat | WomanBookedAt(t, dep, n, viewer, j, k) ensures WomanBookedAt(t, dep, n, viewer, i, k) {
        OneBookedRow(t.locks, dep, n, i, j);
      }
    }
  }

  lemma BesideMeans(t: Tables, coach: Coach, dep: Departure, s: SeatId, now: int, viewer: Option<Identity>)
    requires Inv(t)
    ensures IsFemaleOnly(s, coach, ClaimsOn(Looked(t, dep, now), dep), viewer) <==> BesideAWoman(t, coach, dep, s, now, viewer)
  {
    forall n ensures LocksNeighbours(n, coach, ClaimsOn(Looked(t, dep, now), dep), viewer) <==> WomanOn(t, coach, dep, n, now, viewer) {
      LocksNeighboursMeans(t, coach, dep, n, now, viewer);
    }
  }

  /* ---- the six states ---- */

  ghost predicate HeldByViewer(t: Tables, dep: Departure, s: SeatId, now: int, viewer: Option<Identity>) {
    exists i: nat :: HeldAt(t.locks, dep, s, now, i) && viewer == Some(t.locks[i].buyer.identity)
  }

  ghost predicate HeldByAnother(t: Tables, dep: Departure, s: SeatId, now: int, viewer: Option<Identity>) {
    exists i: nat :: HeldAt(t.locks, dep, s, now, i) && viewer != Some(t.locks[i].buyer.identity)
  }

  lemma HeldMeans(t: Tables, coach: Coach, dep: Departure, s: SeatId, now: int, viewer: Option<Identity>)
    requires LocksOk(t.locks)
    ensures var state := StateOf(s, coach, ClaimsOn(Looked(t, dep, now), dep), viewer);
      && (state == HELD_BY_YOU <==> HeldByViewer(t, dep, s, now, viewer))
      && (state == HELD_BY_OTHER <==> HeldByAnother(t, dep, s, now, viewer))
  {
    ClaimMeans(t, dep, now, s);
    forall i: nat | HeldAt(t.locks, dep, s, now, i)
      ensures var claims := ClaimsOn(Looked(t, dep, now), dep);
        s in claims && claims[s] == HeldClaim(t.locks[i].holdId, t.locks[i].buyer.identity)
    {
      HeldClaimMeans(t, dep, now, s, i);
    }
  }

  /** What each state says of the rows. */
  ghost predicate Means(state: SeatState, t: Tables, coach: Coach, dep: Departure, s: SeatId, now: int, viewer: Option<Identity>) {
    match state
    case SOLD_BOOKED => IsBooked(t.locks, dep, s)
    case HELD_BY_YOU => HeldByViewer(t, dep, s, now, viewer)
    case HELD_BY_OTHER => HeldByAnother(t, dep, s, now, viewer)
    case SOLD_SIMULATED => !IsBooked(t.locks, dep, s) && !IsHeld(t.locks, dep, s, now) && s in coach.seeded
    case FEMALE_ONLY => IsFree(t, coach, dep, s, now) && BesideAWoman(t, coach, dep, s, now, viewer)
    case AVAILABLE => IsFree(t, coach, dep, s, now) && !BesideAWoman(t, coach, dep, s, now, viewer)
  }

  /**
   * The published state of a seat, for any viewer, read off the rows as they stand: a booking sells it, a
   * running hold shows as the viewer's own or as somebody else's, a seeded seat as sold by the
   * simulation, and a free seat as female-only exactly beside a woman of another party.
   */
  lemma PublishedExactly(t: Tables, coach: Coach, dep: Departure, s: SeatId, now: int, viewer: Option<Identity>, state: SeatState)
    requires Inv(t)
    ensures StateOf(s, coach, ClaimsOn(Looked(t, dep, now), dep), viewer) == state <==> Means(state, t, coach, dep, s, now, viewer)
  {
    ClaimMeans(t, dep, now, s);
    HeldMeans(t, coach, dep, s, now, viewer);
    BesideMeans(t, coach, dep, s, now, viewer);
  }

  /** So it is after any run, of the claims a look at a departure answers with. */
  lemma PublishedAfterAnyRun(fleet: Fleet, trace: seq<Event>, dep: Departure, s: SeatId, now: int, viewer: Option<Identity>, state: SeatState)
    requires dep in fleet
    ensures var t := Run(fleet, EMPTY, trace).0; var answer := Step(fleet, t, Look({dep}), now).1;
      && answer.Seen? && dep in answer.claims
      && (StateOf(s, fleet[dep], answer.claims[dep], viewer) == state <==> Means(state, t, fleet[dep], dep, s, now, viewer))
  {
    ReachableInv(fleet, trace);
    PublishedExactly(Run(fleet, EMPTY, trace).0, fleet[dep], dep, s, now, viewer, state);
  }

  /* ---- your own hold ---- */

  lemma ClaimShows(t: Tables, coach: Coach, dep: Departure, s: SeatId, viewer: Option<Identity>, i: nat)
    requires LiveUnique(t.locks) && i < |t.locks| && On(t.locks[i], dep, s) && t.locks[i].state.HELD?
    ensures StateOf(s, coach, ClaimsOn(t, dep), viewer) == if viewer == Some(t.locks[i].buyer.identity) then HELD_BY_YOU else HELD_BY_OTHER
  {
    ClaimOfLiveRow(t, dep, i);
  }

  lemma RowOfAcquired(locks: seq<LockRow>, acq: AcquireRequest, now: int, after: seq<LockRow>, hold: HoldRecord, s: SeatId) returns (i: nat)
    requires LocksOk(locks) && Acquire(locks, acq, now) == (after, Acquired(hold)) && s in acq.seatIds
    ensures i < |after| && On(after[i], acq.dep, s) && after[i].state.HELD? && after[i].buyer == acq.buyer
  {
    AcquiredShape(locks, acq, now, after, hold);
    if Reselects(locks, acq, now) {
      SweepKeepsLocksOk(locks, Only({acq.dep}), now);
      var n := NewestRow(after, acq.buyer).value;
      HoldSeatsListed(after, n);
      assert s in Elements(hold.seatIds);
      i :| 0 <= i < |after| && after[i].holdId == after[n].holdId && after[i].seatId == s;
      OneRowDecides(after, n, i);
    } else {
      i := InsertedRow(Freed(locks, acq, now), acq, now, s);
    }
  }

  /** The seats a select has just acquired read HELD_BY_YOU to that buyer and HELD to everybody else. */
  lemma SelectShowsYourHold(fleet: Fleet, t: Tables, acq: AcquireRequest, now: int, viewer: Option<Identity>, s: SeatId)
    requires Inv(t) && s in acq.seatIds
    requires var answer := SelectSeats(fleet, t, acq, now).1; answer.Selected? && answer.acquired.Acquired?
    ensures StateOf(s, fleet[acq.dep], ClaimsOn(SelectSeats(fleet, t, acq, now).0, acq.dep), viewer)
         == if viewer == Some(acq.buyer.identity) then HELD_BY_YOU else HELD_BY_OTHER
  {
    var swept := Sweep(t.locks, Only({acq.dep}), now);
    var (u, answer) := SelectSeats(fleet, t, acq, now);
    SweepKeepsLocksOk(t.locks, Only({acq.dep}), now);
    AcquireKeepsLocksOk(swept, acq, now);
    assert Acquire(swept, acq, now) == (u.locks, Acquired(answer.acquired.hold));
    var i := RowOfAcquired(swept, acq, now, u.locks, answer.acquired.hold, s);
    ClaimShows(u, fleet[acq.dep], acq.dep, s, viewer, i);
  }
}
