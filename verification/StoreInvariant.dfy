/** The invariant that every action on the reserved tables keeps, at whatever instant it runs. */
module StoreInvariant {
  import opened Basics
  import opened Locks
  import opened Refund
  import opened Store

  /* ---- per booking ---- */

  /** A cancelled seat carries the slab of its own instant and the refund of that slab. */
  predicate SeatRowOk(r: SeatRow, departureAt: int) {
    match r.status
    case CONFIRMED => r.cancelledAt.None? && r.refund.None? && r.slab.None?
    case CANCELLED =>
      && r.cancelledAt.Some?
      && r.slab == Some(SlabFor(departureAt, r.cancelledAt.value))
      && r.refund == Some(SeatRefund(r.fare, Percent(r.slab.value)))
  }

  predicate BookingOk(bk: Booking, rows: seq<SeatRow>) {
    && rows != [] && DistinctRows(rows)
    && bk.total == SumFare(rows)
    && bk.refund.GetOr(0) == SumRefund(rows)
    && (bk.status.CANCELLED? <==> CountConfirmed(rows) == 0)
    && (forall k | 0 <= k < |rows| :: SeatRowOk(rows[k], bk.departureAt))
  }

  function BookedSeats(locks: seq<LockRow>, b: string): set<SeatId> {
    set i | 0 <= i < |locks| && locks[i].state.BOOKED? && locks[i].bookingId == Some(b) :: locks[i].seatId
  }

  function ConfirmedSeats(rows: seq<SeatRow>): set<SeatId> {
    set k | 0 <= k < |rows| && rows[k].status.CONFIRMED? :: rows[k].seatId
  }

  /* ---- quotes ---- */

  /** What a set of a booking's seats is worth in a slab. */
  function RefundOfSeats(rows: seq<SeatRow>, ids: seq<SeatId>, percent: nat): nat
    requires percent <= 100
  {
    if rows == [] then 0
    else (if rows[0].seatId in ids then SeatRefund(rows[0].fare, percent) else 0) + RefundOfSeats(rows[1..], ids, percent)
  }

  predicate QuoteOk(q: Quote, seats: map<string, seq<SeatRow>>) {
    && q.bookingId in seats
    && q.seatIds != [] && Ascending(q.seatIds)
    && (forall s | s in q.seatIds :: s in RowIds(seats[q.bookingId]))
    && q.percent == Percent(q.slab)
    && q.refund == RefundOfSeats(seats[q.bookingId], q.seatIds, q.percent)
    && q.expiresAt == q.quotedAt + QUOTE_MS
  }

  /* ---- the whole ---- */

  predicate KeysOk(t: Tables) {
    && Distinct(t.sold)
    && (forall b | b in t.sold :: b in t.bookings) && (forall b | b in t.bookings :: b in t.sold)
    && t.seats.Keys == t.bookings.Keys
    && (forall b, c | b in t.bookings && c in t.bookings && b != c :: t.bookings[b].buyer != t.bookings[c].buyer)
  }

  predicate LocksPointToBookings(t: Tables) {
    forall i | 0 <= i < |t.locks| && t.locks[i].bookingId.Some? ::
      && t.locks[i].bookingId.value in t.bookings
      && t.bookings[t.locks[i].bookingId.value].dep == t.locks[i].dep
      && t.bookings[t.locks[i].bookingId.value].buyer == t.locks[i].buyer
  }

  predicate BookingsOk(t: Tables) {
    forall b | b in t.bookings && b in t.seats ::
      BookingOk(t.bookings[b], t.seats[b]) && BookedSeats(t.locks, b) == ConfirmedSeats(t.seats[b])
  }

  predicate QuotesOk(t: Tables) {
    forall q | q in t.quotes :: QuoteOk(t.quotes[q], t.seats)
  }

  predicate Inv(t: Tables) {
    LocksOk(t.locks) && KeysOk(t) && LocksPointToBookings(t) && BookingsOk(t) && QuotesOk(t)
  }

  lemma EmptyIsOk()
    ensures Inv(EMPTY)
  {
  }

  /* ---- sweeps and holds leave the bookings alone ---- */

  /** Row by row, the lock keeps its place, its booking and whether it is booked. */
  predicate SameBookings(before: seq<LockRow>, after: seq<LockRow>) {
    && |before| <= |after|
    && (forall i | 0 <= i < |before| ::
          && after[i].bookingId == before[i].bookingId && after[i].dep == before[i].dep && after[i].buyer == before[i].buyer
          && after[i].seatId == before[i].seatId && (after[i].state.BOOKED? <==> before[i].state.BOOKED?))
    && (forall i | |before| <= i < |after| :: after[i].bookingId.None? && !after[i].state.BOOKED?)
  }

  lemma SameBookingsKeepInv(t: Tables, locks: seq<LockRow>)
    requires Inv(t) && LocksOk(locks) && SameBookings(t.locks, locks)
    ensures Inv(t.(locks := locks))
  {
    forall b | b in t.bookings && b in t.seats ensures BookedSeats(locks, b) == BookedSeats(t.locks, b) {
      forall s ensures s in BookedSeats(locks, b) <==> s in BookedSeats(t.locks, b) {
        if s in BookedSeats(locks, b) {
          var i :| 0 <= i < |locks| && locks[i].state.BOOKED? && locks[i].bookingId == Some(b) && locks[i].seatId == s;
          assert t.locks[i].seatId == s;
        }
        if s in BookedSeats(t.locks, b) {
          var i :| 0 <= i < |t.locks| && t.locks[i].state.BOOKED? && t.locks[i].bookingId == Some(b) && t.locks[i].seatId == s;
          assert locks[i].seatId == s;
        }
      }
    }
  }

  lemma SweepKeepsInv(t: Tables, scope: Scope, now: int)
    requires Inv(t)
    ensures Inv(SweepTables(t, scope, now))
  {
    SweepKeepsLocksOk(t.locks, scope, now);
    SameBookingsKeepInv(t, Sweep(t.locks, scope, now));
  }

  lemma FreedSameBookings(locks: seq<LockRow>, rq: AcquireRequest, now: int)
    ensures SameBookings(locks, Swept(locks, rq, now)) && |Swept(locks, rq, now)| == |locks|
    ensures SameBookings(locks, Freed(locks, rq, now)) && |Freed(locks, rq, now)| == |locks|
  {
  }

  lemma InsertSameBookings(locks: seq<LockRow>, freed: seq<LockRow>, rq: AcquireRequest, seatIds: seq<SeatId>, now: int)
    requires SameBookings(locks, freed) && |freed| == |locks|
    ensures SameBookings(locks, freed + NewRows(rq, seatIds, now))
  {
    var rows := NewRows(rq, seatIds, now);
    forall i | |locks| <= i < |freed + rows| ensures (freed + rows)[i] == rows[i - |freed|] {}
  }

  lemma AcquireSameBookings(locks: seq<LockRow>, rq: AcquireRequest, now: int)
    ensures SameBookings(locks, Acquire(locks, rq, now).0)
  {
    FreedSameBookings(locks, rq, now);
    InsertSameBookings(locks, Freed(locks, rq, now), rq, SortedDistinct(rq.seatIds), now);
    var after := Acquire(locks, rq, now).0;
    assert after == locks || after == Swept(locks, rq, now)
        || after == Freed(locks, rq, now) + NewRows(rq, SortedDistinct(rq.seatIds), now);
  }

  lemma AcquireKeepsInv(t: Tables, rq: AcquireRequest, now: int)
    requires Inv(t)
    ensures Inv(t.(locks := Acquire(t.locks, rq, now).0))
  {
    AcquireKeepsLocksOk(t.locks, rq, now);
    AcquireSameBookings(t.locks, rq, now);
    SameBookingsKeepInv(t, Acquire(t.locks, rq, now).0);
  }

  /* ---- retention ---- */

  lemma {:induction false} ForgetSums(rows: seq<SeatRow>)
    ensures SumFare(ForgetRows(rows)) == SumFare(rows) && SumRefund(ForgetRows(rows)) == SumRefund(rows)
    ensures CountConfirmed(ForgetRows(rows)) == CountConfirmed(rows)
  {
    if rows != [] {
      ForgetSums(rows[1..]);
      assert ForgetRows(rows)[1..] == ForgetRows(rows[1..]);
    }
  }

  lemma {:induction false} ForgetWorth(rows: seq<SeatRow>, ids: seq<SeatId>, percent: nat)
    requires percent <= 100
    ensures RefundOfSeats(ForgetRows(rows), ids, percent) == RefundOfSeats(rows, ids, percent)
  {
    if rows != [] {
      ForgetWorth(rows[1..], ids, percent);
      assert ForgetRows(rows)[1..] == ForgetRows(rows[1..]);
    }
  }

  lemma ForgetIds(rows: seq<SeatRow>)
    ensures RowIds(ForgetRows(rows)) == RowIds(rows) && ConfirmedSeats(ForgetRows(rows)) == ConfirmedSeats(rows)
  {
    var after := ForgetRows(rows);
    forall s ensures s in RowIds(after) <==> s in RowIds(rows) {
      if s in RowIds(rows) {
        var k :| 0 <= k < |rows| && rows[k].seatId == s;
        assert after[k] in after;
      }
      if s in RowIds(after) {
        var k :| 0 <= k < |after| && after[k].seatId == s;
        assert rows[k] in rows;
      }
    }
    forall s ensures s in ConfirmedSeats(after) <==> s in ConfirmedSeats(rows) {
      if s in ConfirmedSeats(rows) {
        var k :| 0 <= k < |rows| && rows[k].status.CONFIRMED? && rows[k].seatId == s;
        assert after[k].seatId == s;
      }
      if s in ConfirmedSeats(after) {
        var k :| 0 <= k < |after| && after[k].status.CONFIRMED? && after[k].seatId == s;
        assert rows[k].seatId == s;
      }
    }
  }

  lemma ForgetBookingOk(bk: Booking, rows: seq<SeatRow>)
    requires BookingOk(bk, rows)
    ensures BookingOk(bk, ForgetRows(rows))
  {
    ForgetSums(rows);
    var after := ForgetRows(rows);
    forall k | 0 <= k < |after| ensures SeatRowOk(after[k], bk.departureAt) {
      assert SeatRowOk(rows[k], bk.departureAt);
    }
  }

  /** `u` is `t` with the manifests of some bookings forgotten. */
  predicate ForgottenTo(t: Tables, u: Tables) {
    && u.locks == t.locks && u.sold == t.sold && u.bookings == t.bookings && u.quotes == t.quotes && u.seats.Keys == t.seats.Keys
    && (forall b | b in t.seats :: u.seats[b] == t.seats[b] || u.seats[b] == ForgetRows(t.seats[b]))
  }

  lemma ForgetBookingsOk(t: Tables, u: Tables)
    requires BookingsOk(t) && ForgottenTo(t, u)
    ensures BookingsOk(u)
  {
    forall b | b in u.bookings && b in u.seats
      ensures BookingOk(u.bookings[b], u.seats[b]) && BookedSeats(u.locks, b) == ConfirmedSeats(u.seats[b])
    {
      assert BookingOk(t.bookings[b], t.seats[b]);
      ForgetBookingOk(t.bookings[b], t.seats[b]);
      ForgetIds(t.seats[b]);
    }
  }

  lemma ForgetQuotesOk(t: Tables, u: Tables)
    requires QuotesOk(t) && ForgottenTo(t, u)
    ensures QuotesOk(u)
  {
    forall q | q in u.quotes ensures QuoteOk(u.quotes[q], u.seats) {
      var quote := t.quotes[q];
      assert QuoteOk(quote, t.seats);
      ForgetIds(t.seats[quote.bookingId]);
      ForgetWorth(t.seats[quote.bookingId], quote.seatIds, quote.percent);
    }
  }

  /** Forgetting who sat where keeps the invariant. */
  lemma ForgettingKeepsInv(t: Tables, u: Tables)
    requires Inv(t) && ForgottenTo(t, u)
    ensures Inv(u)
  {
    ForgetBookingsOk(t, u);
    ForgetQuotesOk(t, u);
  }

  /* ---- confirm ---- */

  lemma BookKeepsCoherent(locks: seq<LockRow>, holdId: string, b: string)
    requires HoldsCoherent(locks)
    ensures HoldsCoherent(BookHold(locks, holdId, b))
  {
    var after := BookHold(locks, holdId, b);
    forall i, j | 0 <= i < j < |after| ensures Coherent(after[i], after[j]) {
      assert Coherent(locks[i], locks[j]);
    }
  }

  lemma BookKeepsLocksOk(locks: seq<LockRow>, holdId: string, b: string)
    requires LocksOk(locks)
    requires forall i | 0 <= i < |locks| :: locks[i].bookingId != Some(b)
    ensures LocksOk(BookHold(locks, holdId, b))
  {
    BookKeepsCoherent(locks, holdId, b);
  }

  /** The seats whose HELD row carries a hold id. */
  function HeldSeats(locks: seq<LockRow>, holdId: string): set<SeatId> {
    set i | 0 <= i < |locks| && locks[i].holdId == holdId && locks[i].state.HELD? :: locks[i].seatId
  }

  lemma {:induction false} HeldCountIsSize(locks: seq<LockRow>, holdId: string)
    requires HoldsCoherent(locks)
    ensures HeldCount(locks, holdId) == |HeldSeats(locks, holdId)|
  {
    if locks != [] {
      assert forall i, j | 0 <= i < j < |locks[1..]| :: locks[1..][i] == locks[i + 1] && locks[1..][j] == locks[j + 1];
      HeldCountIsSize(locks[1..], holdId);
      var rest := HeldSeats(locks[1..], holdId);
      if locks[0].holdId == holdId && locks[0].state.HELD? {
        assert HeldSeats(locks, holdId) == rest + {locks[0].seatId} by {
          HeldSeatsCons(locks, holdId);
        }
        assert locks[0].seatId !in rest by {
          forall i | 0 <= i < |locks[1..]| && locks[1..][i].holdId == holdId ensures locks[1..][i].seatId != locks[0].seatId {
            assert Coherent(locks[0], locks[i + 1]);
          }
        }
      } else {
        HeldSeatsCons(locks, holdId);
      }
    }
  }

  lemma HeldSeatsCons(locks: seq<LockRow>, holdId: string)
    requires locks != []
    ensures HeldSeats(locks, holdId) == HeldSeats(locks[1..], holdId)
      + if locks[0].holdId == holdId && locks[0].state.HELD? then {locks[0].seatId} else {}
  {
    var whole, rest := HeldSeats(locks, holdId), HeldSeats(locks[1..], holdId);
    forall s | s in rest ensures s in whole {
      var i :| 0 <= i < |locks[1..]| && locks[1..][i].holdId == holdId && locks[1..][i].state.HELD? && locks[1..][i].seatId == s;
      assert locks[i + 1].seatId == s;
    }
    forall s | s in whole ensures s in rest || (locks[0].holdId == holdId && locks[0].state.HELD? && s == locks[0].seatId) {
      var i :| 0 <= i < |locks| && locks[i].holdId == holdId && locks[i].state.HELD? && locks[i].seatId == s;
      if i > 0 {
        assert locks[1..][i - 1].seatId == s;
      }
    }
  }

  /** The seats of every row of a hold, whatever its state. */
  function HoldSeats(locks: seq<LockRow>, holdId: string): set<SeatId> {
    set i | 0 <= i < |locks| && locks[i].holdId == holdId :: locks[i].seatId
  }

  /** Either every row of a hold is HELD or none is: confirm's UPDATE moves all of it or nothing. */
  lemma HeldAllOrNone(locks: seq<LockRow>, holdId: string)
    requires HoldsCoherent(locks)
    ensures HeldSeats(locks, holdId) == HoldSeats(locks, holdId) || HeldSeats(locks, holdId) == {}
  {
    if HeldSeats(locks, holdId) != {} {
      var s :| s in HeldSeats(locks, holdId);
      var i :| 0 <= i < |locks| && locks[i].holdId == holdId && locks[i].state.HELD? && locks[i].seatId == s;
      forall j | 0 <= j < |locks| && locks[j].holdId == holdId ensures locks[j].state.HELD? {
        OneRowDecides(locks, i, j);
      }
    }
  }

  /** So with a manifest that names the hold's seats once each, the count test is exact. */
  lemma CountTestIsExact(locks: seq<LockRow>, holdId: string, manifest: seq<Passenger>)
    requires HoldsCoherent(locks)
    requires DistinctPassengers(manifest) && manifest != [] && Named(manifest) == HoldSeats(locks, holdId)
    ensures HeldCount(locks, holdId) == |manifest| <==> HeldSeats(locks, holdId) == Named(manifest)
    ensures HeldCount(locks, holdId) != |manifest| <==> HeldSeats(locks, holdId) == {}
  {
    HeldCountIsSize(locks, holdId);
    HeldAllOrNone(locks, holdId);
    NamedSize(manifest);
    assert manifest[0].seatId in Named(manifest);
  }

  lemma NamedSize(manifest: seq<Passenger>)
    requires DistinctPassengers(manifest)
    ensures |Named(manifest)| == |manifest|
  {
    var ids := seq(|manifest|, i requires 0 <= i < |manifest| => manifest[i].seatId);
    DistinctSize(ids);
    forall s ensures s in Named(manifest) <==> s in Elements(ids) {
      if s in Named(manifest) {
        var p :| p in manifest && p.seatId == s;
        var i :| 0 <= i < |manifest| && manifest[i] == p;
        assert ids[i] == s;
      }
      if s in Elements(ids) {
        var i :| 0 <= i < |ids| && ids[i] == s;
        assert manifest[i] in manifest;
      }
    }
    assert Named(manifest) == Elements(ids);
  }

  lemma {:induction false} FreshRowsSums(rows: seq<SeatRow>)
    requires forall i | 0 <= i < |rows| :: rows[i].status.CONFIRMED? && rows[i].refund.None?
    ensures SumRefund(rows) == 0 && CountConfirmed(rows) == |rows|
  {
    if rows != [] {
      FreshRowsSums(rows[1..]);
    }
  }

  lemma BookedSeatsAfterBook(locks: seq<LockRow>, holdId: string, b: string, c: string)
    requires forall i | 0 <= i < |locks| :: locks[i].bookingId != Some(b)
    requires forall i | 0 <= i < |locks| :: RowOk(locks[i])
    ensures BookedSeats(BookHold(locks, holdId, b), c) == if c == b then HeldSeats(locks, holdId) else BookedSeats(locks, c)
  {
    var after := BookHold(locks, holdId, b);
    var want := if c == b then HeldSeats(locks, holdId) else BookedSeats(locks, c);
    forall s | s in BookedSeats(after, c) ensures s in want {
      var i :| 0 <= i < |after| && after[i].state.BOOKED? && after[i].bookingId == Some(c) && after[i].seatId == s;
      assert locks[i].seatId == s;
    }
    forall s | s in want ensures s in BookedSeats(after, c) {
      var i :| 0 <= i < |locks| && locks[i].seatId == s &&
        (if c == b then locks[i].holdId == holdId && locks[i].state.HELD? else locks[i].state.BOOKED? && locks[i].bookingId == Some(c));
      assert after[i].seatId == s;
    }
  }

  /** The request names the held seats of a hold that is its own and on its departure. */
  predicate BooksItsHold(locks: seq<LockRow>, holdId: string, rq: ConfirmRequest) {
    && rq.manifest != [] && Named(rq.manifest) == HeldSeats(locks, holdId)
    && (forall i | 0 <= i < |locks| && locks[i].holdId == holdId && locks[i].state.HELD? ::
          locks[i].buyer == rq.buyer && locks[i].dep == rq.dep)
  }

  lemma BookingItsHoldKeepsInv(t: Tables, holdId: string, rq: ConfirmRequest, now: int)
    requires Inv(t) && BookingOf(t, rq.buyer).None? && rq.newBookingId !in t.bookings
    requires DistinctPassengers(rq.manifest) && BooksItsHold(t.locks, holdId, rq)
    ensures Inv(WithBooking(t, holdId, rq, now))
  {
    NoLockUses(t, rq.newBookingId);
    BookKeepsLocksOk(t.locks, holdId, rq.newBookingId);
    WithBookingKeys(t, holdId, rq, now);
    WithBookingPointers(t, holdId, rq, now);
    WithBookingBookings(t, holdId, rq, now);
    WithBookingQuotes(t, holdId, rq, now);
  }

  /** What the invariant says of the new booking alone already forces the request to fit its hold. */
  lemma KeptInvMeansItsHold(t: Tables, holdId: string, rq: ConfirmRequest, now: int)
    requires LocksPointToBookings(t) && rq.newBookingId !in t.bookings && forall i | 0 <= i < |t.locks| :: RowOk(t.locks[i])
    requires var t' := WithBooking(t, holdId, rq, now); LocksPointToBookings(t') && BookingsOk(t')
    ensures BooksItsHold(t.locks, holdId, rq)
  {
    var t', b := WithBooking(t, holdId, rq, now), rq.newBookingId;
    assert b in t'.bookings && b in t'.seats;
    NoLockUses(t, b);
    BookedSeatsAfterBook(t.locks, holdId, b, b);
    ConfirmedIsNamed(rq.manifest, rq.fare);
    forall i | 0 <= i < |t.locks| && t.locks[i].holdId == holdId && t.locks[i].state.HELD?
      ensures t.locks[i].buyer == rq.buyer && t.locks[i].dep == rq.dep
    {
      assert t'.locks[i].bookingId == Some(b);
    }
  }

  /** What `confirmBooking` refuses: a row count that is off, a second booking of the buyer, a used id, a seat named twice. */
  predicate RefusesToBook(t: Tables, holdId: string, rq: ConfirmRequest) {
    || HeldCount(t.locks, holdId) != |rq.manifest|
    || BookingOf(t, rq.buyer).Some?
    || rq.newBookingId in t.bookings
    || !DistinctPassengers(rq.manifest)
  }

  lemma BookedExactly(t: Tables, holdId: string, rq: ConfirmRequest, now: int)
    ensures ConfirmBooking(t, holdId, rq, now).1.Booked? <==> !RefusesToBook(t, holdId, rq)
    ensures var out, off, sold := ConfirmBooking(t, holdId, rq, now).1, HeldCount(t.locks, holdId) != |rq.manifest|, BookingOf(t, rq.buyer);
      && (out.HoldExpired? <==> off) && (out.AlreadyBooked? <==> !off && sold.Some?)
      && (out.AlreadyBooked? ==> out.bookingId == sold.value) && (out.Booked? ==> out.bookingId == rq.newBookingId)
    ensures ConfirmBooking(t, holdId, rq, now).0 == if RefusesToBook(t, holdId, rq) then t else WithBooking(t, holdId, rq, now)
  {
    DistinctRowsAreDistinctPassengers(rq.manifest, rq.fare);
  }

  /**
   * `confirmBooking` counts rows and looks at nothing else. It keeps the invariant exactly when one of
   * its guards refuses, or the manifest names the held seats of a hold of the same buyer on the same
   * departure.
   */
  lemma ConfirmBookingKeepsInvExactly(t: Tables, holdId: string, rq: ConfirmRequest, now: int)
    requires Inv(t)
    ensures Inv(ConfirmBooking(t, holdId, rq, now).0) <==> RefusesToBook(t, holdId, rq) || BooksItsHold(t.locks, holdId, rq)
  {
    BookedExactly(t, holdId, rq, now);
    if !RefusesToBook(t, holdId, rq) {
      if BooksItsHold(t.locks, holdId, rq) {
        BookingItsHoldKeepsInv(t, holdId, rq, now);
      }
      if Inv(WithBooking(t, holdId, rq, now)) {
        KeptInvMeansItsHold(t, holdId, rq, now);
      }
    }
  }

  lemma DistinctRowsAreDistinctPassengers(manifest: seq<Passenger>, fare: Fare)
    ensures DistinctRows(SeatRowsFor(manifest, fare)) <==> DistinctPassengers(manifest)
  {
    var rows := SeatRowsFor(manifest, fare);
    forall i | 0 <= i < |manifest| ensures rows[i].seatId == manifest[i].seatId {
    }
  }

  lemma NoLockUses(t: Tables, b: string)
    requires LocksPointToBookings(t) && b !in t.bookings
    ensures forall i | 0 <= i < |t.locks| :: t.locks[i].bookingId != Some(b)
  {
  }

  lemma WithBookingKeys(t: Tables, holdId: string, rq: ConfirmRequest, now: int)
    requires KeysOk(t) && rq.newBookingId !in t.bookings && BookingOf(t, rq.buyer).None?
    ensures KeysOk(WithBooking(t, holdId, rq, now))
  {
    KeysAfterBook(t, rq.newBookingId);
  }

  lemma WithBookingPointers(t: Tables, holdId: string, rq: ConfirmRequest, now: int)
    requires LocksPointToBookings(t) && rq.newBookingId !in t.bookings
    requires forall i | 0 <= i < |t.locks| && t.locks[i].holdId == holdId && t.locks[i].state.HELD? ::
      t.locks[i].buyer == rq.buyer && t.locks[i].dep == rq.dep
    ensures LocksPointToBookings(WithBooking(t, holdId, rq, now))
  {
  }

  lemma WithBookingBookings(t: Tables, holdId: string, rq: ConfirmRequest, now: int)
    requires KeysOk(t) && BookingsOk(t) && HoldsCoherent(t.locks)
    requires forall i | 0 <= i < |t.locks| :: t.locks[i].bookingId != Some(rq.newBookingId)
    requires rq.manifest != [] && DistinctPassengers(rq.manifest) && HeldSeats(t.locks, holdId) == Named(rq.manifest)
    requires rq.newBookingId !in t.bookings
    ensures BookingsOk(WithBooking(t, holdId, rq, now))
  {
    var t' := WithBooking(t, holdId, rq, now);
    var rows := SeatRowsFor(rq.manifest, rq.fare);
    FreshRowsSums(rows);
    ConfirmedIsNamed(rq.manifest, rq.fare);
    forall c | c in t'.bookings && c in t'.seats
      ensures BookingOk(t'.bookings[c], t'.seats[c]) && BookedSeats(t'.locks, c) == ConfirmedSeats(t'.seats[c])
    {
      BookedSeatsAfterBook(t.locks, holdId, rq.newBookingId, c);
    }
  }

  lemma WithBookingQuotes(t: Tables, holdId: string, rq: ConfirmRequest, now: int)
    requires KeysOk(t) && QuotesOk(t) && rq.newBookingId !in t.bookings
    ensures QuotesOk(WithBooking(t, holdId, rq, now))
  {
    forall q | q in t.quotes ensures QuoteOk(t.quotes[q], WithBooking(t, holdId, rq, now).seats) {
      assert QuoteOk(t.quotes[q], t.seats);
    }
  }

  lemma KeysAfterBook(t: Tables, b: string)
    requires KeysOk(t) && b !in t.bookings
    ensures Distinct(t.sold + [b])
  {
    forall i, j | 0 <= i < j < |t.sold + [b]| ensures (t.sold + [b])[i] != (t.sold + [b])[j] {
      assert (t.sold + [b])[i] == t.sold[i];
      assert t.sold[i] in t.bookings;
    }
  }

  lemma ConfirmedIsNamed(manifest: seq<Passenger>, fare: Fare)
    ensures ConfirmedSeats(SeatRowsFor(manifest, fare)) == Named(manifest)
  {
    var rows := SeatRowsFor(manifest, fare);
    forall s ensures s in ConfirmedSeats(rows) <==> s in Named(manifest) {
      if s in Named(manifest) {
        var p :| p in manifest && p.seatId == s;
        var i :| 0 <= i < |manifest| && manifest[i] == p;
        assert rows[i].seatId == s;
      }
      if s in ConfirmedSeats(rows) {
        var i :| 0 <= i < |rows| && rows[i].seatId == s;
        assert manifest[i] in manifest;
      }
    }
  }

  /** A hold that passes the checks is the buyer's own, live and unexpired, and its seats are the manifest's. */
  lemma PassedHoldIsOwn(t: Tables, rq: ConfirmRequest, now: int)
    requires HoldsCoherent(t.locks) && CheckHold(t, rq, now).Passes?
    ensures var h := CheckHold(t, rq, now).hold.holdId;
      && rq.manifest != [] && DistinctPassengers(rq.manifest) && Named(rq.manifest) == HoldSeats(t.locks, h)
      && (forall i | 0 <= i < |t.locks| && t.locks[i].holdId == h ::
            t.locks[i].buyer == rq.buyer && t.locks[i].dep == rq.dep && t.locks[i].state.HELD? && !Lapsed(t.locks[i], now))
  {
    var hold := CheckHold(t, rq, now).hold;
    var h := hold.holdId;
    var n := NewestRow(t.locks, rq.buyer).value;
    forall i | 0 <= i < |t.locks| && t.locks[i].holdId == h
      ensures t.locks[i].buyer == rq.buyer && t.locks[i].dep == rq.dep && t.locks[i].state.HELD? && !Lapsed(t.locks[i], now)
    {
      OneRowDecides(t.locks, n, i);
    }
    var listed := SeatsOfHold(t.locks, rq.buyer, h);
    assert Elements(hold.seatIds) == Elements(listed);
    forall s ensures s in HoldSeats(t.locks, h) <==> s in listed {
      if s in HoldSeats(t.locks, h) {
        var i :| 0 <= i < |t.locks| && t.locks[i].holdId == h && t.locks[i].seatId == s;
        assert InHold(t.locks[i], rq.buyer, h);
      }
    }
    assert t.locks[n].seatId in HoldSeats(t.locks, h);
    assert Named(rq.manifest) == HoldSeats(t.locks, h);
    assert rq.manifest == [] ==> Named(rq.manifest) == {};
  }

  lemma ConfirmKeepsInv(t: Tables, rq: ConfirmRequest, now: int)
    requires Inv(t)
    ensures Inv(Confirm(t, rq, now).0)
  {
    SweepKeepsInv(t, Only({rq.dep}), now);
    var swept := SweepTables(t, Only({rq.dep}), now);
    if BookingOf(t, rq.buyer).None? && CheckHold(swept, rq, now).Passes? {
      var h := CheckHold(swept, rq, now).hold.holdId;
      PassedHoldIsOwn(swept, rq, now);
      HeldAllOrNone(swept.locks, h);
      ConfirmBookingKeepsInvExactly(swept, h, rq, now);
    }
  }

  /**
   * Called by itself with an empty manifest and a hold nobody took, `confirmBooking` books no seats
   * at all: zero rows moved is the count it expects.
   */
  lemma EmptyManifestBooksNothing(holdId: string, rq: ConfirmRequest, now: int)
    requires rq.manifest == []
    ensures var (t, outcome) := ConfirmBooking(EMPTY, holdId, rq, now);
            outcome == Booked(rq.newBookingId) && t.seats[rq.newBookingId] == [] && !Inv(t)
  {
    EmptyIsOk();
    ConfirmBookingKeepsInvExactly(EMPTY, holdId, rq, now);
  }

  /** The tables with one live hold of one seat. */
  function OneHold(holdId: string, buyer: Buyer, dep: Departure, seatId: SeatId, now: int): Tables {
    EMPTY.(locks := [LockRow(dep, seatId, HELD, holdId, None, buyer, Some(now + 1), now)])
  }

  /** And any one passenger for a one-seat hold will do: another seat, another rider or another departure. */
  lemma WrongHoldIsBooked(holdId: string, buyer: Buyer, dep: Departure, seatId: SeatId, rq: ConfirmRequest, now: int)
    requires |rq.manifest| == 1
    ensures var t := OneHold(holdId, buyer, dep, seatId, now);
            var (t', outcome) := ConfirmBooking(t, holdId, rq, now);
            && Inv(t) && outcome == Booked(rq.newBookingId)
            && (Inv(t') <==> rq.manifest[0].seatId == seatId && rq.buyer == buyer && rq.dep == dep)
  {
    var t := OneHold(holdId, buyer, dep, seatId, now);
    assert t.locks[1..] == [];
    assert HeldSeats(t.locks, holdId) == {seatId} by {
      assert t.locks[0].seatId in HeldSeats(t.locks, holdId);
    }
    assert Named(rq.manifest) == {rq.manifest[0].seatId} by {
      assert rq.manifest[0] in rq.manifest;
    }
    assert Inv(t);
    assert HeldCount(t.locks, holdId) == 1;
    assert BooksItsHold(t.locks, holdId, rq) <==> rq.manifest[0].seatId == seatId && rq.buyer == buyer && rq.dep == dep by {
      assert t.locks[0].buyer == buyer && t.locks[0].dep == dep && t.locks[0].holdId == holdId && t.locks[0].state.HELD?;
      assert rq.manifest[0].seatId in Named(rq.manifest);
    }
    ConfirmBookingKeepsInvExactly(t, holdId, rq, now);
  }
}
