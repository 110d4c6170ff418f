/** Quotes, cancellations and the ledger they leave behind. */
module Cancellation {
  import opened Basics
  import opened Locks
  import opened Refund
  import opened Store
  import opened StoreInvariant

  /* ---- what a request targets ---- */

  predicate IsTarget(r: SeatRow, named: seq<SeatId>) {
    r.status.CONFIRMED? && (named == [] || r.seatId in named)
  }

  function Wanted(rows: seq<SeatRow>, named: seq<SeatId>): (ids: seq<SeatId>)
    ensures Ascending(ids)
  {
    SortedDistinct(TargetIds(Targets(rows, named)))
  }

  lemma {:induction false} TargetIdsMembers(rows: seq<SeatRow>, named: seq<SeatId>, s: SeatId)
    ensures s in TargetIds(Targets(rows, named)) <==> exists k | 0 <= k < |rows| :: IsTarget(rows[k], named) && rows[k].seatId == s
  {
    if rows != [] {
      TargetIdsMembers(rows[1..], named, s);
      var rest := Targets(rows[1..], named);
      if IsTarget(rows[0], named) {
        assert TargetIds(Targets(rows, named)) == [rows[0].seatId] + TargetIds(rest);
      }
      assert forall k | 1 <= k < |rows| :: rows[k] == rows[1..][k - 1];
      assert forall k | 0 <= k < |rows[1..]| :: rows[1..][k] == rows[k + 1];
    }
  }

  /** A row is wanted exactly when it is a target. */
  lemma WantedRow(rows: seq<SeatRow>, named: seq<SeatId>, k: nat)
    requires DistinctRows(rows) && k < |rows|
    ensures rows[k].seatId in Wanted(rows, named) <==> IsTarget(rows[k], named)
  {
    TargetIdsMembers(rows, named, rows[k].seatId);
    if j :| 0 <= j < |rows| && IsTarget(rows[j], named) && rows[j].seatId == rows[k].seatId {
      assert j == k;
    }
  }

  /** The quoted total is the worth of the wanted seats. */
  lemma {:induction false} TargetsWorth(rows: seq<SeatRow>, named: seq<SeatId>, ids: seq<SeatId>, percent: nat)
    requires percent <= 100
    requires forall k | 0 <= k < |rows| :: rows[k].seatId in ids <==> IsTarget(rows[k], named)
    ensures RefundTotal(Fares(Targets(rows, named)), percent) == RefundOfSeats(rows, ids, percent)
  {
    if rows != [] {
      assert forall k | 0 <= k < |rows[1..]| :: rows[1..][k] == rows[k + 1];
      TargetsWorth(rows[1..], named, ids, percent);
      if IsTarget(rows[0], named) {
        FaresCons(RefundableSeat(rows[0].seatId, rows[0].fare), Targets(rows[1..], named), percent);
      }
    }
  }

  lemma FaresCons(first: RefundableSeat, rest: seq<RefundableSeat>, percent: nat)
    requires percent <= 100
    ensures RefundTotal(Fares([first] + rest), percent) == SeatRefund(first.fare, percent) + RefundTotal(Fares(rest), percent)
  {
    assert Fares([first] + rest)[1..] == Fares(rest);
  }

  predicate DistinctTargets(live: seq<RefundableSeat>) {
    forall i, j | 0 <= i < j < |live| :: live[i].seatId != live[j].seatId
  }

  /** Each target gets its own share in `perSeatPaise`. */
  lemma {:induction false} PerSeatOf(live: seq<RefundableSeat>, percent: nat, k: nat)
    requires percent <= 100 && k < |live|
    requires DistinctTargets(live)
    ensures live[k].seatId in PerSeat(live, percent)
    ensures PerSeat(live, percent)[live[k].seatId] == SeatRefund(live[k].fare, percent)
  {
    if k < |live| - 1 {
      PerSeatOf(live[..|live| - 1], percent, k);
    }
  }

  lemma {:induction false} TargetsDistinct(rows: seq<SeatRow>, named: seq<SeatId>)
    requires DistinctRows(rows)
    ensures DistinctTargets(Targets(rows, named))
  {
    if rows != [] {
      var rest := Targets(rows[1..], named);
      assert forall k | 0 <= k < |rows[1..]| :: rows[1..][k] == rows[k + 1];
      TargetsDistinct(rows[1..], named);
      forall j | 0 <= j < |rest| ensures rest[j].seatId != rows[0].seatId {
        assert rest[j] in rest;
        var k :| 0 <= k < |rows[1..]| && rest[j] == RefundableSeat(rows[1..][k].seatId, rows[1..][k].fare);
      }
      var x := RefundableSeat(rows[0].seatId, rows[0].fare);
      assert DistinctTargets([x] + rest);
    }
  }

  lemma {:induction false} TargetAmong(rows: seq<SeatRow>, named: seq<SeatId>, k: nat)
    requires k < |rows| && IsTarget(rows[k], named)
    ensures RefundableSeat(rows[k].seatId, rows[k].fare) in Targets(rows, named)
  {
    if k > 0 {
      TargetAmong(rows[1..], named, k - 1);
    }
  }

  lemma TargetShare(rows: seq<SeatRow>, named: seq<SeatId>, percent: nat, k: nat)
    requires DistinctRows(rows) && percent <= 100 && k < |rows| && IsTarget(rows[k], named)
    ensures var per := PerSeat(Targets(rows, named), percent);
      rows[k].seatId in per && per[rows[k].seatId] == SeatRefund(rows[k].fare, percent)
  {
    TargetAmong(rows, named, k);
    TargetsDistinct(rows, named);
    var live := Targets(rows, named);
    var i :| 0 <= i < |live| && live[i] == RefundableSeat(rows[k].seatId, rows[k].fare);
    PerSeatOf(live, percent, i);
  }

  /* ---- applying a cancellation ---- */

  lemma UnbookKeepsCoherent(locks: seq<LockRow>, b: string, ids: seq<SeatId>)
    requires HoldsCoherent(locks)
    ensures HoldsCoherent(Unbook(locks, b, ids))
  {
    var after := Unbook(locks, b, ids);
    forall i, j | 0 <= i < j < |after| ensures Coherent(after[i], after[j]) {
      assert Coherent(locks[i], locks[j]);
    }
  }

  lemma UnbookKeepsLocksOk(locks: seq<LockRow>, b: string, ids: seq<SeatId>)
    requires LocksOk(locks)
    ensures LocksOk(Unbook(locks, b, ids))
  {
    UnbookKeepsCoherent(locks, b, ids);
  }

  lemma BookedSeatsAfterUnbook(locks: seq<LockRow>, b: string, ids: seq<SeatId>, c: string)
    ensures BookedSeats(Unbook(locks, b, ids), c) == BookedSeats(locks, c) - if c == b then Elements(ids) else {}
  {
    var after := Unbook(locks, b, ids);
    forall s | s in BookedSeats(after, c) ensures s in BookedSeats(locks, c) && (c == b ==> s !in ids) {
      var i :| 0 <= i < |after| && after[i].state.BOOKED? && after[i].bookingId == Some(c) && after[i].seatId == s;
      assert locks[i].seatId == s;
    }
    forall s | s in BookedSeats(locks, c) && !(c == b && s in ids) ensures s in BookedSeats(after, c) {
      var i :| 0 <= i < |locks| && locks[i].state.BOOKED? && locks[i].bookingId == Some(c) && locks[i].seatId == s;
      assert after[i].seatId == s;
    }
  }

  lemma ConfirmedSeatsAfterCancel(rows: seq<SeatRow>, ids: seq<SeatId>, slab: SlabCode, refunds: map<SeatId, int>, now: int)
    ensures ConfirmedSeats(CancelRows(rows, ids, slab, refunds, now)) == ConfirmedSeats(rows) - Elements(ids)
  {
    var after := CancelRows(rows, ids, slab, refunds, now);
    forall s | s in ConfirmedSeats(after) ensures s in ConfirmedSeats(rows) && s !in ids {
      var k :| 0 <= k < |after| && after[k].status.CONFIRMED? && after[k].seatId == s;
      assert rows[k].seatId == s;
    }
    forall s | s in ConfirmedSeats(rows) && s !in ids ensures s in ConfirmedSeats(after) {
      var k :| 0 <= k < |rows| && rows[k].status.CONFIRMED? && rows[k].seatId == s;
      assert after[k].seatId == s;
    }
  }

  /** Two versions of a booking's rows that differ at most in status and the refund columns. */
  predicate SameSeats(before: seq<SeatRow>, after: seq<SeatRow>) {
    |before| == |after| && forall k | 0 <= k < |before| ::
      after[k].seatId == before[k].seatId && after[k].fare == before[k].fare && after[k].gender == before[k].gender
  }

  lemma {:induction false} SameSeatsSums(before: seq<SeatRow>, after: seq<SeatRow>, ids: seq<SeatId>, percent: nat)
    requires SameSeats(before, after) && percent <= 100
    ensures SumFare(after) == SumFare(before)
    ensures RefundOfSeats(after, ids, percent) == RefundOfSeats(before, ids, percent)
  {
    if before != [] {
      SameSeatsSums(before[1..], after[1..], ids, percent);
    }
  }

  lemma SameSeatsIds(before: seq<SeatRow>, after: seq<SeatRow>)
    requires SameSeats(before, after)
    ensures RowIds(after) == RowIds(before)
    ensures DistinctRows(before) ==> DistinctRows(after)
  {
    forall s ensures s in RowIds(after) <==> s in RowIds(before) {
      if s in RowIds(before) {
        var k :| 0 <= k < |before| && before[k].seatId == s;
        assert after[k] in after;
      }
      if s in RowIds(after) {
        var k :| 0 <= k < |after| && after[k].seatId == s;
        assert before[k] in before;
      }
    }
  }

  /** The rows to be cancelled are worth what `refunds` says they are. */
  predicate Worth(rows: seq<SeatRow>, ids: seq<SeatId>, refunds: map<SeatId, int>, percent: nat)
    requires percent <= 100
  {
    forall k | 0 <= k < |rows| && rows[k].seatId in ids && rows[k].status.CONFIRMED? ::
      rows[k].seatId in refunds && refunds[rows[k].seatId] == SeatRefund(rows[k].fare, percent)
  }

  lemma CancelledBookingOk(bk: Booking, rows: seq<SeatRow>, ids: seq<SeatId>, slab: SlabCode, refunds: map<SeatId, int>, now: int)
    requires BookingOk(bk, rows) && slab == SlabFor(bk.departureAt, now)
    requires Worth(rows, ids, refunds, Percent(slab))
    ensures var after := CancelRows(rows, ids, slab, refunds, now);
      SameSeats(rows, after) && BookingOk(RollUp(bk, after, slab, now), after)
  {
    var after := CancelRows(rows, ids, slab, refunds, now);
    SameSeatsSums(rows, after, [], 0);
    SameSeatsIds(rows, after);
  }

  lemma CancelledBookingsOk(t: Tables, b: string, ids: seq<SeatId>, slab: SlabCode, refunds: map<SeatId, int>, now: int)
    requires KeysOk(t) && BookingsOk(t) && b in t.bookings
    requires slab == SlabFor(t.bookings[b].departureAt, now)
    requires Worth(t.seats[b], ids, refunds, Percent(slab))
    ensures BookingsOk(ApplyCancellation(t, b, ids, slab, refunds, now))
  {
    var t' := ApplyCancellation(t, b, ids, slab, refunds, now);
    CancelledBookingOk(t.bookings[b], t.seats[b], ids, slab, refunds, now);
    forall c | c in t'.bookings && c in t'.seats
      ensures BookingOk(t'.bookings[c], t'.seats[c]) && BookedSeats(t'.locks, c) == ConfirmedSeats(t'.seats[c])
    {
      BookedSeatsAfterUnbook(t.locks, b, ids, c);
      ConfirmedSeatsAfterCancel(t.seats[b], ids, slab, refunds, now);
    }
  }

  lemma CancelledQuotesOk(t: Tables, b: string, rows: seq<SeatRow>)
    requires QuotesOk(t) && b in t.seats && SameSeats(t.seats[b], rows)
    ensures forall q | q in t.quotes :: QuoteOk(t.quotes[q], t.seats[b := rows])
  {
    SameSeatsIds(t.seats[b], rows);
    forall q | q in t.quotes ensures QuoteOk(t.quotes[q], t.seats[b := rows]) {
      assert QuoteOk(t.quotes[q], t.seats);
      SameSeatsSums(t.seats[b], rows, t.quotes[q].seatIds, t.quotes[q].percent);
    }
  }

  lemma CancelledPointers(t: Tables, b: string, ids: seq<SeatId>, slab: SlabCode, refunds: map<SeatId, int>, now: int)
    requires KeysOk(t) && LocksPointToBookings(t) && b in t.bookings
    ensures var t' := ApplyCancellation(t, b, ids, slab, refunds, now); KeysOk(t') && LocksPointToBookings(t')
  {
  }

  /** Applying a cancellation at its own slab keeps the invariant, whichever seats it names. */
  lemma ApplyCancellationKeepsInv(t: Tables, b: string, ids: seq<SeatId>, slab: SlabCode, refunds: map<SeatId, int>, now: int)
    requires Inv(t) && b in t.bookings
    requires slab == SlabFor(t.bookings[b].departureAt, now)
    requires Worth(t.seats[b], ids, refunds, Percent(slab))
    ensures Inv(ApplyCancellation(t, b, ids, slab, refunds, now))
  {
    UnbookKeepsLocksOk(t.locks, b, ids);
    CancelledBookingsOk(t, b, ids, slab, refunds, now);
    CancelledQuotesOk(t, b, CancelRows(t.seats[b], ids, slab, refunds, now));
    CancelledPointers(t, b, ids, slab, refunds, now);
  }

  /* ---- the two cancel actions ---- */

  lemma NewQuoteOk(t: Tables, b: string, named: seq<SeatId>, slab: SlabCode, now: int)
    requires KeysOk(t) && BookingsOk(t) && b in t.bookings && Targets(t.seats[b], named) != []
    ensures QuoteOk(NewQuote(b, Targets(t.seats[b], named), slab, now), t.seats)
  {
    var rows := t.seats[b];
    var ids := Wanted(rows, named);
    forall k | 0 <= k < |rows| ensures rows[k].seatId in ids <==> IsTarget(rows[k], named) {
      WantedRow(rows, named, k);
    }
    TargetsWorth(rows, named, ids, Percent(slab));
    forall s | s in ids ensures s in RowIds(rows) {
      TargetIdsMembers(rows, named, s);
      var k :| 0 <= k < |rows| && rows[k].seatId == s;
      assert rows[k] in rows;
    }
    assert TargetIds(Targets(rows, named))[0] in ids;
  }

  lemma AddQuoteKeepsInv(t: Tables, id: string, q: Quote)
    requires Inv(t) && QuoteOk(q, t.seats)
    ensures Inv(t.(quotes := t.quotes[id := q]))
  {
  }

  lemma SoftCancelKeepsInv(t: Tables, rq: CancelRequest, now: int)
    requires Inv(t)
    ensures Inv(SoftCancel(t, rq, now).0)
  {
    if SoftCancel(t, rq, now).1.Quoted? {
      var b := rq.bookingId;
      var slab := SlabFor(t.bookings[b].departureAt, now);
      NewQuoteOk(t, b, rq.seatIds, slab, now);
      AddQuoteKeepsInv(t, rq.newQuoteId, NewQuote(b, Targets(t.seats[b], rq.seatIds), slab, now));
    }
  }

  lemma TargetsWorthTheirShare(rows: seq<SeatRow>, named: seq<SeatId>, percent: nat)
    requires DistinctRows(rows) && percent <= 100
    ensures Worth(rows, Wanted(rows, named), PerSeat(Targets(rows, named), percent), percent)
  {
    forall k | 0 <= k < |rows| && rows[k].seatId in Wanted(rows, named) && rows[k].status.CONFIRMED?
      ensures rows[k].seatId in PerSeat(Targets(rows, named), percent)
      ensures PerSeat(Targets(rows, named), percent)[rows[k].seatId] == SeatRefund(rows[k].fare, percent)
    {
      WantedRow(rows, named, k);
      TargetShare(rows, named, percent, k);
    }
  }

  /** What a commit can do: cancel the targeted seats, issue a new quote, or nothing. */
  predicate CommitsTo(t: Tables, rq: CancelRequest, now: int, t': Tables, out: CancelOutcome) {
    if out.Committed? || out.SlabMoved? then
      && rq.bookingId in t.bookings && rq.bookingId in t.seats && Targets(t.seats[rq.bookingId], rq.seatIds) != []
      && var live, slab := Targets(t.seats[rq.bookingId], rq.seatIds), SlabFor(t.bookings[rq.bookingId].departureAt, now);
         if out.Committed? then
           && out.slab == slab
           && t' == ApplyCancellation(t, rq.bookingId, Wanted(t.seats[rq.bookingId], rq.seatIds), slab, PerSeat(live, Percent(slab)), now)
         else
           && rq.newQuoteId !in t.quotes && out.replacement == NewQuote(rq.bookingId, live, slab, now)
           && t' == t.(quotes := t.quotes[rq.newQuoteId := out.replacement])
    else t' == t
  }

  lemma CommitShape(t: Tables, rq: CancelRequest, now: int, t': Tables, out: CancelOutcome)
    requires CommitCancel(t, rq, now) == (t', out)
    ensures CommitsTo(t, rq, now, t', out)
  {
  }

  lemma CommittedKeepsInv(t: Tables, b: string, named: seq<SeatId>, slab: SlabCode, now: int)
    requires Inv(t) && b in t.bookings && slab == SlabFor(t.bookings[b].departureAt, now)
    ensures Inv(ApplyCancellation(t, b, Wanted(t.seats[b], named), slab, PerSeat(Targets(t.seats[b], named), Percent(slab)), now))
  {
    assert BookingOk(t.bookings[b], t.seats[b]);
    TargetsWorthTheirShare(t.seats[b], named, Percent(slab));
    ApplyCancellationKeepsInv(t, b, Wanted(t.seats[b], named), slab, PerSeat(Targets(t.seats[b], named), Percent(slab)), now);
  }

  lemma CommitCancelKeepsInv(t: Tables, rq: CancelRequest, now: int)
    requires Inv(t)
    ensures Inv(CommitCancel(t, rq, now).0)
  {
    var (t', out) := CommitCancel(t, rq, now);
    CommitShape(t, rq, now, t', out);
    if out.Committed? {
      CommittedKeepsInv(t, rq.bookingId, rq.seatIds, out.slab, now);
    } else if out.SlabMoved? {
      NewQuoteOk(t, rq.bookingId, rq.seatIds, SlabFor(t.bookings[rq.bookingId].departureAt, now), now);
      AddQuoteKeepsInv(t, rq.newQuoteId, out.replacement);
    }
  }

  /* ---- quote and commit agree ---- */

  predicate CommaFree(s: string) {
    ',' !in s
  }

  lemma CommaAfter(u: string, x: string, v: string, y: string)
    requires CommaFree(v) && u + "," + x == v + "," + y
    ensures |v| <= |u|
  {
    var w := u + "," + x;
    assert w[|u|] == ',';
    assert forall i | 0 <= i < |v| :: (v + "," + y)[i] == v[i] && v[i] in v;
  }

  lemma JoinHasComma(a: seq<string>)
    requires a != [] && forall s | s in a :: CommaFree(s)
    ensures |a| > 1 <==> ',' in Join(a)
  {
    assert a[0] in a;
    if |a| > 1 {
      assert Join(a)[|a[0]|] == ',';
    }
  }

  /** Comparing joined lists compares the lists, as long as no id contains the separator. */
  lemma {:induction false} JoinInjective(a: seq<string>, b: seq<string>)
    requires a != [] && b != [] && Join(a) == Join(b)
    requires (forall s | s in a :: CommaFree(s)) && (forall s | s in b :: CommaFree(s))
    ensures a == b
  {
    JoinHasComma(a);
    JoinHasComma(b);
    if |a| > 1 {
      assert a[0] in a && b[0] in b;
      CommaAfter(a[0], Join(a[1..]), b[0], Join(b[1..]));
      CommaAfter(b[0], Join(b[1..]), a[0], Join(a[1..]));
      var x, y := a[0] + "," + Join(a[1..]), b[0] + "," + Join(b[1..]);
      assert a[0] == x[..|a[0]|] && b[0] == y[..|b[0]|];
      assert Join(a[1..]) == x[|a[0]| + 1..] && Join(b[1..]) == y[|b[0]| + 1..];
      JoinInjective(a[1..], b[1..]);
      assert a == [a[0]] + a[1..] && b == [b[0]] + b[1..];
    }
  }

  /** A non-empty ascending list of some of the ids: what a quote and a commit compare. */
  predicate ListOver(x: seq<string>, ids: set<string>) {
    x != [] && Ascending(x) && forall s | s in x :: s in ids
  }

  /** No two different lists of these ids have one joined form. */
  ghost predicate JoinsApart(ids: set<string>) {
    forall x, y | ListOver(x, ids) && ListOver(y, ids) && Join(x) == Join(y) :: x == y
  }

  /** Ids without commas always join apart. */
  lemma CommaFreeJoinsApart(ids: set<string>)
    requires forall s | s in ids :: CommaFree(s)
    ensures JoinsApart(ids)
  {
    forall x, y | ListOver(x, ids) && ListOver(y, ids) && Join(x) == Join(y) ensures x == y {
      JoinInjective(x, y);
    }
  }

  /** So does one id alone, commas or not. */
  lemma OneIdJoinsApart(s: string)
    ensures JoinsApart({s})
  {
    forall x | ListOver(x, {s}) ensures x == [s] {
      AscendingIsDistinct(x);
      DistinctSize(x);
      assert x[0] in x;
      assert Elements(x) == {s};
    }
  }

  /** A seat whose id is two others joined with a comma does not. */
  lemma CommaJoinsTogether(p: string, q: string)
    requires Below(p, q)
    ensures !JoinsApart({p, q, p + "," + q})
  {
    var ids, x, y := {p, q, p + "," + q}, [p, q], [p + "," + q];
    assert Join(x) == p + "," + Join([q]);
    assert ListOver(x, ids) && ListOver(y, ids) && Join(x) == Join(y) && |x| != |y|;
  }

  /** The checks a commit passed before it went through. */
  predicate Guarded(t: Tables, rq: CancelRequest, now: int, t': Tables, out: CancelOutcome)
    requires out.Committed?
  {
    && rq.quoteId.Some? && rq.quoteId.value in t.quotes && rq.bookingId in t.bookings && rq.bookingId in t.seats
    && var b, q, rows := rq.bookingId, t.quotes[rq.quoteId.value], t.seats[rq.bookingId];
       && q.bookingId == b && now < q.expiresAt && q.slab == out.slab
       && Targets(rows, rq.seatIds) != [] && Join(q.seatIds) == Join(Wanted(rows, rq.seatIds))
       && out.refund == RefundTotal(Fares(Targets(rows, rq.seatIds)), Percent(q.slab))
       && t' == ApplyCancellation(t, b, Wanted(rows, rq.seatIds), q.slab, PerSeat(Targets(rows, rq.seatIds), Percent(q.slab)), now)
  }

  lemma CommitGuards(t: Tables, rq: CancelRequest, now: int, t': Tables, out: CancelOutcome)
    requires CommitCancel(t, rq, now) == (t', out) && out.Committed?
    ensures Guarded(t, rq, now, t', out)
  {
  }

  /** Of a quote with the same joined ids, the seats are the targeted ones. */
  lemma QuotedSeatsAreTargets(t: Tables, b: string, named: seq<SeatId>, q: Quote, now: int)
    requires KeysOk(t) && BookingsOk(t) && b in t.bookings && b in t.seats && JoinsApart(RowIds(t.seats[b]))
    requires QuoteOk(q, t.seats) && q.bookingId == b && Targets(t.seats[b], named) != []
    requires Join(q.seatIds) == Join(Wanted(t.seats[b], named))
    ensures q.seatIds == Wanted(t.seats[b], named)
  {
    NewQuoteOk(t, b, named, q.slab, now);
    assert ListOver(q.seatIds, RowIds(t.seats[b])) && ListOver(Wanted(t.seats[b], named), RowIds(t.seats[b]));
  }

  predicate StoresShare(r: SeatRow, r': SeatRow, q: Quote, now: int)
    requires q.percent <= 100
  {
    r' == if r.seatId in q.seatIds
          then r.(status := CANCELLED, cancelledAt := Some(now), refund := Some(SeatRefund(r.fare, q.percent)), slab := Some(q.slab))
          else r
  }

  /** The outcome and the tables after a commit are what the quote it named had promised. */
  predicate Agrees(t: Tables, rq: CancelRequest, now: int, t': Tables, out: CancelOutcome)
    requires out.Committed?
  {
    && rq.quoteId.Some? && rq.quoteId.value in t.quotes
    && rq.bookingId in t.bookings && rq.bookingId in t.seats && rq.bookingId in t'.bookings && rq.bookingId in t'.seats
    && var b, q := rq.bookingId, t.quotes[rq.quoteId.value];
       && q.bookingId == b && now < q.expiresAt && q.slab == out.slab && out.refund == q.refund
       && HonoursQuote(t.seats[b], t'.seats[b], rq.seatIds, q, now)
       && t'.bookings[b].refund == Some(t.bookings[b].refund.GetOr(0) + q.refund)
       && t'.bookings[b].cancelledAt == Some(now) && t'.bookings[b].slab == Some(q.slab)
  }

  /**
   * A commit that goes through named an unexpired quote for this booking whose seats are exactly
   * the live seats targeted; re-evaluating at commit time gives the quoted total; every targeted
   * seat stores its own share of it, no other seat changes, and the booking's refund grows by it.
   */
  lemma QuoteAndCommitAgree(t: Tables, rq: CancelRequest, now: int, t': Tables, out: CancelOutcome)
    requires KeysOk(t) && BookingsOk(t) && QuotesOk(t)
    requires CommitCancel(t, rq, now) == (t', out) && out.Committed? && JoinsApart(RowIds(t.seats[rq.bookingId]))
    ensures Agrees(t, rq, now, t', out)
  {
    CommitGuards(t, rq, now, t', out);
    GuardedSeats(t, rq, now, t', out);
    GuardedAgrees(t, rq, now, t', out);
  }

  lemma GuardedSeats(t: Tables, rq: CancelRequest, now: int, t': Tables, out: CancelOutcome)
    requires KeysOk(t) && BookingsOk(t) && QuotesOk(t)
    requires out.Committed? && Guarded(t, rq, now, t', out) && JoinsApart(RowIds(t.seats[rq.bookingId]))
    ensures var b, q := rq.bookingId, t.quotes[rq.quoteId.value];
      QuoteOk(q, t.seats) && q.seatIds == Wanted(t.seats[b], rq.seatIds) && BookingOk(t.bookings[b], t.seats[b])
  {
    var b, q := rq.bookingId, t.quotes[rq.quoteId.value];
    assert QuoteOk(q, t.seats);
    QuotedSeatsAreTargets(t, b, rq.seatIds, q, now);
  }

  lemma GuardedAgrees(t: Tables, rq: CancelRequest, now: int, t': Tables, out: CancelOutcome)
    requires out.Committed? && Guarded(t, rq, now, t', out)
    requires var b, q := rq.bookingId, t.quotes[rq.quoteId.value];
      QuoteOk(q, t.seats) && q.seatIds == Wanted(t.seats[b], rq.seatIds) && BookingOk(t.bookings[b], t.seats[b])
    ensures Agrees(t, rq, now, t', out)
  {
    AgreementOf(t, rq.bookingId, rq.seatIds, t.quotes[rq.quoteId.value], now, t');
  }

  lemma AgreementOf(t: Tables, b: string, named: seq<SeatId>, q: Quote, now: int, t': Tables)
    requires b in t.bookings && b in t.seats && BookingOk(t.bookings[b], t.seats[b])
    requires QuoteOk(q, t.seats) && q.bookingId == b && q.seatIds == Wanted(t.seats[b], named)
    requires t' == ApplyCancellation(t, b, Wanted(t.seats[b], named), q.slab, PerSeat(Targets(t.seats[b], named), Percent(q.slab)), now)
    ensures b in t'.bookings && b in t'.seats && HonoursQuote(t.seats[b], t'.seats[b], named, q, now)
    ensures RefundTotal(Fares(Targets(t.seats[b], named)), Percent(q.slab)) == q.refund
    ensures t'.bookings[b].refund == Some(t.bookings[b].refund.GetOr(0) + q.refund)
    ensures t'.bookings[b].cancelledAt == Some(now) && t'.bookings[b].slab == Some(q.slab)
  {
    AgreementStored(t.bookings[b], t.seats[b], named, q, now);
  }

  /** The quote names exactly the targeted rows; each stores its share and no other row changes. */
  predicate HonoursQuote(rows: seq<SeatRow>, rows': seq<SeatRow>, named: seq<SeatId>, q: Quote, now: int) {
    && q.percent <= 100 && |rows'| == |rows|
    && forall k | 0 <= k < |rows| ::
         && (rows[k].seatId in q.seatIds <==> IsTarget(rows[k], named))
         && StoresShare(rows[k], rows'[k], q, now)
  }

  lemma AgreementStored(bk: Booking, rows: seq<SeatRow>, named: seq<SeatId>, q: Quote, now: int)
    requires BookingOk(bk, rows) && q.percent == Percent(q.slab) && q.seatIds == Wanted(rows, named)
    requires q.refund == RefundOfSeats(rows, q.seatIds, q.percent)
    ensures var rows' := CancelRows(rows, q.seatIds, q.slab, PerSeat(Targets(rows, named), q.percent), now);
      && HonoursQuote(rows, rows', named, q, now)
      && RefundTotal(Fares(Targets(rows, named)), q.percent) == q.refund
      && SumRefund(rows') == bk.refund.GetOr(0) + q.refund
  {
    SharesStored(rows, bk.departureAt, named, q, now);
  }

  lemma SharesStored(rows: seq<SeatRow>, departureAt: int, named: seq<SeatId>, q: Quote, now: int)
    requires DistinctRows(rows) && forall k | 0 <= k < |rows| :: SeatRowOk(rows[k], departureAt)
    requires q.percent == Percent(q.slab) && q.seatIds == Wanted(rows, named)
    requires q.refund == RefundOfSeats(rows, q.seatIds, q.percent)
    ensures forall k | 0 <= k < |rows| :: rows[k].seatId in q.seatIds <==> IsTarget(rows[k], named)
    ensures RefundTotal(Fares(Targets(rows, named)), q.percent) == q.refund
    ensures var rows' := CancelRows(rows, q.seatIds, q.slab, PerSeat(Targets(rows, named), q.percent), now);
      && (forall k | 0 <= k < |rows| :: StoresShare(rows[k], rows'[k], q, now))
      && SumRefund(rows') == SumRefund(rows) + q.refund
  {
    var per := PerSeat(Targets(rows, named), q.percent);
    forall k | 0 <= k < |rows| ensures rows[k].seatId in q.seatIds <==> IsTarget(rows[k], named) {
      WantedRow(rows, named, k);
    }
    TargetsWorth(rows, named, q.seatIds, q.percent);
    TargetsWorthTheirShare(rows, named, q.percent);
    SumRefundGrows(rows, q.seatIds, q.slab, per, now);
    var rows' := CancelRows(rows, q.seatIds, q.slab, per, now);
    forall k | 0 <= k < |rows| ensures StoresShare(rows[k], rows'[k], q, now) {
      assert rows'[k] == CancelRow(rows[k], q.seatIds, q.slab, per, now);
    }
  }

  /** Cancelling confirmed rows adds their worth to the sum of refunds. */
  lemma {:induction false} SumRefundGrows(rows: seq<SeatRow>, ids: seq<SeatId>, slab: SlabCode, refunds: map<SeatId, int>, now: int)
    requires Worth(rows, ids, refunds, Percent(slab))
    requires forall k | 0 <= k < |rows| && rows[k].seatId in ids :: rows[k].status.CONFIRMED?
    requires forall k | 0 <= k < |rows| && rows[k].status.CONFIRMED? :: rows[k].refund.None?
    ensures SumRefund(CancelRows(rows, ids, slab, refunds, now)) == SumRefund(rows) + RefundOfSeats(rows, ids, Percent(slab))
  {
    if rows != [] {
      SumRefundGrows(rows[1..], ids, slab, refunds, now);
      assert CancelRows(rows, ids, slab, refunds, now)[1..] == CancelRows(rows[1..], ids, slab, refunds, now);
    }
  }

  /* ---- the ledger ---- */

  /** What `unattributedBookings` sums for one booking. */
  function Owed(bk: Booking, rows: seq<SeatRow>): int {
    bk.total.base + bk.total.fee - bk.refund.GetOr(0) + CancelledToll(rows)
  }

  /** Seat by seat: a confirmed seat owes its base and fee, a cancelled one what its own slab retained. */
  function OwedSeatBySeat(rows: seq<SeatRow>): int {
    if rows == [] then 0
    else (if rows[0].status.CONFIRMED? then rows[0].fare.base + rows[0].fare.fee
          else RetainedPaise([rows[0].fare], Percent(rows[0].slab.GetOr(UNDER_2H)))) + OwedSeatBySeat(rows[1..])
  }

  function ConfirmedToll(rows: seq<SeatRow>): nat {
    if rows == [] then 0 else (if rows[0].status.CONFIRMED? then rows[0].fare.toll else 0) + ConfirmedToll(rows[1..])
  }

  lemma {:induction false} OwedRowByRow(rows: seq<SeatRow>, departureAt: int)
    requires forall k | 0 <= k < |rows| :: SeatRowOk(rows[k], departureAt)
    ensures SumFare(rows).base + SumFare(rows).fee - SumRefund(rows) + CancelledToll(rows) == OwedSeatBySeat(rows)
    ensures CancelledToll(rows) + ConfirmedToll(rows) == SumFare(rows).toll
  {
    if rows != [] {
      OwedRowByRow(rows[1..], departureAt);
      if rows[0].status.CANCELLED? {
        RefundComplementsRetained([rows[0].fare], Percent(rows[0].slab.value));
      }
    }
  }

  /**
   * Ledger conservation, after any run of partial cancellations in different slabs: the owed
   * amount is the complement of the refunds seat by seat, and owed, refunded and uncancelled toll
   * together are everything the booking was sold for.
   */
  lemma LedgerBalances(t: Tables, b: string)
    requires Inv(t) && b in t.bookings
    ensures var bk, rows := t.bookings[b], t.seats[b];
      && Owed(bk, rows) == OwedSeatBySeat(rows)
      && Owed(bk, rows) + bk.refund.GetOr(0) + ConfirmedToll(rows) == bk.total.base + bk.total.fee + bk.total.toll
  {
    OwedRowByRow(t.seats[b], t.bookings[b].departureAt);
  }

  /** The cancellations a booking has been through, as the stored columns tell them. */
  function CancelledPath(rows: seq<SeatRow>): (path: seq<Cancelled>)
    ensures forall c | c in path :: exists k | 0 <= k < |rows| :: rows[k].status.CANCELLED? && c == Cancelled(rows[k].fare, rows[k].cancelledAt.GetOr(0))
  {
    if rows == [] then []
    else
      var rest := CancelledPath(rows[1..]);
      assert forall k | 0 <= k < |rows[1..]| :: rows[1..][k] == rows[k + 1];
      if rows[0].status.CANCELLED? then [Cancelled(rows[0].fare, rows[0].cancelledAt.GetOr(0))] + rest else rest
  }

  lemma {:induction false} StoredRefundIsPathTotal(rows: seq<SeatRow>, departureAt: int)
    requires forall k | 0 <= k < |rows| :: SeatRowOk(rows[k], departureAt)
    ensures SumRefund(rows) == PathTotal(CancelledPath(rows), departureAt)
  {
    if rows != [] {
      StoredRefundIsPathTotal(rows[1..], departureAt);
    }
  }

  /**
   * However a booking's seats were split over cancellations between two instants, the refund it
   * stores lies between cancelling those seats all at the last instant and all at the first, and
   * is exactly that figure when both instants fall in one slab.
   */
  lemma StoredRefundBounds(t: Tables, b: string, first: int, last: int)
    requires Inv(t) && b in t.bookings
    requires forall k | 0 <= k < |t.seats[b]| && t.seats[b][k].status.CANCELLED? :: first <= t.seats[b][k].cancelledAt.GetOr(first) <= last
    ensures var d := t.bookings[b].departureAt;
      var fares := PathFares(CancelledPath(t.seats[b]));
      && RefundTotal(fares, Percent(SlabFor(d, last))) <= t.bookings[b].refund.GetOr(0) <= RefundTotal(fares, Percent(SlabFor(d, first)))
      && (SlabFor(d, first) == SlabFor(d, last) ==> t.bookings[b].refund.GetOr(0) == RefundTotal(fares, Percent(SlabFor(d, first))))
  {
    var rows := t.seats[b];
    StoredRefundIsPathTotal(rows, t.bookings[b].departureAt);
    var path := CancelledPath(rows);
    forall i | 0 <= i < |path| ensures first <= path[i].at <= last {
      assert path[i] in path;
    }
    RefundPathBounds(path, t.bookings[b].departureAt, first, last);
  }

  /* ---- refund and price ---- */

  /** A confirmed seat counts in full, a cancelled one at the rate its own slab deducted. */
  function DeductedRate(r: SeatRow): nat {
    if r.status.CONFIRMED? then 100 else Percent(r.slab.GetOr(UNDER_2H))
  }

  function DeductedBase(rows: seq<SeatRow>): nat {
    if rows == [] then 0 else rows[0].fare.base * DeductedRate(rows[0]) + DeductedBase(rows[1..])
  }

  lemma OneRowInRates(r: SeatRow)
    ensures var owed := OwedSeatBySeat([r]) - r.fare.fee;
      r.fare.base * DeductedRate(r) - 50 <= 100 * owed <= r.fare.base * DeductedRate(r) + 50
  {
    assert [r][1..] == [];
    if r.status.CANCELLED? {
      OneSeatRounding(r.fare.base, DeductedRate(r));
      assert [r.fare][1..] == [];
      assert RetainedPaise([r.fare], DeductedRate(r)) == Retained(r.fare, DeductedRate(r));
    }
  }

  /** What is owed for the base fares, to within half a paisa a seat. */
  lemma {:induction false} OwedInRates(rows: seq<SeatRow>)
    ensures DeductedBase(rows) - 50 * |rows| <= 100 * (OwedSeatBySeat(rows) - SumFare(rows).fee) <= DeductedBase(rows) + 50 * |rows|
  {
    if rows != [] {
      OwedInRates(rows[1..]);
      OneRowInRates(rows[0]);
      assert [rows[0]][1..] == [];
      assert OwedSeatBySeat(rows) == OwedSeatBySeat([rows[0]]) + OwedSeatBySeat(rows[1..]);
    }
  }

  /**
   * `refund` against a price of `paid` less a rounded discount, where `deducted` is what the slabs
   * deducted and `kept` what is kept besides, both sides in hundredths of a paisa.
   */
  predicate FitsPrice(refund: int, paid: int, discounted: int, deducted: int, kept: int, n: nat) {
    var price := paid - RoundHalfUp(discounted);
    && (discounted - deducted + 50 * (n + 1) <= 100 * kept ==> refund <= price)
    && (discounted - deducted > 100 * kept + 50 * (n + 1) ==> refund > price)
    && (discounted == 0 ==> refund <= price)
  }

  lemma PriceByRates(owed: nat, fee: nat, toll: nat, paid: int, refund: int, deducted: int, discounted: int, n: nat)
    requires deducted - 50 * n <= 100 * (owed - fee) <= deducted + 50 * n && owed + refund + toll == paid
    ensures FitsPrice(refund, paid, discounted, deducted, fee + toll, n)
  {
    assert discounted - 50 < 100 * RoundHalfUp(discounted) <= discounted + 50;
  }

  lemma BookingBalances(bk: Booking, rows: seq<SeatRow>)
    requires BookingOk(bk, rows)
    ensures OwedSeatBySeat(rows) + bk.refund.GetOr(0) + ConfirmedToll(rows) == bk.total.base + bk.total.fee + bk.total.toll
    ensures bk.total == SumFare(rows)
  {
    OwedRowByRow(rows, bk.departureAt);
  }

  /**
   * The stored refund of a booking sold at a concession, after any partial cancellations in any
   * slabs: it stays within the price if the deduction rates, the fees and the tolls still held cover
   * the concession rate, and exceeds it if the concession outweighs them, to within rounding.
   */
  lemma StoredRefundWithinPrice(t: Tables, b: string, concession: nat)
    requires Inv(t) && b in t.bookings
    ensures var bk, rows := t.bookings[b], t.seats[b];
      FitsPrice(bk.refund.GetOr(0), bk.total.base + bk.total.fee + bk.total.toll, bk.total.base * concession,
                DeductedBase(rows), bk.total.fee + ConfirmedToll(rows), |rows|)
  {
    assert BookingOk(t.bookings[b], t.seats[b]);
    BookingFitsPrice(t.bookings[b], t.seats[b], t.bookings[b].total.base * concession);
  }

  lemma BookingFitsPrice(bk: Booking, rows: seq<SeatRow>, discounted: int)
    requires BookingOk(bk, rows)
    ensures FitsPrice(bk.refund.GetOr(0), bk.total.base + bk.total.fee + bk.total.toll, discounted,
                      DeductedBase(rows), bk.total.fee + ConfirmedToll(rows), |rows|)
  {
    BookingBalances(bk, rows);
    OwedInRates(rows);
    OwedIsNatural(rows);
    PriceByRates(OwedSeatBySeat(rows), bk.total.fee, ConfirmedToll(rows), bk.total.base + bk.total.fee + bk.total.toll,
                 bk.refund.GetOr(0), DeductedBase(rows), discounted, |rows|);
  }

  lemma {:induction false} OwedIsNatural(rows: seq<SeatRow>)
    ensures OwedSeatBySeat(rows) >= 0
  {
    if rows != [] {
      OwedIsNatural(rows[1..]);
    }
  }
}
