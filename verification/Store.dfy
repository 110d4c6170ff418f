/**
 * The five tables and the transactions over them (`src/reserved/store.ts`), together with the
 * order-service actions that drive them (`src/reserved/order.ts`). Each function gives the new
 * tables and the answer; a transaction that throws gives the old tables back.
 */
module Store {
  import opened Basics
  import opened SeatMap
  import opened Locks
  import opened Refund

  datatype SeatStatus = CONFIRMED | CANCELLED

  /** A row of `booking_seats`. */
  datatype SeatRow = SeatRow(
    seatId: SeatId, gender: Option<Gender>, fare: Fare, status: SeatStatus,
    cancelledAt: Option<int>, refund: Option<int>, slab: Option<SlabCode>)

  datatype Booking = Booking(
    buyer: Buyer, dep: Departure, departureAt: int, status: SeatStatus, total: Fare, createdAt: int,
    cancelledAt: Option<int>, refund: Option<int>, slab: Option<SlabCode>, settlement: Option<string>)

  datatype Quote = Quote(
    bookingId: string, seatIds: seq<SeatId>, slab: SlabCode, percent: nat, refund: int, quotedAt: int, expiresAt: int)

  /** `sold` lists the booking ids in rowid order; `seats` is `booking_seats` by its key prefix. */
  datatype Tables = Tables(
    locks: seq<LockRow>, sold: seq<string>, bookings: map<string, Booking>,
    seats: map<string, seq<SeatRow>>, quotes: map<string, Quote>)

  const EMPTY: Tables := Tables([], [], map[], map[], map[])

  /* ---- aggregates over booking_seats ---- */

  function SumFare(rows: seq<SeatRow>): Fare {
    if rows == [] then Fare(0, 0, 0)
    else
      var rest := SumFare(rows[1..]);
      Fare(rows[0].fare.base + rest.base, rows[0].fare.fee + rest.fee, rows[0].fare.toll + rest.toll)
  }

  /** `COALESCE(SUM(refund_paise), 0)`. */
  function SumRefund(rows: seq<SeatRow>): int {
    if rows == [] then 0 else rows[0].refund.GetOr(0) + SumRefund(rows[1..])
  }

  function CountConfirmed(rows: seq<SeatRow>): nat {
    if rows == [] then 0 else (if rows[0].status.CONFIRMED? then 1 else 0) + CountConfirmed(rows[1..])
  }

  function CancelledToll(rows: seq<SeatRow>): nat {
    if rows == [] then 0 else (if rows[0].status.CANCELLED? then rows[0].fare.toll else 0) + CancelledToll(rows[1..])
  }

  predicate DistinctRows(rows: seq<SeatRow>) {
    forall i, j | 0 <= i < j < |rows| :: rows[i].seatId != rows[j].seatId
  }

  function RowIds(rows: seq<SeatRow>): set<SeatId> {
    set r | r in rows :: r.seatId
  }

  /* ---- claims ---- */

  function GenderOf(rows: seq<SeatRow>, seatId: SeatId): Option<Gender> {
    if rows == [] then None else if rows[0].seatId == seatId then rows[0].gender else GenderOf(rows[1..], seatId)
  }

  /** One row of the join in `liveClaims`. */
  function ClaimOfRow(seats: map<string, seq<SeatRow>>, r: LockRow): Claim {
    if r.state.HELD? then HeldClaim(r.holdId, r.buyer.identity)
    else
      var b := r.bookingId.GetOr("");
      BookedClaim(r.holdId, b, r.buyer.identity, if b in seats then GenderOf(seats[b], r.seatId) else None)
  }

  function LiveRow(locks: seq<LockRow>, dep: Departure, seatId: SeatId): (r: Option<nat>)
    ensures r.Some? ==> r.value < |locks| && Live(locks[r.value]) && On(locks[r.value], dep, seatId)
    ensures r.None? ==> !Claimed(locks, dep, seatId)
  {
    if locks == [] then None
    else
      var last := |locks| - 1;
      if Live(locks[last]) && On(locks[last], dep, seatId) then Some(last)
      else
        var earlier := LiveRow(locks[..last], dep, seatId);
        assert earlier.None? ==> forall i | 0 <= i < last :: locks[i] == locks[..last][i];
        earlier
  }

  function LiveSeats(locks: seq<LockRow>, dep: Departure): set<SeatId> {
    set i | 0 <= i < |locks| && Live(locks[i]) && locks[i].dep == dep :: locks[i].seatId
  }

  function ClaimAt(t: Tables, dep: Departure, seatId: SeatId): Option<Claim> {
    var i := LiveRow(t.locks, dep, seatId);
    if i.None? then None else Some(ClaimOfRow(t.seats, t.locks[i.value]))
  }

  /** `liveClaims`, keyed by seat as the seat-state computation keys it. */
  function ClaimsOn(t: Tables, dep: Departure): Claims {
    map s | s in LiveSeats(t.locks, dep) && ClaimAt(t, dep, s).Some? :: ClaimAt(t, dep, s).value
  }

  /* ---- confirm ---- */

  datatype Passenger = Passenger(seatId: SeatId, gender: Option<Gender>)

  datatype ConfirmRequest = ConfirmRequest(
    buyer: Buyer, dep: Departure, departureAt: int, coach: Coach, manifest: seq<Passenger>, fare: Fare,
    settlement: Option<string>, newBookingId: string)

  datatype ConfirmOutcome =
    | Booked(bookingId: string)
    | AlreadyBooked(bookingId: string)
    | HoldRequired
    | HoldExpired
    | HoldSeatMismatch
    | ManifestIncomplete
    | GenderLocked(seatId: SeatId)
    | ConstraintViolation

  /** `findBookingByTransaction`. */
  function BookingOf(t: Tables, buyer: Buyer): (r: Option<string>)
    ensures r.Some? ==> r.value in t.sold && r.value in t.bookings && t.bookings[r.value].buyer == buyer
    ensures r.None? ==> forall b | b in t.sold && b in t.bookings :: t.bookings[b].buyer != buyer
  {
    BookingIn(t.sold, t.bookings, buyer)
  }

  function BookingIn(sold: seq<string>, bookings: map<string, Booking>, buyer: Buyer): (r: Option<string>)
    ensures r.Some? ==> r.value in sold && r.value in bookings && bookings[r.value].buyer == buyer
    ensures r.None? ==> forall b | b in sold && b in bookings :: bookings[b].buyer != buyer
  {
    if sold == [] then None
    else if sold[0] in bookings && bookings[sold[0]].buyer == buyer then Some(sold[0])
    else BookingIn(sold[1..], bookings, buyer)
  }

  function BookRow(r: LockRow, holdId: string, bookingId: string): LockRow {
    if r.holdId == holdId && r.state.HELD? then r.(state := BOOKED, bookingId := Some(bookingId), expiresAt := None) else r
  }

  function BookHold(locks: seq<LockRow>, holdId: string, bookingId: string): (r: seq<LockRow>)
    ensures |r| == |locks|
    ensures forall i | 0 <= i < |locks| :: r[i] == BookRow(locks[i], holdId, bookingId)
  {
    seq(|locks|, i requires 0 <= i < |locks| => BookRow(locks[i], holdId, bookingId))
  }

  /** The row count of confirm's UPDATE. */
  function HeldCount(locks: seq<LockRow>, holdId: string): nat {
    if locks == [] then 0
    else (if locks[0].holdId == holdId && locks[0].state.HELD? then 1 else 0) + HeldCount(locks[1..], holdId)
  }

  function SeatRowsFor(manifest: seq<Passenger>, fare: Fare): (r: seq<SeatRow>)
    ensures |r| == |manifest|
    ensures forall i | 0 <= i < |manifest| ::
      r[i] == SeatRow(manifest[i].seatId, manifest[i].gender, fare, CONFIRMED, None, None, None)
  {
    seq(|manifest|, i requires 0 <= i < |manifest| =>
      SeatRow(manifest[i].seatId, manifest[i].gender, fare, CONFIRMED, None, None, None))
  }

  /** The tables once the hold is booked and both inserts have run. */
  function WithBooking(t: Tables, holdId: string, rq: ConfirmRequest, now: int): Tables {
    var b := rq.newBookingId;
    var rows := SeatRowsFor(rq.manifest, rq.fare);
    t.(locks := BookHold(t.locks, holdId, b),
       sold := t.sold + [b],
       bookings := t.bookings[b := Booking(rq.buyer, rq.dep, rq.departureAt, CONFIRMED, SumFare(rows), now, None, None, None, rq.settlement)],
       seats := t.seats[b := rows])
  }

  /** `confirmBooking`: the count test, then the two unique keys, then both inserts. */
  function ConfirmBooking(t: Tables, holdId: string, rq: ConfirmRequest, now: int): (Tables, ConfirmOutcome) {
    var existing := BookingOf(t, rq.buyer);
    if HeldCount(t.locks, holdId) != |rq.manifest| then (t, HoldExpired)
    else if existing.Some? then (t, AlreadyBooked(existing.value))
    else if rq.newBookingId in t.bookings || !DistinctRows(SeatRowsFor(rq.manifest, rq.fare)) then (t, ConstraintViolation)
    else (WithBooking(t, holdId, rq, now), Booked(rq.newBookingId))
  }

  function Named(manifest: seq<Passenger>): set<SeatId> {
    set p | p in manifest :: p.seatId
  }

  function Assignments(manifest: seq<Passenger>): seq<Assignment> {
    seq(|manifest|, i requires 0 <= i < |manifest| => Assignment(manifest[i].seatId, manifest[i].gender))
  }

  predicate DistinctPassengers(manifest: seq<Passenger>) {
    forall i, j | 0 <= i < j < |manifest| :: manifest[i].seatId != manifest[j].seatId
  }

  datatype HoldCheck = Passes(hold: HoldRecord) | Refuses(outcome: ConfirmOutcome)

  /** `liveHoldAndManifest`, on tables it has just swept. */
  function CheckHold(t: Tables, rq: ConfirmRequest, now: int): HoldCheck {
    var latest := LatestHold(t.locks, rq.buyer);
    if latest.None? then Refuses(HoldRequired)
    else
      var hold := latest.value;
      if !StatusOf(hold, now).LIVE? then Refuses(HoldExpired)
      else if hold.dep != rq.dep then Refuses(HoldSeatMismatch)
      else if !DistinctPassengers(rq.manifest) then Refuses(ManifestIncomplete)
      else if !(Named(rq.manifest) <= Elements(hold.seatIds)) then Refuses(HoldSeatMismatch)
      else if !(Elements(hold.seatIds) <= Named(rq.manifest)) then Refuses(ManifestIncomplete)
      else
        var refusal := GenderRefusal(rq.coach, ClaimsOn(t, rq.dep), Some(rq.buyer.identity), Assignments(rq.manifest));
        if refusal.Some? then Refuses(GenderLocked(refusal.value)) else Passes(hold)
  }

  function SweepTables(t: Tables, scope: Scope, now: int): Tables {
    t.(locks := Sweep(t.locks, scope, now))
  }

  /** The `confirm` action: an existing booking is returned; otherwise sweep, check, book. */
  function Confirm(t: Tables, rq: ConfirmRequest, now: int): (Tables, ConfirmOutcome) {
    var existing := BookingOf(t, rq.buyer);
    if existing.Some? then (t, AlreadyBooked(existing.value))
    else
      var swept := SweepTables(t, Only({rq.dep}), now);
      match CheckHold(swept, rq, now)
      case Refuses(outcome) => (swept, outcome)
      case Passes(hold) => ConfirmBooking(swept, hold.holdId, rq, now)
  }

  /* ---- cancel ---- */

  function CancelRow(r: SeatRow, seatIds: seq<SeatId>, slab: SlabCode, refunds: map<SeatId, int>, now: int): SeatRow {
    if r.seatId in seatIds && r.status.CONFIRMED? then
      r.(status := CANCELLED, cancelledAt := Some(now),
         refund := Some(if r.seatId in refunds then refunds[r.seatId] else 0), slab := Some(slab))
    else r
  }

  function CancelRows(rows: seq<SeatRow>, seatIds: seq<SeatId>, slab: SlabCode, refunds: map<SeatId, int>, now: int): (r: seq<SeatRow>)
    ensures |r| == |rows|
    ensures forall i | 0 <= i < |rows| :: r[i] == CancelRow(rows[i], seatIds, slab, refunds, now)
  {
    seq(|rows|, i requires 0 <= i < |rows| => CancelRow(rows[i], seatIds, slab, refunds, now))
  }

  function UnbookRow(r: LockRow, bookingId: string, seatIds: seq<SeatId>): LockRow {
    if r.bookingId == Some(bookingId) && r.seatId in seatIds && r.state.BOOKED? then r.(state := RELEASED) else r
  }

  function Unbook(locks: seq<LockRow>, bookingId: string, seatIds: seq<SeatId>): (r: seq<LockRow>)
    ensures |r| == |locks|
    ensures forall i | 0 <= i < |locks| :: r[i] == UnbookRow(locks[i], bookingId, seatIds)
  {
    seq(|locks|, i requires 0 <= i < |locks| => UnbookRow(locks[i], bookingId, seatIds))
  }

  /** The booking row after its seats were cancelled: the roll-up of the seats. */
  function RollUp(bk: Booking, rows: seq<SeatRow>, slab: SlabCode, now: int): Booking {
    bk.(status := if CountConfirmed(rows) == 0 then CANCELLED else CONFIRMED,
        cancelledAt := Some(now), refund := Some(SumRefund(rows)), slab := Some(slab))
  }

  /** `applyCancellation`, every seat at once; the store's loop is proved to reach the same tables. */
  function ApplyCancellation(t: Tables, b: string, seatIds: seq<SeatId>, slab: SlabCode, refunds: map<SeatId, int>, now: int): Tables {
    var t' := t.(locks := Unbook(t.locks, b, seatIds));
    if b !in t.bookings || b !in t.seats then t'
    else
      var rows := CancelRows(t.seats[b], seatIds, slab, refunds, now);
      t'.(seats := t.seats[b := rows], bookings := t.bookings[b := RollUp(t.bookings[b], rows, slab, now)])
  }

  datatype CancelRequest = CancelRequest(
    buyer: Buyer, bookingId: string, seatIds: seq<SeatId>, quoteId: Option<string>, newQuoteId: string)

  datatype CancelOutcome =
    | BookingNotFound
    | SeatNotOnBooking
    | NothingLive(storedRefund: int)
    | Quoted(quoteId: string, quote: Quote)
    | QuoteExpired
    | SlabMoved(replacementId: string, replacement: Quote)
    | RepeatedQuoteId
    | Committed(refund: int, slab: SlabCode)

  /** The confirmed seats a request targets: those it names, or all of them. */
  function Targets(rows: seq<SeatRow>, named: seq<SeatId>): (r: seq<RefundableSeat>)
    ensures forall s | s in r :: exists k | 0 <= k < |rows| :: rows[k].status.CONFIRMED? && s == RefundableSeat(rows[k].seatId, rows[k].fare)
  {
    if rows == [] then []
    else
      var rest := Targets(rows[1..], named);
      assert forall k | 0 <= k < |rows| - 1 :: rows[1..][k] == rows[k + 1];
      if rows[0].status.CONFIRMED? && (named == [] || rows[0].seatId in named)
      then [RefundableSeat(rows[0].seatId, rows[0].fare)] + rest
      else rest
  }

  function TargetIds(live: seq<RefundableSeat>): (r: seq<SeatId>)
    ensures |r| == |live| && forall i | 0 <= i < |live| :: r[i] == live[i].seatId
  {
    seq(|live|, i requires 0 <= i < |live| => live[i].seatId)
  }

  /** `Array.prototype.join(",")`. */
  function Join(ids: seq<string>): string {
    if ids == [] then "" else if |ids| == 1 then ids[0] else ids[0] + "," + Join(ids[1..])
  }

  /** The `perSeatPaise` map. */
  function PerSeat(live: seq<RefundableSeat>, percent: nat): map<SeatId, int>
    requires percent <= 100
  {
    if live == [] then map[]
    else PerSeat(live[..|live| - 1], percent)[live[|live| - 1].seatId := SeatRefund(live[|live| - 1].fare, percent)]
  }

  const QUOTE_MS: int := 2 * 60 * 1000

  function NewQuote(b: string, live: seq<RefundableSeat>, slab: SlabCode, now: int): Quote {
    Quote(b, SortedDistinct(TargetIds(live)), slab, Percent(slab), RefundTotal(Fares(live), Percent(slab)), now, now + QUOTE_MS)
  }

  /** `findBookingOrRefuse` and the refusal of unknown seats, shared by both cancel codes. */
  function CancelRefusal(t: Tables, rq: CancelRequest): Option<CancelOutcome> {
    var b := rq.bookingId;
    if b !in t.bookings || b !in t.seats then Some(BookingNotFound)
    else if t.bookings[b].buyer.operator != rq.buyer.operator
         || t.bookings[b].buyer.identity.bapId != rq.buyer.identity.bapId
         || t.bookings[b].buyer.identity.bapUri != rq.buyer.identity.bapUri then Some(BookingNotFound)
    else if exists s | s in rq.seatIds :: s !in RowIds(t.seats[b]) then Some(SeatNotOnBooking)
    else if Targets(t.seats[b], rq.seatIds) == [] then Some(NothingLive(t.bookings[b].refund.GetOr(0)))
    else None
  }

  /** `softCancel`: quote, change nothing else. */
  function SoftCancel(t: Tables, rq: CancelRequest, now: int): (Tables, CancelOutcome) {
    var refusal := CancelRefusal(t, rq);
    if refusal.Some? then (t, refusal.value)
    else if rq.newQuoteId in t.quotes then (t, RepeatedQuoteId)
    else
      var b := rq.bookingId;
      var q := NewQuote(b, Targets(t.seats[b], rq.seatIds), SlabFor(t.bookings[b].departureAt, now), now);
      (t.(quotes := t.quotes[rq.newQuoteId := q]), Quoted(rq.newQuoteId, q))
  }

  /** `confirmCancel`: commit against a live quote for these seats in this slab, or refuse. */
  function CommitCancel(t: Tables, rq: CancelRequest, now: int): (Tables, CancelOutcome) {
    var refusal := CancelRefusal(t, rq);
    if refusal.Some? then (t, refusal.value)
    else
      var b := rq.bookingId;
      var live := Targets(t.seats[b], rq.seatIds);
      var wanted := SortedDistinct(TargetIds(live));
      if rq.quoteId.None? || rq.quoteId.value !in t.quotes then (t, QuoteExpired)
      else
        var quote := t.quotes[rq.quoteId.value];
        if quote.bookingId != b || Join(quote.seatIds) != Join(wanted) then (t, QuoteExpired)
        else if quote.expiresAt <= now then (t, QuoteExpired)
        else
          var slab := SlabFor(t.bookings[b].departureAt, now);
          if slab != quote.slab then
            if rq.newQuoteId in t.quotes then (t, RepeatedQuoteId)
            else
              var q := NewQuote(b, live, slab, now);
              (t.(quotes := t.quotes[rq.newQuoteId := q]), SlabMoved(rq.newQuoteId, q))
          else
            (ApplyCancellation(t, b, wanted, slab, PerSeat(live, Percent(slab)), now),
             Committed(RefundTotal(Fares(live), Percent(slab)), slab))
  }

  /* ---- retention ---- */

  function ForgetRows(rows: seq<SeatRow>): (r: seq<SeatRow>)
    ensures |r| == |rows| && forall k | 0 <= k < |rows| :: r[k] == rows[k].(gender := None)
  {
    seq(|rows|, k requires 0 <= k < |rows| => rows[k].(gender := None))
  }

  function ForgetSeats(seats: map<string, seq<SeatRow>>, bookings: map<string, Booking>, cutoff: int): (r: map<string, seq<SeatRow>>)
    ensures r.Keys == seats.Keys
    ensures forall b | b in seats :: r[b] == seats[b] || r[b] == ForgetRows(seats[b])
  {
    map b | b in seats :: if b in bookings && bookings[b].departureAt < cutoff then ForgetRows(seats[b]) else seats[b]
  }

  /** `sweepManifests`, when its throttle lets it run: past departures lose what their manifests said. */
  function Forget(t: Tables, cutoff: int): Tables {
    t.(seats := ForgetSeats(t.seats, t.bookings, cutoff))
  }
}
