/** Cancellation slabs and refund arithmetic (`src/reserved/refund.ts`), in whole paise. */
module Refund {
  import opened Basics

  datatype SlabCode = OVER_72H | FROM_72H_TO_24H | FROM_24H_TO_2H | UNDER_2H

  const HOUR: int := 60 * 60 * 1000

  function Percent(code: SlabCode): (p: nat)
    ensures p <= 100
  {
    match code
    case OVER_72H => 10
    case FROM_72H_TO_24H => 25
    case FROM_24H_TO_2H => 50
    case UNDER_2H => 100
  }

  /** Each boundary belongs to the stricter side. */
  function SlabFor(departureAt: int, now: int): SlabCode {
    var remaining := departureAt - now;
    if remaining > 72 * HOUR then OVER_72H
    else if remaining > 24 * HOUR then FROM_72H_TO_24H
    else if remaining > 2 * HOUR then FROM_24H_TO_2H
    else UNDER_2H
  }

  /** `Math.floor(x / 100 + 0.5)`: the nearest whole number of hundredths, a tie going up. */
  function RoundHalfUp(x: int): (r: int)
    ensures x - 50 < 100 * r <= x + 50
  {
    (x + 50) / 100
  }

  datatype Fare = Fare(base: nat, fee: nat, toll: nat)

  datatype RefundableSeat = RefundableSeat(seatId: SeatId, fare: Fare)

  /** The part of a base fare a slab returns. */
  function Kept(base: nat, percent: nat): (kept: nat)
    requires percent <= 100
    ensures kept <= base
    ensures percent == 100 ==> kept == 0
  {
    assert 0 <= base * (100 - percent) <= base * 100;
    RoundHalfUp(base * (100 - percent))
  }

  /** What one seat gets back: the kept share of its base fare and all of its toll. */
  function SeatRefund(fare: Fare, percent: nat): nat
    requires percent <= 100
  {
    Kept(fare.base, percent) + fare.toll
  }

  /** What the corporation keeps of one seat. */
  function Retained(fare: Fare, percent: nat): nat
    requires percent <= 100
  {
    fare.base - Kept(fare.base, percent) + fare.fee
  }

  /** `retainedPaise`. */
  function RetainedPaise(fares: seq<Fare>, percent: nat): nat
    requires percent <= 100
  {
    if fares == [] then 0 else Retained(fares[0], percent) + RetainedPaise(fares[1..], percent)
  }

  function RefundTotal(fares: seq<Fare>, percent: nat): nat
    requires percent <= 100
  {
    if fares == [] then 0 else SeatRefund(fares[0], percent) + RefundTotal(fares[1..], percent)
  }

  function PaidTotal(fares: seq<Fare>): nat {
    if fares == [] then 0 else fares[0].base + fares[0].fee + fares[0].toll + PaidTotal(fares[1..])
  }

  function Fares(seats: seq<RefundableSeat>): (r: seq<Fare>)
    ensures |r| == |seats| && forall i | 0 <= i < |seats| :: r[i] == seats[i].fare
  {
    seq(|seats|, i requires 0 <= i < |seats| => seats[i].fare)
  }

  /** Refund and retained amount split exactly what was paid, whatever the slab and the rounding. */
  lemma {:induction false} RefundComplementsRetained(fares: seq<Fare>, percent: nat)
    requires percent <= 100
    ensures RefundTotal(fares, percent) + RetainedPaise(fares, percent) == PaidTotal(fares)
  {
    if fares != [] {
      RefundComplementsRetained(fares[1..], percent);
    }
  }

  lemma TimesMonotone(base: nat, a: nat, b: nat)
    requires a <= b
    ensures base * a <= base * b
  {
    var more := b - a;
    assert base * (a + more) == base * a + base * more;
  }

  lemma RoundMonotone(x: int, y: int)
    requires x <= y
    ensures RoundHalfUp(x) <= RoundHalfUp(y)
  {
  }

  lemma KeptMonotone(base: nat, p: nat, q: nat)
    requires p <= q <= 100
    ensures Kept(base, q) <= Kept(base, p)
  {
    TimesMonotone(base, 100 - q, 100 - p);
    RoundMonotone(base * (100 - q), base * (100 - p));
  }

  lemma SlabMonotone(departureAt: int, t: int, u: int)
    requires t <= u
    ensures Percent(SlabFor(departureAt, t)) <= Percent(SlabFor(departureAt, u))
  {
  }

  lemma SeatRefundMonotone(fare: Fare, departureAt: int, t: int, u: int)
    requires t <= u
    ensures SeatRefund(fare, Percent(SlabFor(departureAt, u))) <= SeatRefund(fare, Percent(SlabFor(departureAt, t)))
  {
    SlabMonotone(departureAt, t, u);
    KeptMonotone(fare.base, Percent(SlabFor(departureAt, t)), Percent(SlabFor(departureAt, u)));
  }

  /** One cancelled seat and the instant it was cancelled at. */
  datatype Cancelled = Cancelled(fare: Fare, at: int)

  function PathTotal(path: seq<Cancelled>, departureAt: int): nat {
    if path == [] then 0
    else SeatRefund(path[0].fare, Percent(SlabFor(departureAt, path[0].at))) + PathTotal(path[1..], departureAt)
  }

  function PathFares(path: seq<Cancelled>): seq<Fare> {
    if path == [] then [] else [path[0].fare] + PathFares(path[1..])
  }

  /**
   * However a set of seats is split into cancellations, what comes back in all lies between
   * cancelling everything at the last instant and cancelling everything at the first; it is
   * the same figure when the two instants share a slab.
   */
  lemma {:induction false} RefundPathBounds(path: seq<Cancelled>, departureAt: int, first: int, last: int)
    requires forall i | 0 <= i < |path| :: first <= path[i].at <= last
    ensures RefundTotal(PathFares(path), Percent(SlabFor(departureAt, last)))
         <= PathTotal(path, departureAt)
         <= RefundTotal(PathFares(path), Percent(SlabFor(departureAt, first)))
    ensures SlabFor(departureAt, first) == SlabFor(departureAt, last)
        ==> PathTotal(path, departureAt) == RefundTotal(PathFares(path), Percent(SlabFor(departureAt, first)))
  {
    if path != [] {
      RefundPathBounds(path[1..], departureAt, first, last);
      SeatRefundMonotone(path[0].fare, departureAt, first, path[0].at);
      SeatRefundMonotone(path[0].fare, departureAt, path[0].at, last);
      assert PathFares(path)[1..] == PathFares(path[1..]);
    }
  }

  datatype RefundComputation = RefundComputation(
    slab: SlabCode, basePaise: int, slabDeductionPaise: int, reservationFeePaise: int,
    tollRefundPaise: int, refundPaise: int, perSeatPaise: map<SeatId, int>)

  lemma {:induction false} RefundTotalAppend(fares: seq<Fare>, f: Fare, percent: nat)
    requires percent <= 100
    ensures RefundTotal(fares + [f], percent) == RefundTotal(fares, percent) + SeatRefund(f, percent)
    ensures RetainedPaise(fares + [f], percent) == RetainedPaise(fares, percent) + Retained(f, percent)
    ensures PaidTotal(fares + [f]) == PaidTotal(fares) + f.base + f.fee + f.toll
  {
    if fares == [] {
      assert fares + [f] == [f];
    } else {
      RefundTotalAppend(fares[1..], f, percent);
      assert (fares + [f])[1..] == fares[1..] + [f];
    }
  }

  /** The per-seat map after the first `n` seats: one key each and, without repetition, each one's share. */
  predicate SharesUpTo(seats: seq<RefundableSeat>, n: nat, perSeat: map<SeatId, int>, percent: nat)
    requires n <= |seats| && percent <= 100
  {
    && perSeat.Keys == (set i | 0 <= i < n :: seats[i].seatId)
    && ((forall i, j | 0 <= i < j < |seats| :: seats[i].seatId != seats[j].seatId) ==>
          forall i | 0 <= i < n :: seats[i].seatId in perSeat && perSeat[seats[i].seatId] == SeatRefund(seats[i].fare, percent))
  }

  lemma ShareStep(seats: seq<RefundableSeat>, n: nat, perSeat: map<SeatId, int>, percent: nat)
    requires n < |seats| && percent <= 100 && SharesUpTo(seats, n, perSeat, percent)
    ensures SharesUpTo(seats, n + 1, perSeat[seats[n].seatId := SeatRefund(seats[n].fare, percent)], percent)
  {
  }

  /** The running totals after some of the seats, line by line. */
  predicate Totals(fares: seq<Fare>, percent: nat, base: int, deduction: int, toll: int, fee: int)
    requires percent <= 100
  {
    && base == BaseTotal(fares) && fee == FeeTotal(fares)
    && base - deduction + toll == RefundTotal(fares, percent)
    && deduction + fee == RetainedPaise(fares, percent)
  }

  lemma {:induction false} BaseAndFeeAppend(fares: seq<Fare>, f: Fare)
    ensures BaseTotal(fares + [f]) == BaseTotal(fares) + f.base && FeeTotal(fares + [f]) == FeeTotal(fares) + f.fee
  {
    if fares == [] {
      assert fares + [f] == [f];
    } else {
      BaseAndFeeAppend(fares[1..], f);
      assert (fares + [f])[1..] == fares[1..] + [f];
    }
  }

  lemma TotalsStep(seats: seq<RefundableSeat>, i: nat, percent: nat, base: int, deduction: int, toll: int, fee: int)
    requires i < |seats| && percent <= 100 && Totals(Fares(seats[..i]), percent, base, deduction, toll, fee)
    ensures var f := seats[i].fare;
      Totals(Fares(seats[..i + 1]), percent, base + f.base, deduction + f.base - Kept(f.base, percent), toll + f.toll, fee + f.fee)
  {
    assert Fares(seats[..i + 1]) == Fares(seats[..i]) + [seats[i].fare];
    RefundTotalAppend(Fares(seats[..i]), seats[i].fare, percent);
    BaseAndFeeAppend(Fares(seats[..i]), seats[i].fare);
  }

  lemma AllShares(seats: seq<RefundableSeat>, perSeat: map<SeatId, int>, percent: nat)
    requires percent <= 100 && SharesUpTo(seats, |seats|, perSeat, percent)
    ensures perSeat.Keys == set s | s in seats :: s.seatId
  {
    forall id ensures id in perSeat.Keys <==> id in (set s | s in seats :: s.seatId) {
      if s :| s in seats && s.seatId == id {
        var i :| 0 <= i < |seats| && seats[i] == s;
      }
    }
  }

  /**
   * `computeRefund`: the slab is read once, every seat is rounded on its own, and the running
   * totals agree with the per-seat figures. The published lines add up to the published price.
   */
  method ComputeRefund(seats: seq<RefundableSeat>, departureAt: int, now: int) returns (r: RefundComputation)
    ensures r.slab == SlabFor(departureAt, now)
    ensures r.refundPaise == RefundTotal(Fares(seats), Percent(r.slab))
    ensures r.basePaise == BaseTotal(Fares(seats)) && r.reservationFeePaise == FeeTotal(Fares(seats))
    ensures r.refundPaise == r.basePaise - r.slabDeductionPaise + r.tollRefundPaise
    ensures r.slabDeductionPaise + r.reservationFeePaise == RetainedPaise(Fares(seats), Percent(r.slab))
    ensures r.refundPaise + r.slabDeductionPaise + r.reservationFeePaise == PaidTotal(Fares(seats))
    ensures (forall i, j | 0 <= i < j < |seats| :: seats[i].seatId != seats[j].seatId) ==>
      forall i | 0 <= i < |seats| ::
        seats[i].seatId in r.perSeatPaise && r.perSeatPaise[seats[i].seatId] == SeatRefund(seats[i].fare, Percent(r.slab))
    ensures r.perSeatPaise.Keys == set s | s in seats :: s.seatId
  {
    var slab := SlabFor(departureAt, now);
    var p := Percent(slab);
    var perSeat: map<SeatId, int> := map[];
    var base, deduction, toll, fee := 0, 0, 0, 0;
    for i := 0 to |seats|
      invariant Totals(Fares(seats[..i]), p, base, deduction, toll, fee)
      invariant SharesUpTo(seats, i, perSeat, p)
    {
      var fare := seats[i].fare;
      var kept := Kept(fare.base, p);
      ShareStep(seats, i, perSeat, p);
      TotalsStep(seats, i, p, base, deduction, toll, fee);
      base, deduction := base + fare.base, deduction + fare.base - kept;
      toll, fee := toll + fare.toll, fee + fare.fee;
      perSeat := perSeat[seats[i].seatId := kept + fare.toll];
    }
    assert seats[..|seats|] == seats;
    AllShares(seats, perSeat, p);
    RefundComplementsRetained(Fares(seats), p);
    r := RefundComputation(slab, base, deduction, fee, toll, base - deduction + toll, perSeat);
  }

  /* ---- the terms, in milliseconds and paise ---- */

  /** `kept` is `percent` hundredths of `base` to the nearest paisa, a half going up. */
  predicate HalfUp(kept: int, base: int, percent: int) {
    base * percent - 50 < 100 * kept <= base * percent + 50
  }

  /** What comes back of the base fare of a seat, the toll aside. */
  function Back(fare: Fare, departureAt: int, now: int): int {
    SeatRefund(fare, Percent(SlabFor(departureAt, now))) - fare.toll
  }

  lemma HalfUpUnique(a: int, b: int, base: int, percent: int)
    requires HalfUp(a, base, percent) && HalfUp(b, base, percent)
    ensures a == b
  {
  }

  lemma KeptIsHalfUp(base: nat, percent: nat)
    requires percent <= 100
    ensures HalfUp(Kept(base, percent), base, 100 - percent)
  {
  }

  /**
   * The published terms. More than 72 hours before departure nine tenths of the base fare come back,
   * down to 24 hours three quarters, down to 2 hours one half, and from then on nothing; each boundary
   * is on the stricter side, every figure is rounded half up to the paisa, and the toll comes back whole.
   */
  lemma RefundTerms(fare: Fare, departureAt: int, now: int)
    ensures var left, back := departureAt - now, Back(fare, departureAt, now);
      && (left > 259_200_000 ==> HalfUp(back, fare.base, 90))
      && (86_400_000 < left <= 259_200_000 ==> HalfUp(back, fare.base, 75))
      && (7_200_000 < left <= 86_400_000 ==> HalfUp(back, fare.base, 50))
      && (left <= 7_200_000 ==> back == 0)
    ensures SeatRefund(fare, Percent(SlabFor(departureAt, now))) == Back(fare, departureAt, now) + fare.toll
  {
    KeptIsHalfUp(fare.base, Percent(SlabFor(departureAt, now)));
  }

  /** The three boundary instants themselves. */
  lemma BoundariesAreStrict(fare: Fare, departureAt: int)
    ensures HalfUp(Back(fare, departureAt, departureAt - 259_200_000), fare.base, 75)
    ensures HalfUp(Back(fare, departureAt, departureAt - 86_400_000), fare.base, 50)
    ensures Back(fare, departureAt, departureAt - 7_200_000) == 0
  {
    RefundTerms(fare, departureAt, departureAt - 259_200_000);
    RefundTerms(fare, departureAt, departureAt - 86_400_000);
    RefundTerms(fare, departureAt, departureAt - 7_200_000);
  }

  lemma HalfUpDiffers(kept: int, base: int, p: int, q: int)
    requires base >= 7 && p + 15 <= q && HalfUp(kept, base, q)
    ensures !HalfUp(kept, base, p)
  {
    var gap := q - p - 15;
    assert base * q == base * p + base * 15 + base * gap;
    assert base * gap >= 0;
  }

  /** Bases on which no two slabs return the same figure: all but 0, 1, 2, 3 and 6 paise. */
  predicate Telling(base: nat) {
    base == 4 || base == 5 || base >= 7
  }

  lemma TellingExactly(base: nat)
    ensures Telling(base) <==> Kept(base, 10) > Kept(base, 25) > Kept(base, 50) > Kept(base, 100)
  {
  }

  /** On such a base the figure tells the time left, and the time left the figure. */
  lemma RefundTermsExactly(fare: Fare, departureAt: int, now: int)
    requires Telling(fare.base)
    ensures var left, back := departureAt - now, Back(fare, departureAt, now);
      && (HalfUp(back, fare.base, 90) <==> left > 259_200_000)
      && (HalfUp(back, fare.base, 75) <==> 86_400_000 < left <= 259_200_000)
      && (HalfUp(back, fare.base, 50) <==> 7_200_000 < left <= 86_400_000)
      && (HalfUp(back, fare.base, 0) <==> left <= 7_200_000)
  {
    RefundTerms(fare, departureAt, now);
    var back := Back(fare, departureAt, now);
    if fare.base < 7 {
      return;
    }
    if HalfUp(back, fare.base, 90) {
      OnlyNineTenths(back, fare.base);
    }
    if HalfUp(back, fare.base, 75) {
      HalfUpDiffers(back, fare.base, 50, 75);
      HalfUpDiffers(back, fare.base, 0, 75);
    }
    if HalfUp(back, fare.base, 50) {
      HalfUpDiffers(back, fare.base, 0, 50);
    }
  }

  lemma OnlyNineTenths(back: int, base: int)
    requires base >= 7 && HalfUp(back, base, 90)
    ensures !HalfUp(back, base, 75) && !HalfUp(back, base, 50) && !HalfUp(back, base, 0)
  {
    HalfUpDiffers(back, base, 75, 90);
    HalfUpDiffers(back, base, 50, 90);
    HalfUpDiffers(back, base, 0, 90);
  }

  /* ---- concessions ---- */

  function BaseTotal(fares: seq<Fare>): nat {
    if fares == [] then 0 else fares[0].base + BaseTotal(fares[1..])
  }

  /** `concessionDiscountPaise`, on the base fare of the whole order. */
  function Discount(fares: seq<Fare>, concession: nat): int {
    RoundHalfUp(BaseTotal(fares) * concession)
  }

  /** What the rider was charged. */
  function Charged(fares: seq<Fare>, concession: nat): int {
    PaidTotal(fares) - Discount(fares, concession)
  }

  /**
   * The refund is reckoned on the full fare, so it stays within the price exactly when the discount
   * does not exceed what the corporation keeps; without a concession it always does.
   */
  lemma RefundWithinPriceExactly(fares: seq<Fare>, percent: nat, concession: nat)
    requires percent <= 100
    ensures RefundTotal(fares, percent) <= Charged(fares, concession) <==> Discount(fares, concession) <= RetainedPaise(fares, percent)
    ensures concession == 0 ==> RefundTotal(fares, percent) <= Charged(fares, concession)
  {
    RefundComplementsRetained(fares, percent);
  }

  function FeeTotal(fares: seq<Fare>): nat {
    if fares == [] then 0 else fares[0].fee + FeeTotal(fares[1..])
  }

  /** One more seat in a product of the base total. */
  lemma OneMoreBase(base: nat, rest: nat, p: nat)
    ensures (base + rest) * p == base * p + rest * p
  {
  }

  lemma OneSeatRounding(base: nat, p: nat)
    requires p <= 100
    ensures base * p - 50 <= 100 * (base - Kept(base, p)) <= base * p + 50
  {
    assert base * (100 - p) == 100 * base - base * p;
    assert 100 * Kept(base, p) <= base * (100 - p) + 50;
    assert base * (100 - p) - 50 < 100 * Kept(base, p);
  }

  /** What is kept, to within half a paisa a seat. */
  lemma {:induction false} RetainedInRates(fares: seq<Fare>, p: nat)
    requires p <= 100
    ensures BaseTotal(fares) * p - 50 * |fares| <= 100 * (RetainedPaise(fares, p) - FeeTotal(fares)) <= BaseTotal(fares) * p + 50 * |fares|
  {
    if fares != [] {
      RetainedInRates(fares[1..], p);
      OneSeatRounding(fares[0].base, p);
      OneMoreBase(fares[0].base, BaseTotal(fares[1..]), p);
    }
  }

  /** The concession outweighs the deduction and the fees by more than rounding could hide. */
  predicate ConcessionExceeds(fares: seq<Fare>, p: nat, concession: nat) {
    BaseTotal(fares) * concession - BaseTotal(fares) * p > 100 * FeeTotal(fares) + 50 * (|fares| + 1)
  }

  /** Deduction and fees outweigh the concession by more than rounding could hide. */
  predicate ConcessionCovered(fares: seq<Fare>, p: nat, concession: nat) {
    BaseTotal(fares) * concession - BaseTotal(fares) * p + 50 * (|fares| + 1) <= 100 * FeeTotal(fares)
  }

  /**
   * In the rates alone, whatever the tolls: a concession rate that the deduction rate and the fees
   * cover keeps the refund within the price, and one that exceeds them does not.
   */
  lemma RefundWithinPriceByRates(fares: seq<Fare>, p: nat, concession: nat)
    requires p <= 100
    ensures ConcessionCovered(fares, p, concession) ==> RefundTotal(fares, p) <= Charged(fares, concession)
    ensures ConcessionExceeds(fares, p, concession) ==> RefundTotal(fares, p) > Charged(fares, concession)
  {
    RetainedInRates(fares, p);
    RefundWithinPriceExactly(fares, p, concession);
    var d := Discount(fares, concession);
    assert BaseTotal(fares) * concession - 50 < 100 * d <= BaseTotal(fares) * concession + 50;
  }

  /** A seat that travels free, cancelled four days ahead, gets back nine tenths of a fare nobody paid. */
  lemma FreeSeatIsRefunded(fare: Fare)
    requires fare == Fare(10_000, 0, 0)
    ensures Charged([fare], 100) == 0 && RefundTotal([fare], Percent(OVER_72H)) == 9_000
  {
    assert [fare][1..] == [];
    assert BaseTotal([fare]) == 10_000 && PaidTotal([fare]) == 10_000;
    assert RefundTotal([fare], 10) == SeatRefund(fare, 10);
  }
}
