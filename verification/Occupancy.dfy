/**
 * The seeded sold set of a departure (`src/reserved/occupancy.ts`): the top seats by rank. The rank is
 * any real-valued function of the seat; ties break on the seat id.
 */
module Occupancy {
  import opened Basics

  type Rank = SeatId -> real

  /** `a` is sold before `b`. */
  predicate Outranks(rank: Rank, a: SeatId, b: SeatId) {
    rank(a) > rank(b) || (rank(a) == rank(b) && Below(a, b))
  }

  lemma OutranksIsTotal(rank: Rank, a: SeatId, b: SeatId)
    ensures a == b || Outranks(rank, a, b) || Outranks(rank, b, a)
    ensures !(Outranks(rank, a, b) && Outranks(rank, b, a))
  {
    BelowTotal(a, b);
    if Below(a, b) && Below(b, a) {
      BelowTransitive(a, b, a);
    }
    BelowIrreflexive(a);
  }

  lemma OutranksIsTransitive(rank: Rank, a: SeatId, b: SeatId, c: SeatId)
    requires Outranks(rank, a, b) && Outranks(rank, b, c)
    ensures Outranks(rank, a, c)
  {
    if rank(a) == rank(c) {
      BelowTransitive(a, b, c);
    }
  }

  ghost predicate InRankOrder(rank: Rank, s: seq<SeatId>) {
    forall i, j | 0 <= i < j < |s| :: Outranks(rank, s[i], s[j])
  }

  function Place(rank: Rank, x: SeatId, s: seq<SeatId>): (r: seq<SeatId>)
    ensures |r| == |s| + 1
    ensures forall y :: y in r <==> y == x || y in s
    ensures InRankOrder(rank, s) && x !in s ==> InRankOrder(rank, r)
  {
    if s == [] then [x]
    else if Outranks(rank, x, s[0]) then
      assert InRankOrder(rank, s) ==> forall j | 0 <= j < |s| :: Outranks(rank, x, s[j]) by {
        forall j | 0 < j < |s| && InRankOrder(rank, s) ensures Outranks(rank, x, s[j]) {
          OutranksIsTransitive(rank, x, s[0], s[j]);
        }
      }
      [x] + s
    else
      var rest := Place(rank, x, s[1..]);
      OutranksIsTotal(rank, x, s[0]);
      assert forall j | 0 <= j < |rest| :: rest[j] == x || rest[j] in s[1..] by {
        assert forall j | 0 <= j < |rest| :: rest[j] in rest;
      }
      [s[0]] + rest
  }

  /** The sort by descending rank. */
  function Ranked(rank: Rank, seats: seq<SeatId>): (r: seq<SeatId>)
    ensures |r| == |seats|
    ensures forall y :: y in r <==> y in seats
    ensures Distinct(seats) ==> InRankOrder(rank, r)
  {
    if seats == [] then [] else Place(rank, seats[0], Ranked(rank, seats[1..]))
  }

  /** `Math.round`: halves go up. */
  function Round(x: real): int {
    (x + 0.5).Floor
  }

  /** `s.slice(0, n)`, which counts a negative end from the back. */
  function Slice(s: seq<SeatId>, n: int): seq<SeatId> {
    if n >= |s| then s else if n >= 0 then s[..n] else if |s| + n >= 0 then s[..|s| + n] else []
  }

  function Count(fraction: real, n: nat): int {
    Round(fraction * n as real)
  }

  /** `selectSoldSeats`. */
  function Sold(rank: Rank, seats: seq<SeatId>, fraction: real): (r: seq<SeatId>)
    ensures Ascending(r)
  {
    SortedDistinct(Slice(Ranked(rank, seats), Count(fraction, |seats|)))
  }

  /* ---- the laws ---- */

  /** The seats that are sold before `s`. */
  function Better(rank: Rank, seats: seq<SeatId>, s: SeatId): set<SeatId> {
    set u | u in seats && Outranks(rank, u, s)
  }

  /** In rank order, exactly the earlier seats outrank a seat. */
  lemma BetterIsEarlier(rank: Rank, seats: seq<SeatId>, i: nat)
    requires Distinct(seats) && i < |seats|
    ensures var r := Ranked(rank, seats);
            Better(rank, seats, r[i]) == Elements(r[..i]) && |Elements(r[..i])| == i
  {
    var r := Ranked(rank, seats);
    forall u
      ensures u in Better(rank, seats, r[i]) <==> u in r[..i]
    {
      if u in r {
        var j :| 0 <= j < |r| && r[j] == u;
        OutranksIsTotal(rank, r[j], r[i]);
      }
    }
    RankOrderIsDistinct(rank, r);
    DistinctSize(r[..i]);
  }

  lemma RankOrderIsDistinct(rank: Rank, s: seq<SeatId>)
    requires InRankOrder(rank, s)
    ensures Distinct(s)
  {
    forall i, j | 0 <= i < j < |s| ensures s[i] != s[j] {
      BelowIrreflexive(s[i]);
    }
  }

  lemma CountInRange(fraction: real, n: nat)
    requires 0.0 <= fraction
    ensures Count(fraction, n) >= 0
    ensures fraction <= 1.0 ==> Count(fraction, n) <= n
  {
    assert fraction * n as real >= 0.0;
    if fraction <= 1.0 {
      assert (1.0 - fraction) * n as real >= 0.0;
      assert (1.0 - fraction) * n as real == n as real - fraction * n as real;
    }
  }

  /** A seat is sold exactly when fewer seats than the rounded count outrank it; a negative count is off the back. */
  lemma SoldExactly(rank: Rank, seats: seq<SeatId>, fraction: real, s: SeatId)
    requires Distinct(seats)
    ensures var n := Count(fraction, |seats|);
      s in Sold(rank, seats, fraction) <==> s in seats && |Better(rank, seats, s)| < if n < 0 then |seats| + n else n
  {
    var r, n := Ranked(rank, seats), Count(fraction, |seats|);
    if s in seats {
      var i :| 0 <= i < |r| && r[i] == s;
      BetterIsEarlier(rank, seats, i);
      RankOrderIsDistinct(rank, r);
      assert s in Slice(r, n) <==> i < if n < 0 then |seats| + n else n;
    }
  }

  /** The count is the nearest whole number of seats, a half going up. */
  lemma CountIsNearest(fraction: real, n: nat)
    ensures Count(fraction, n) as real - 0.5 <= fraction * n as real < Count(fraction, n) as real + 0.5
  {
  }

  /** The sold set has exactly the rounded count. */
  lemma SoldSize(rank: Rank, seats: seq<SeatId>, fraction: real)
    requires Distinct(seats) && 0.0 <= fraction <= 1.0
    ensures |Sold(rank, seats, fraction)| == Count(fraction, |seats|)
  {
    var r, n := Ranked(rank, seats), Count(fraction, |seats|);
    CountInRange(fraction, |seats|);
    RankOrderIsDistinct(rank, r);
    var sold := Sold(rank, seats, fraction);
    AscendingIsDistinct(sold);
    DistinctSize(sold);
    DistinctSize(r[..n]);
    assert Elements(sold) == Elements(r[..n]);
  }

  /** No unsold seat outranks a sold one. */
  lemma SoldAreTheBest(rank: Rank, seats: seq<SeatId>, fraction: real, s: SeatId, u: SeatId)
    requires Distinct(seats)
    ensures s in Sold(rank, seats, fraction) && u in seats && u !in Sold(rank, seats, fraction) ==>
      rank(s) > rank(u) || (rank(s) == rank(u) && Below(s, u))
  {
    SoldExactly(rank, seats, fraction, s);
    SoldExactly(rank, seats, fraction, u);
    OutranksIsTotal(rank, s, u);
    if Outranks(rank, u, s) {
      BetterOfBetter(rank, seats, u, s);
    }
  }

  lemma BetterOfBetter(rank: Rank, seats: seq<SeatId>, u: SeatId, s: SeatId)
    requires Outranks(rank, u, s)
    ensures |Better(rank, seats, u)| <= |Better(rank, seats, s)|
  {
    forall x | x in Better(rank, seats, u) ensures x in Better(rank, seats, s) {
      OutranksIsTransitive(rank, x, u, s);
    }
    SubsetSize(Better(rank, seats, u), Better(rank, seats, s));
  }

  lemma SubsetSize<T>(a: set<T>, b: set<T>)
    requires a <= b
    ensures |a| <= |b|
  {
    assert b == a + (b - a);
  }

  /** The order in which the seats were authored does not matter. */
  lemma AuthoredOrderIrrelevant(rank: Rank, seats: seq<SeatId>, other: seq<SeatId>, fraction: real)
    requires Distinct(seats) && Distinct(other) && Elements(seats) == Elements(other)
    ensures Sold(rank, seats, fraction) == Sold(rank, other, fraction)
  {
    DistinctSize(seats);
    DistinctSize(other);
    forall s
      ensures s in Sold(rank, seats, fraction) <==> s in Sold(rank, other, fraction)
    {
      SoldExactly(rank, seats, fraction, s);
      SoldExactly(rank, other, fraction, s);
      assert s in seats <==> s in Elements(seats);
      assert s in other <==> s in Elements(other);
      assert Better(rank, seats, s) == Better(rank, other, s) by {
        assert forall u :: u in seats <==> u in Elements(seats);
        assert forall u :: u in other <==> u in Elements(other);
      }
    }
    AscendingUnique(Sold(rank, seats, fraction), Sold(rank, other, fraction));
  }

  /** A larger fraction sells every seat that a smaller one does. */
  lemma SoldGrows(rank: Rank, seats: seq<SeatId>, fraction: real, larger: real, s: SeatId)
    requires Distinct(seats) && 0.0 <= fraction <= larger
    ensures s in Sold(rank, seats, fraction) ==> s in Sold(rank, seats, larger)
  {
    SoldExactly(rank, seats, fraction, s);
    SoldExactly(rank, seats, larger, s);
    CountInRange(fraction, |seats|);
    CountGrows(fraction, larger, |seats|);
    assert 0 <= Count(fraction, |seats|) <= Count(larger, |seats|);
  }

  lemma CountGrows(fraction: real, larger: real, n: nat)
    requires fraction <= larger
    ensures Count(fraction, n) <= Count(larger, n)
  {
    assert (larger - fraction) * n as real >= 0.0;
    assert (larger - fraction) * n as real == larger * n as real - fraction * n as real;
  }
}
