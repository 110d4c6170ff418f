/**
 * When quote and commit agree (`src/reserved/order.ts`). The commit compares the quote's seats with
 * its own as lists joined with commas, so what matters is whether the booking's ids join apart.
 */
module Quotes {
  import opened Basics
  import opened Locks
  import opened Refund
  import opened Store
  import opened StoreInvariant
  import opened Cancellation
  import opened Actions
  import opened Reachable

  ghost predicate CommitAgrees(t: Tables, rq: CancelRequest, now: int) {
    var (t', out) := CommitCancel(t, rq, now);
    out.Committed? ==> Agrees(t, rq, now, t', out)
  }

  /** A commit on `b` at the end of a run. */
  ghost predicate AgreesAfter(fleet: Fleet, t: Tables, b: string, trace: seq<Event>, rq: CancelRequest, at: int) {
    rq.bookingId == b ==> CommitAgrees(Run(fleet, t, trace).0, rq, at)
  }

  /** Whatever happens from here on, every commit on `b` does what the quote it names promised. */
  ghost predicate EveryCommitAgrees(fleet: Fleet, t: Tables, b: string) {
    forall trace, rq, at :: AgreesAfter(fleet, t, b, trace, rq, at)
  }

  predicate AllConfirmed(rows: seq<SeatRow>) {
    forall k | 0 <= k < |rows| :: rows[k].status.CONFIRMED?
  }

  /* ---- joining apart is enough ---- */

  lemma SameIds(a: seq<SeatRow>, b: seq<SeatRow>)
    requires SeatsEvolve(a, b)
    ensures RowIds(b) == RowIds(a)
  {
    forall k | 0 <= k < |a| ensures b[k].seatId == a[k].seatId {
      assert SeatEvolves(a[k], b[k]);
    }
    forall s ensures s in RowIds(b) <==> s in RowIds(a) {
      if s in RowIds(a) {
        var k :| 0 <= k < |a| && a[k].seatId == s;
        assert b[k] in b;
      }
      if s in RowIds(b) {
        var k :| 0 <= k < |b| && b[k].seatId == s;
        assert a[k] in a;
      }
    }
  }

  lemma AgreesInEveryState(t: Tables, rq: CancelRequest, now: int)
    requires Inv(t) && (rq.bookingId in t.seats ==> JoinsApart(RowIds(t.seats[rq.bookingId])))
    ensures CommitAgrees(t, rq, now)
  {
    var (t', out) := CommitCancel(t, rq, now);
    if out.Committed? {
      CommitGuards(t, rq, now, t', out);
      QuoteAndCommitAgree(t, rq, now, t', out);
    }
  }

  lemma AgreesAtTheEnd(fleet: Fleet, t: Tables, b: string, trace: seq<Event>, rq: CancelRequest, at: int)
    requires Inv(t) && b in t.seats && JoinsApart(RowIds(t.seats[b]))
    ensures AgreesAfter(fleet, t, b, trace, rq, at)
  {
    if rq.bookingId == b {
      var u := Run(fleet, t, trace).0;
      RunKeepsInv(fleet, t, trace);
      RunEvolves(fleet, t, trace);
      SameIds(t.seats[b], u.seats[b]);
      AgreesInEveryState(u, rq, at);
    }
  }

  /* ---- and necessary ---- */

  /** On a booking with nothing cancelled, a request for a list of its seats wants that list. */
  lemma WantsTheList(rows: seq<SeatRow>, x: seq<SeatId>)
    requires AllConfirmed(rows) && ListOver(x, RowIds(rows))
    ensures Wanted(rows, x) == x && Targets(rows, x) != []
  {
    forall s ensures s in Wanted(rows, x) <==> s in x {
      TargetIdsMembers(rows, x, s);
      if s in x {
        var r :| r in rows && r.seatId == s;
        var k :| 0 <= k < |rows| && rows[k] == r;
        assert IsTarget(rows[k], x);
      }
    }
    AscendingUnique(Wanted(rows, x), x);
    assert TargetIds(Targets(rows, x)) != [] by {
      assert x[0] in Wanted(rows, x);
    }
  }

  function Ask(bk: Booking, b: string, x: seq<SeatId>, id: string): CancelRequest {
    CancelRequest(bk.buyer, b, x, None, id)
  }

  function Commit(bk: Booking, b: string, y: seq<SeatId>, id: string): CancelRequest {
    CancelRequest(bk.buyer, b, y, Some(id), id)
  }

  lemma AskIsQuoted(t: Tables, b: string, x: seq<SeatId>, id: string, now: int)
    requires b in t.bookings && b in t.seats && AllConfirmed(t.seats[b]) && ListOver(x, RowIds(t.seats[b])) && id !in t.quotes
    ensures var q := NewQuote(b, Targets(t.seats[b], x), SlabFor(t.bookings[b].departureAt, now), now);
      && SoftCancel(t, Ask(t.bookings[b], b, x, id), now) == (t.(quotes := t.quotes[id := q]), Quoted(id, q))
      && q.seatIds == x
  {
    WantsTheList(t.seats[b], x);
  }

  lemma CommitIsCommitted(t: Tables, b: string, y: seq<SeatId>, id: string, now: int)
    requires b in t.bookings && b in t.seats && AllConfirmed(t.seats[b]) && ListOver(y, RowIds(t.seats[b])) && id in t.quotes
    requires var q := t.quotes[id];
      && q.bookingId == b && Join(q.seatIds) == Join(y) && now < q.expiresAt && q.slab == SlabFor(t.bookings[b].departureAt, now)
    ensures CommitCancel(t, Commit(t.bookings[b], b, y, id), now).1.Committed?
  {
    WantsTheList(t.seats[b], y);
  }

  /** A commit for `y` does not honour a quote for a different `x`. */
  lemma OtherSeatsDisagree(rows: seq<SeatRow>, rows': seq<SeatRow>, y: seq<SeatId>, q: Quote, now: int)
    requires AllConfirmed(rows) && ListOver(q.seatIds, RowIds(rows)) && ListOver(y, RowIds(rows)) && q.seatIds != y
    ensures !HonoursQuote(rows, rows', y, q, now)
  {
    if HonoursQuote(rows, rows', y, q, now) {
      forall s ensures s in q.seatIds <==> s in y {
        if s in RowIds(rows) {
          var r :| r in rows && r.seatId == s;
          var k :| 0 <= k < |rows| && rows[k] == r;
          assert s in q.seatIds <==> IsTarget(rows[k], y);
        }
      }
      AscendingUnique(q.seatIds, y);
    }
  }

  lemma {:induction false} LengthBound(keys: set<string>) returns (n: nat)
    ensures forall k | k in keys :: |k| <= n
  {
    if keys == {} {
      n := 0;
    } else {
      var k :| k in keys;
      var rest := LengthBound(keys - {k});
      n := if |k| > rest then |k| else rest;
    }
  }

  /** There is always another quote id. */
  lemma FreshId(keys: set<string>) returns (id: string)
    ensures id !in keys
  {
    var n := LengthBound(keys);
    id := seq(n + 1, _ => 'q');
  }

  /** A commit for one list against a quote for another with the same joined form goes through and disagrees. */
  lemma CommitDisagrees(t: Tables, b: string, y: seq<SeatId>, id: string, now: int)
    requires b in t.bookings && b in t.seats && AllConfirmed(t.seats[b]) && ListOver(y, RowIds(t.seats[b])) && id in t.quotes
    requires var q := t.quotes[id];
      && q.bookingId == b && ListOver(q.seatIds, RowIds(t.seats[b])) && q.seatIds != y && Join(q.seatIds) == Join(y)
      && now < q.expiresAt && q.slab == SlabFor(t.bookings[b].departureAt, now)
    ensures !CommitAgrees(t, Commit(t.bookings[b], b, y, id), now)
  {
    CommitIsCommitted(t, b, y, id, now);
    DisagreesIfSeatsDiffer(t, Commit(t.bookings[b], b, y, id), now);
  }

  lemma DisagreesIfSeatsDiffer(t: Tables, rq: CancelRequest, now: int)
    requires rq.bookingId in t.seats && AllConfirmed(t.seats[rq.bookingId]) && ListOver(rq.seatIds, RowIds(t.seats[rq.bookingId]))
    requires rq.quoteId.Some? && rq.quoteId.value in t.quotes
    requires var q := t.quotes[rq.quoteId.value]; ListOver(q.seatIds, RowIds(t.seats[rq.bookingId])) && q.seatIds != rq.seatIds
    ensures CommitAgrees(t, rq, now) ==> !CommitCancel(t, rq, now).1.Committed?
  {
    var (t', out) := CommitCancel(t, rq, now);
    if out.Committed? && Agrees(t, rq, now, t', out) {
      OtherSeatsDisagree(t.seats[rq.bookingId], t'.seats[rq.bookingId], rq.seatIds, t.quotes[rq.quoteId.value], now);
    }
  }

  lemma RunOneAsk(fleet: Fleet, t: Tables, rq: CancelRequest, now: int)
    ensures Run(fleet, t, [Event(now, AskRefund(rq))]).0 == SoftCancel(t, rq, now).0
  {
    assert [Event(now, AskRefund(rq))][1..] == [];
  }

  lemma JoinedTogetherDisagrees(fleet: Fleet, t: Tables, now: int, b: string, x: seq<SeatId>, y: seq<SeatId>, id: string)
    requires b in t.bookings && b in t.seats && AllConfirmed(t.seats[b]) && id !in t.quotes
    requires ListOver(x, RowIds(t.seats[b])) && ListOver(y, RowIds(t.seats[b])) && Join(x) == Join(y) && x != y
    ensures var bk := t.bookings[b];
      !AgreesAfter(fleet, t, b, [Event(now, AskRefund(Ask(bk, b, x, id)))], Commit(bk, b, y, id), now)
  {
    AskIsQuoted(t, b, x, id, now);
    RunOneAsk(fleet, t, Ask(t.bookings[b], b, x, id), now);
    var q := NewQuote(b, Targets(t.seats[b], x), SlabFor(t.bookings[b].departureAt, now), now);
    CommitDisagrees(t.(quotes := t.quotes[id := q]), b, y, id, now);
  }

  /**
   * From any state in which a booking stands as it was sold: every commit on it, after any run, does
   * exactly what the quote it names promised, if and only if the ids of its seats join apart.
   */
  lemma AgreementExactly(fleet: Fleet, t: Tables, b: string)
    requires Inv(t) && b in t.bookings && AllConfirmed(t.seats[b])
    ensures EveryCommitAgrees(fleet, t, b) <==> JoinsApart(RowIds(t.seats[b]))
  {
    var ids := RowIds(t.seats[b]);
    if JoinsApart(ids) {
      forall trace, rq, at ensures AgreesAfter(fleet, t, b, trace, rq, at) {
        AgreesAtTheEnd(fleet, t, b, trace, rq, at);
      }
    } else {
      var x, y :| ListOver(x, ids) && ListOver(y, ids) && Join(x) == Join(y) && x != y;
      var id := FreshId(t.quotes.Keys);
      JoinedTogetherDisagrees(fleet, t, 0, b, x, y, id);
    }
  }
}
