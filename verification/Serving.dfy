/**
 * The order service over the database (`src/reserved/order.ts` over `src/reserved/db.ts`): the
 * transactions each action issues, and that a run of actions on a faultless connection leaves durable
 * exactly the tables the actions are specified with.
 */
module Serving {
  import opened Basics
  import opened Locks
  import opened Refund
  import opened Store
  import opened StoreInvariant
  import opened Cancellation
  import opened Actions
  import opened Reachable
  import opened Outcomes
  import opened Connection
  import opened Durable

  /** The transactions of one action, given the tables it reads. */
  function Issued(fleet: Fleet, t: Tables, a: Action, now: int): seq<Work> {
    match a
    case Look(deps) => [Sweeping(deps, now)]
    case Select(acq) => IssuedBySelect(fleet, acq, now)
    case ConfirmOrder(rq) => if rq.dep in fleet then IssuedByConfirm(t, rq.(coach := fleet[rq.dep]), now) else []
    case AskRefund(rq) => IssuedByQuote(t, rq, now)
    case CommitRefund(rq) => IssuedByCommit(t, rq, now)
    case AskHold(_) => []
    case Retain(retention) => [Forgetting(now - retention)]
  }

  /** A select that names a seat off the map, or no departure on sale, asks the store nothing. */
  function IssuedBySelect(fleet: Fleet, acq: AcquireRequest, now: int): seq<Work> {
    if acq.dep !in fleet || (exists s | s in acq.seatIds :: s !in SeatMap.SeatIds(fleet[acq.dep])) then []
    else if acq.seatIds == [] || (exists s | s in acq.seatIds :: s in fleet[acq.dep].seeded) then [Sweeping({acq.dep}, now)]
    else [Sweeping({acq.dep}, now), Taking(acq, now)]
  }

  /** A confirm that finds its booking asks nothing more; otherwise it sweeps, checks, and books. */
  function IssuedByConfirm(t: Tables, rq: ConfirmRequest, now: int): seq<Work> {
    if BookingOf(t, rq.buyer).Some? then []
    else
      match CheckHold(SweepTables(t, Only({rq.dep}), now), rq, now)
      case Refuses(_) => [Sweeping({rq.dep}, now)]
      case Passes(hold) => [Sweeping({rq.dep}, now), Work.Booking(hold.holdId, rq, now)]
  }

  function IssuedByQuote(t: Tables, rq: CancelRequest, now: int): seq<Work> {
    match SoftCancel(t, rq, now).1
    case Quoted(id, quote) => [Quoting(id, quote)]
    case _ => []
  }

  function IssuedByCommit(t: Tables, rq: CancelRequest, now: int): seq<Work> {
    match CommitCancel(t, rq, now).1
    case SlabMoved(id, quote) => [Quoting(id, quote)]
    case Committed(_, slab) =>
      if rq.bookingId !in t.seats then []
      else
        var rows := t.seats[rq.bookingId];
        [Cancelling(rq.bookingId, Wanted(rows, rq.seatIds), slab, PerSeat(Targets(rows, rq.seatIds), Percent(slab)), now)]
    case _ => []
  }

  /** Transactions one after the other. */
  function Performed(t: Tables, works: seq<Work>): Tables
    decreases |works|
  {
    if works == [] then t else Performed(Perform(t, works[0]).GetOr(t), works[1..])
  }

  lemma PerformedOne(t: Tables, w: Work)
    ensures Performed(t, [w]) == Perform(t, w).GetOr(t)
  {
    assert [w][1..] == [];
  }

  lemma PerformedTwo(t: Tables, v: Work, w: Work)
    ensures Performed(t, [v, w]) == Perform(Perform(t, v).GetOr(t), w).GetOr(Perform(t, v).GetOr(t))
  {
    assert [v, w][1..] == [w];
    PerformedOne(Perform(t, v).GetOr(t), w);
  }

  lemma {:induction false} PerformedApart(t: Tables, a: seq<Work>, b: seq<Work>)
    ensures Performed(t, a + b) == Performed(Performed(t, a), b)
    decreases |a|
  {
    if a == [] {
      assert a + b == b;
    } else {
      assert (a + b)[1..] == a[1..] + b;
      PerformedApart(Perform(t, a[0]).GetOr(t), a[1..], b);
    }
  }

  /* ---- one action ---- */

  /** What a select leaves, by its answer. */
  predicate LeftBy(t: Tables, acq: AcquireRequest, now: int, u: Tables, answer: Answer) {
    var swept := SweepTables(t, Only({acq.dep}), now);
    match answer
    case Selected(_) => u == swept.(locks := Acquire(swept.locks, acq, now).0)
    case NoHoldTaken => u == swept
    case SimulatedSold(_) => u == swept
    case _ => u == t
  }

  function WorksBy(acq: AcquireRequest, now: int, answer: Answer): seq<Work> {
    match answer
    case Selected(_) => [Sweeping({acq.dep}, now), Taking(acq, now)]
    case NoHoldTaken => [Sweeping({acq.dep}, now)]
    case SimulatedSold(_) => [Sweeping({acq.dep}, now)]
    case _ => []
  }

  lemma SelectLeaves(fleet: Fleet, t: Tables, acq: AcquireRequest, now: int)
    ensures var (u, answer) := SelectSeats(fleet, t, acq, now); LeftBy(t, acq, now, u, answer)
  {
  }

  lemma WorksLeave(t: Tables, acq: AcquireRequest, now: int, u: Tables, answer: Answer)
    requires LeftBy(t, acq, now, u, answer)
    ensures Performed(t, WorksBy(acq, now, answer)) == u
  {
    var swept := SweepTables(t, Only({acq.dep}), now);
    PerformedOne(t, Sweeping({acq.dep}, now));
    PerformedTwo(t, Sweeping({acq.dep}, now), Taking(acq, now));
    RefusedUnchanged(swept.locks, acq, now);
  }

  lemma SomeSimulated(asked: seq<SeatId>, seeded: map<SeatId, SeatMap.Gender>)
    ensures (set s | s in asked && s in seeded) != {} <==> exists s | s in asked :: s in seeded
  {
    var simulated := set s | s in asked && s in seeded;
    if s :| s in asked && s in seeded {
      assert s in simulated;
    }
    if simulated != {} {
      var s :| s in simulated;
    }
  }

  lemma IssuedByAnswer(fleet: Fleet, t: Tables, acq: AcquireRequest, now: int)
    ensures IssuedBySelect(fleet, acq, now) == WorksBy(acq, now, SelectSeats(fleet, t, acq, now).1)
  {
    SelectExactly(fleet, t, acq, now);
    if acq.dep in fleet {
      SomeSimulated(acq.seatIds, fleet[acq.dep].seeded);
    }
  }

  lemma SelectIssues(fleet: Fleet, t: Tables, acq: AcquireRequest, now: int)
    ensures Performed(t, IssuedBySelect(fleet, acq, now)) == SelectSeats(fleet, t, acq, now).0
  {
    IssuedByAnswer(fleet, t, acq, now);
    SelectLeaves(fleet, t, acq, now);
    WorksLeave(t, acq, now, SelectSeats(fleet, t, acq, now).0, SelectSeats(fleet, t, acq, now).1);
  }

  lemma RefusedUnchanged(locks: seq<LockRow>, acq: AcquireRequest, now: int)
    ensures !Acquire(locks, acq, now).1.Acquired? ==> Acquire(locks, acq, now).0 == locks
  {
  }

  lemma ConfirmIssues(t: Tables, rq: ConfirmRequest, now: int)
    ensures Performed(t, IssuedByConfirm(t, rq, now)) == Confirm(t, rq, now).0
  {
    var swept := SweepTables(t, Only({rq.dep}), now);
    PerformedOne(t, Sweeping({rq.dep}, now));
    var check := CheckHold(swept, rq, now);
    if check.Passes? {
      PerformedTwo(t, Sweeping({rq.dep}, now), Work.Booking(check.hold.holdId, rq, now));
      UnbookedUnchanged(swept, check.hold.holdId, rq, now);
    }
  }

  lemma UnbookedUnchanged(t: Tables, holdId: string, rq: ConfirmRequest, now: int)
    ensures !ConfirmBooking(t, holdId, rq, now).1.Booked? ==> ConfirmBooking(t, holdId, rq, now).0 == t
  {
  }

  lemma QuoteIssues(t: Tables, rq: CancelRequest, now: int)
    ensures Performed(t, IssuedByQuote(t, rq, now)) == SoftCancel(t, rq, now).0
  {
    var out := SoftCancel(t, rq, now).1;
    if out.Quoted? {
      PerformedOne(t, Quoting(out.quoteId, out.quote));
    }
  }

  lemma CommitIssues(t: Tables, rq: CancelRequest, now: int)
    ensures Performed(t, IssuedByCommit(t, rq, now)) == CommitCancel(t, rq, now).0
  {
    var (u, out) := CommitCancel(t, rq, now);
    CommitShape(t, rq, now, u, out);
    if out.Committed? {
      var rows := t.seats[rq.bookingId];
      PerformedOne(t, Cancelling(rq.bookingId, Wanted(rows, rq.seatIds), out.slab, PerSeat(Targets(rows, rq.seatIds), Percent(out.slab)), now));
    } else if out.SlabMoved? {
      SlabMovedIs(t, rq, now);
      PerformedOne(t, Quoting(out.replacementId, out.replacement));
    }
  }

  lemma SlabMovedIs(t: Tables, rq: CancelRequest, now: int)
    ensures var out := CommitCancel(t, rq, now).1; out.SlabMoved? ==> out.replacementId == rq.newQuoteId
  {
  }

  /** What an action does to the tables is what the transactions it issues do, one after the other. */
  lemma ActionIsItsTransactions(fleet: Fleet, t: Tables, a: Action, now: int)
    ensures Performed(t, Issued(fleet, t, a, now)) == Step(fleet, t, a, now).0
  {
    match a
    case Look(deps) => PerformedOne(t, Sweeping(deps, now));
    case Select(acq) => SelectIssues(fleet, t, acq, now);
    case ConfirmOrder(rq) => OrderIssues(fleet, t, rq, now);
    case AskRefund(rq) => QuoteIssues(t, rq, now);
    case CommitRefund(rq) => CommitIssues(t, rq, now);
    case AskHold(_) =>
    case Retain(retention) => PerformedOne(t, Forgetting(now - retention));
  }

  lemma OrderIssues(fleet: Fleet, t: Tables, rq: ConfirmRequest, now: int)
    ensures Performed(t, Issued(fleet, t, ConfirmOrder(rq), now)) == Step(fleet, t, ConfirmOrder(rq), now).0
  {
    if rq.dep in fleet {
      ConfirmIssues(t, rq.(coach := fleet[rq.dep]), now);
    }
  }

  /* ---- a run of actions ---- */

  /** The transactions of a whole run, each action reading what the ones before it left. */
  function IssuedBy(fleet: Fleet, t: Tables, trace: seq<Event>): seq<Work>
    decreases |trace|
  {
    if trace == [] then []
    else
      var u := Step(fleet, t, trace[0].action, trace[0].at).0;
      Issued(fleet, t, trace[0].action, trace[0].at) + IssuedBy(fleet, u, trace[1..])
  }

  lemma {:induction false} RunIsItsTransactions(fleet: Fleet, t: Tables, trace: seq<Event>)
    ensures Performed(t, IssuedBy(fleet, t, trace)) == Run(fleet, t, trace).0
    decreases |trace|
  {
    if trace != [] {
      var works, u := Issued(fleet, t, trace[0].action, trace[0].at), Step(fleet, t, trace[0].action, trace[0].at).0;
      ActionIsItsTransactions(fleet, t, trace[0].action, trace[0].at);
      PerformedApart(t, works, IssuedBy(fleet, u, trace[1..]));
      RunIsItsTransactions(fleet, u, trace[1..]);
    }
  }

  /** The transactions of these jobs, whatever reads of other callers run beside them. */
  predicate AreJobs(jobs: seq<Job>, works: seq<Work>) {
    |jobs| == |works| && forall i | 0 <= i < |jobs| :: jobs[i].work == works[i]
  }

  lemma {:induction false} JobsPerform(t: Tables, jobs: seq<Job>, works: seq<Work>)
    requires AreJobs(jobs, works)
    ensures PerformAll(t, jobs) == Performed(t, works)
    decreases |jobs|
  {
    if jobs != [] {
      JobsPerform(Perform(t, jobs[0].work).GetOr(t), jobs[1..], works[1..]);
    }
  }

  /**
   * On a connection on which nothing goes wrong, the durable tables after the transactions of any run of
   * actions are the tables of that run, whatever reads of other callers came before and after them.
   */
  lemma RunIsDurable(d: Dialect, base: Tables, h: Handle, jobs: seq<Job>, fleet: Fleet, trace: seq<Event>)
    requires d.Faithful(jobs) && Calm(h) && AtRest(h)
    requires AreJobs(jobs, IssuedBy(fleet, d.Replay(base, h.server.committed), trace))
    ensures d.Replay(base, d.RunJobs(base, h, jobs).0.server.committed) == Run(fleet, d.Replay(base, h.server.committed), trace).0
  {
    var t := d.Replay(base, h.server.committed);
    d.CalmJobs(base, h, jobs);
    JobsPerform(t, jobs, IssuedBy(fleet, t, trace));
    RunIsItsTransactions(fleet, t, trace);
  }
}
