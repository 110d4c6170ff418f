/**
 * The store over the faulty connection: what the tables are after any schedule of stream deaths,
 * discards and statement errors, whichever of its transactions were acknowledged, with other callers'
 * reads after each body and between transactions.
 */
module Durable {
  import opened Basics
  import opened Locks
  import opened Refund
  import opened Store
  import opened StoreInvariant
  import opened Cancellation
  import opened Reachable
  import opened Connection
  import opened Foreign

  /** One transaction of the store, with the instant its caller read. */
  datatype Work =
    | Sweeping(deps: set<Departure>, at: int)
    | Taking(acq: AcquireRequest, at: int)
    | Booking(holdId: string, order: ConfirmRequest, at: int)
    | Quoting(id: string, quote: Quote)
    | Cancelling(bookingId: string, seatIds: seq<SeatId>, slab: SlabCode, refunds: map<SeatId, int>, at: int)
    | Forgetting(cutoff: int)

  /** What its body does to the tables it finds; a refusal throws, and nothing is committed. */
  function Perform(t: Tables, w: Work): Option<Tables> {
    match w
    case Sweeping(deps, at) => Some(SweepTables(t, Only(deps), at))
    case Taking(acq, at) =>
      var (locks, outcome) := Acquire(t.locks, acq, at);
      if outcome.Acquired? then Some(t.(locks := locks)) else None
    case Booking(holdId, order, at) =>
      var (t', outcome) := ConfirmBooking(t, holdId, order, at);
      if outcome.Booked? then Some(t') else None
    case Quoting(id, quote) => if id in t.quotes then None else Some(t.(quotes := t.quotes[id := quote]))
    case Cancelling(b, ids, slab, refunds, at) => Some(ApplyCancellation(t, b, ids, slab, refunds, at))
    case Forgetting(cutoff) => Some(Forget(t, cutoff))
  }

  /** A transaction, the reads of other callers before it begins and those after its last statement. */
  datatype Job = Job(work: Work, before: seq<Sql>, after: seq<Sql>)

  /**
   * How the store speaks to the database: the statements a transaction issues on the tables it finds,
   * and what one statement does to the tables.
   */
  datatype Dialect = Dialect(plan: (Tables, Work) -> seq<Sql>, exec: (Tables, Sql) -> Tables) {

    function Execute(t: Tables, body: seq<Sql>): Tables
      decreases |body|
    {
      if body == [] then t else Execute(exec(t, body[0]), body[1..])
    }

    /** The statements of a transaction that does not throw do what the transaction is for. */
    ghost predicate Carries(w: Work) {
      forall t :: Perform(t, w).Some? ==> Execute(t, plan(t, w)) == Perform(t, w).value
    }

    ghost predicate Faithful(jobs: seq<Job>) {
      forall k | 0 <= k < |jobs| :: Carries(jobs[k].work)
    }

    /** The tables a durable log amounts to. */
    function Replay(t: Tables, log: seq<seq<Sql>>): Tables {
      if log == [] then t else Execute(Replay(t, log[..|log| - 1]), log[|log| - 1])
    }

    lemma ReplayOneMore(t: Tables, log: seq<seq<Sql>>, body: seq<Sql>)
      ensures Replay(t, log + [body]) == Execute(Replay(t, log), body)
    {
      assert (log + [body])[..|log|] == log;
    }

    /** One transaction, planned on what is durable when it begins. */
    function RunJob(base: Tables, h: Handle, job: Job): (Handle, TxOutcome) {
      var t := Replay(base, h.server.committed);
      RunAmong(Reads(h, job.before), Followed(plan(t, job.work), job.after), Perform(t, job.work).None?)
    }

    function RunJobs(base: Tables, h: Handle, jobs: seq<Job>): (Handle, seq<TxOutcome>)
      decreases |jobs|
    {
      if jobs == [] then (h, [])
      else
        var (h1, outcome) := RunJob(base, h, jobs[0]);
        var (h2, rest) := RunJobs(base, h1, jobs[1..]);
        (h2, [outcome] + rest)
    }

    /** The durable tables before each transaction, and after the last. */
    function Trail(base: Tables, h: Handle, jobs: seq<Job>): (trail: seq<Tables>)
      ensures |trail| == |jobs| + 1 && trail[0] == Replay(base, h.server.committed)
      decreases |jobs|
    {
      [Replay(base, h.server.committed)] + if jobs == [] then [] else Trail(base, RunJob(base, h, jobs[0]).0, jobs[1..])
    }

    lemma OneJob(base: Tables, h: Handle, job: Job)
      requires Carries(job.work) && Connection.Coherent(h)
      ensures var (h', outcome) := RunJob(base, h, job);
        && Connection.Coherent(h')
        && Takes(Replay(base, h.server.committed), job.work, outcome, Replay(base, h'.server.committed))
    {
      var t := Replay(base, h.server.committed);
      var body, throws := plan(t, job.work), Perform(t, job.work).None?;
      var items := Followed(body, job.after);
      BareReads(h, job.before);
      FollowedBody(body, job.after);
      AtomicWhenOthersLast(Reads(h, job.before), items, throws);
      ReplayOneMore(base, h.server.committed, body);
    }

    lemma Unfolded(base: Tables, h: Handle, jobs: seq<Job>)
      requires jobs != []
      ensures var (h1, outcome) := RunJob(base, h, jobs[0]);
        && RunJobs(base, h, jobs) == (RunJobs(base, h1, jobs[1..]).0, [outcome] + RunJobs(base, h1, jobs[1..]).1)
        && Trail(base, h, jobs) == [Replay(base, h.server.committed)] + Trail(base, h1, jobs[1..])
    {
    }

    /** The handle stays coherent, and the trail ends where the durable log does. */
    lemma {:induction false} JobsRun(base: Tables, h: Handle, jobs: seq<Job>)
      requires Faithful(jobs) && Connection.Coherent(h)
      ensures |RunJobs(base, h, jobs).1| == |jobs| && Connection.Coherent(RunJobs(base, h, jobs).0)
      ensures Trail(base, h, jobs)[|jobs|] == Replay(base, RunJobs(base, h, jobs).0.server.committed)
      decreases |jobs|
    {
      if jobs != [] {
        OneJob(base, h, jobs[0]);
        JobsRun(base, RunJob(base, h, jobs[0]).0, jobs[1..]);
        Unfolded(base, h, jobs);
      }
    }

    lemma CalmJob(base: Tables, h: Handle, job: Job)
      requires Carries(job.work) && Calm(h) && AtRest(h)
      ensures var (h', outcome) := RunJob(base, h, job); var t := Replay(base, h.server.committed);
        && Calm(h') && AtRest(h')
        && outcome == (if Perform(t, job.work).Some? then Returned else FailedBeforeCommit)
        && Replay(base, h'.server.committed) == Perform(t, job.work).GetOr(t)
    {
      var t := Replay(base, h.server.committed);
      var body := plan(t, job.work);
      CalmReads(h, job.before);
      FollowedBody(body, job.after);
      CalmAmong(Reads(h, job.before), Followed(body, job.after), Perform(t, job.work).None?);
      ReplayOneMore(base, h.server.committed, body);
    }

    /**
     * When nothing goes wrong every transaction that does not refuse returns and takes effect: the
     * durable tables are those of the transactions one after the other.
     */
    lemma {:induction false} CalmJobs(base: Tables, h: Handle, jobs: seq<Job>)
      requires Faithful(jobs) && Calm(h) && AtRest(h)
      ensures Replay(base, RunJobs(base, h, jobs).0.server.committed) == PerformAll(Replay(base, h.server.committed), jobs)
      ensures RunJobs(base, h, jobs).1 == CalmOutcomes(Replay(base, h.server.committed), jobs)
      decreases |jobs|
    {
      if jobs != [] {
        CalmJob(base, h, jobs[0]);
        CalmJobs(base, RunJob(base, h, jobs[0]).0, jobs[1..]);
        Unfolded(base, h, jobs);
      }
    }

    /**
     * After any number of transactions and any schedule of faults: each left the durable tables as
     * specified or not at all. It did if it returned, it did not if it failed or refused before
     * COMMIT, and it may have if its COMMIT was not acknowledged.
     */
    lemma {:induction false} TablesAreAccounted(base: Tables, h: Handle, jobs: seq<Job>)
      requires Faithful(jobs) && Connection.Coherent(h)
      ensures Accounted(Trail(base, h, jobs), jobs, RunJobs(base, h, jobs).1)
      decreases |jobs|
    {
      if jobs != [] {
        OneJob(base, h, jobs[0]);
        var (h1, outcome) := RunJob(base, h, jobs[0]);
        TablesAreAccounted(base, h1, jobs[1..]);
        Unfolded(base, h, jobs);
        assert jobs == [jobs[0]] + jobs[1..];
        AccountedOneMore(Replay(base, h.server.committed), jobs[0], outcome, Trail(base, h1, jobs[1..]), jobs[1..], RunJobs(base, h1, jobs[1..]).1);
      }
    }
  }

  /** The tables after some transactions, one after the other; one that refuses leaves them alone. */
  function PerformAll(t: Tables, jobs: seq<Job>): Tables
    decreases |jobs|
  {
    if jobs == [] then t else PerformAll(Perform(t, jobs[0].work).GetOr(t), jobs[1..])
  }

  /** Which of them return. */
  function CalmOutcomes(t: Tables, jobs: seq<Job>): seq<TxOutcome>
    decreases |jobs|
  {
    if jobs == [] then []
    else
      var first := if Perform(t, jobs[0].work).Some? then Returned else FailedBeforeCommit;
      [first] + CalmOutcomes(Perform(t, jobs[0].work).GetOr(t), jobs[1..])
  }

  /** A transaction's own step: it took effect as specified, or not at all, as its outcome allows. */
  predicate Takes(t: Tables, w: Work, outcome: TxOutcome, t': Tables) {
    || (t' == t && !outcome.Returned?)
    || (Perform(t, w) == Some(t') && !outcome.FailedBeforeCommit?)
  }

  predicate Accounted(trail: seq<Tables>, jobs: seq<Job>, outcomes: seq<TxOutcome>) {
    && |trail| == |jobs| + 1 && |outcomes| == |jobs|
    && forall k | 0 <= k < |jobs| :: Takes(trail[k], jobs[k].work, outcomes[k], trail[k + 1])
  }

  lemma AccountedOneMore(t: Tables, job: Job, outcome: TxOutcome, trail: seq<Tables>, jobs: seq<Job>, outcomes: seq<TxOutcome>)
    ensures Accounted(trail, jobs, outcomes) && Takes(t, job.work, outcome, trail[0])
        ==> Accounted([t] + trail, [job] + jobs, [outcome] + outcomes)
  {
    if Accounted(trail, jobs, outcomes) && Takes(t, job.work, outcome, trail[0]) {
      forall k | 0 <= k <= |jobs|
        ensures Takes(([t] + trail)[k], ([job] + jobs)[k].work, ([outcome] + outcomes)[k], ([t] + trail)[k + 1])
      {
        assert ([t] + trail)[k + 1] == trail[k];
        if k > 0 {
          assert ([t] + trail)[k] == trail[k - 1] && ([job] + jobs)[k] == jobs[k - 1] && ([outcome] + outcomes)[k] == outcomes[k - 1];
          assert Takes(trail[k - 1], jobs[k - 1].work, outcomes[k - 1], trail[k]);
        }
      }
    }
  }

  /* ---- there is such a dialect ---- */

  /** A statement for each transaction: its place in the list, in tally marks. */
  function Tally(jobs: seq<Job>, w: Work): (s: string)
    ensures (exists k | 0 <= k < |jobs| :: jobs[k].work == w) ==> |s| < |jobs| && jobs[|s|].work == w
  {
    if jobs == [] || jobs[0].work == w then ""
    else
      assert forall k | 1 <= k < |jobs| :: jobs[k] == jobs[1..][k - 1];
      Tally(jobs[1..], w) + "x"
  }

  function ByTally(jobs: seq<Job>, t: Tables, s: string): Tables {
    if |s| < |jobs| then Perform(t, jobs[|s|].work).GetOr(t) else t
  }

  lemma SomeDialectIsFaithful(jobs: seq<Job>) returns (d: Dialect)
    ensures d.Faithful(jobs)
  {
    d := Dialect((t, w) => [Tally(jobs, w)], (t, s) => ByTally(jobs, t, s));
    forall k, t | 0 <= k < |jobs| && Perform(t, jobs[k].work).Some?
      ensures d.Execute(t, d.plan(t, jobs[k].work)) == Perform(t, jobs[k].work).value
    {
      var s := Tally(jobs, jobs[k].work);
      assert [s][1..] == [];
      assert d.Execute(t, [s]) == d.exec(t, s);
    }
  }

  /* ---- no seat is sold twice, whatever anybody had checked ---- */

  lemma BookKeepsUnique(locks: seq<LockRow>, holdId: string, b: string)
    requires LiveUnique(locks)
    ensures LiveUnique(BookHold(locks, holdId, b))
  {
    var after := BookHold(locks, holdId, b);
    forall i | 0 <= i < |locks| ensures Live(after[i]) == Live(locks[i]) && after[i].dep == locks[i].dep && after[i].seatId == locks[i].seatId {
    }
  }

  lemma PerformKeepsUnique(t: Tables, w: Work)
    requires LiveUnique(t.locks) && Perform(t, w).Some?
    ensures LiveUnique(Perform(t, w).value.locks)
  {
    match w
    case Sweeping(_, _) =>
    case Taking(acq, at) =>
      FreedKeepsUnique(t.locks, acq, at);
      if Taken(Freed(t.locks, acq, at), acq.dep, SortedDistinct(acq.seatIds)) == [] {
        InsertNeverHitsTheIndex(t.locks, acq, at);
      }
    case Booking(holdId, order, _) => BookKeepsUnique(t.locks, holdId, order.newBookingId);
    case Quoting(_, _) =>
    case Cancelling(_, _, _, _, _) =>
    case Forgetting(_) =>
  }

  lemma {:induction false} TrailKeepsUnique(trail: seq<Tables>, jobs: seq<Job>, outcomes: seq<TxOutcome>, k: nat)
    requires Accounted(trail, jobs, outcomes) && LiveUnique(trail[0].locks) && k <= |jobs|
    ensures LiveUnique(trail[k].locks)
  {
    if k > 0 {
      TrailKeepsUnique(trail, jobs, outcomes, k - 1);
      assert Takes(trail[k - 1], jobs[k - 1].work, outcomes[k - 1], trail[k]);
      if trail[k] != trail[k - 1] {
        PerformKeepsUnique(trail[k - 1], jobs[k - 1].work);
      }
    }
  }

  /**
   * No seat is sold twice in the durable tables: after any sequence of the store's transactions, from
   * any callers, at whatever instants they read and with whatever they had or had not checked, under
   * any schedule of faults.
   */
  lemma NoSeatSoldTwiceUnderFaults(d: Dialect, h: Handle, jobs: seq<Job>, i: nat, j: nat)
    requires d.Faithful(jobs) && Connection.Coherent(h) && h.server.committed == []
    requires var locks := d.Replay(EMPTY, d.RunJobs(EMPTY, h, jobs).0.server.committed).locks;
      && i < |locks| && j < |locks| && Live(locks[i]) && Live(locks[j])
      && locks[i].dep == locks[j].dep && locks[i].seatId == locks[j].seatId
    ensures i == j
  {
    d.JobsRun(EMPTY, h, jobs);
    d.TablesAreAccounted(EMPTY, h, jobs);
    TrailKeepsUnique(d.Trail(EMPTY, h, jobs), jobs, d.RunJobs(EMPTY, h, jobs).1, |jobs|);
  }

  /* ---- the whole invariant, with checks that may be stale ---- */

  /** The manifest names the seats of the hold, and the hold is the request's: what the confirm action checks. */
  predicate Fits(locks: seq<LockRow>, holdId: string, rq: ConfirmRequest) {
    && rq.manifest != [] && Named(rq.manifest) == HoldSeats(locks, holdId)
    && (forall i | 0 <= i < |locks| && locks[i].holdId == holdId :: locks[i].buyer == rq.buyer && locks[i].dep == rq.dep)
  }

  /** What a caller has to have checked on the tables it read. */
  predicate Checked(t: Tables, w: Work) {
    match w
    case Booking(holdId, order, _) => Fits(t.locks, holdId, order)
    case Quoting(_, quote) => QuoteOk(quote, t.seats)
    case Cancelling(b, ids, slab, refunds, at) =>
      && b in t.bookings && b in t.seats && slab == SlabFor(t.bookings[b].departureAt, at)
      && Worth(t.seats[b], ids, refunds, Percent(slab))
    case _ => true
  }

  lemma FittingBookingKeepsInv(t: Tables, holdId: string, rq: ConfirmRequest, now: int)
    requires Inv(t) && Fits(t.locks, holdId, rq)
    ensures Inv(ConfirmBooking(t, holdId, rq, now).0)
  {
    if !RefusesToBook(t, holdId, rq) {
      CountTestIsExact(t.locks, holdId, rq.manifest);
      assert BooksItsHold(t.locks, holdId, rq);
    }
    ConfirmBookingKeepsInvExactly(t, holdId, rq, now);
  }

  lemma ForgetIsForgotten(t: Tables, cutoff: int)
    ensures ForgottenTo(t, Forget(t, cutoff))
  {
  }

  lemma PerformKeepsInv(t: Tables, w: Work)
    requires Inv(t) && Checked(t, w) && Perform(t, w).Some?
    ensures Inv(Perform(t, w).value)
  {
    match w
    case Sweeping(deps, at) => SweepKeepsInv(t, Only(deps), at);
    case Taking(acq, at) => AcquireKeepsInv(t, acq, at);
    case Booking(holdId, order, at) => FittingBookingKeepsInv(t, holdId, order, at);
    case Quoting(id, quote) => AddQuoteKeepsInv(t, id, quote);
    case Cancelling(b, ids, slab, refunds, at) => ApplyCancellationKeepsInv(t, b, ids, slab, refunds, at);
    case Forgetting(cutoff) =>
      ForgetIsForgotten(t, cutoff);
      ForgettingKeepsInv(t, Forget(t, cutoff));
  }

  /* ---- checks do not go stale ---- */

  /** Rows are only added for holds that are new. */
  predicate HoldsClosed(a: seq<LockRow>, b: seq<LockRow>) {
    forall i | |a| <= i < |b| :: !HoldIdUsed(a, b[i].holdId)
  }

  /** What no later transaction undoes. */
  predicate Grows(t: Tables, u: Tables) {
    Evolves(t, u) && HoldsClosed(t.locks, u.locks)
  }

  lemma GrowsTransitive(t: Tables, u: Tables, v: Tables)
    requires Grows(t, u) && Grows(u, v)
    ensures Grows(t, v)
  {
    EvolvesTransitive(t, u, v);
    forall i | |t.locks| <= i < |v.locks| ensures !HoldIdUsed(t.locks, v.locks[i].holdId) {
      if i < |u.locks| {
        assert LockEvolves(u.locks[i], v.locks[i]);
      } else {
        forall k | 0 <= k < |t.locks| ensures t.locks[k].holdId != v.locks[i].holdId {
          assert LockEvolves(t.locks[k], u.locks[k]);
          assert u.locks[k].holdId != v.locks[i].holdId;
        }
      }
    }
  }

  lemma TakingCloses(locks: seq<LockRow>, acq: AcquireRequest, now: int)
    ensures HoldsClosed(locks, Acquire(locks, acq, now).0)
  {
    var freed, rows := Freed(locks, acq, now), NewRows(acq, SortedDistinct(acq.seatIds), now);
    var after := Acquire(locks, acq, now).0;
    assert after == locks || after == Swept(locks, acq, now) || (after == freed + rows && !HoldIdUsed(freed, acq.newHoldId));
    if after == freed + rows && !HoldIdUsed(freed, acq.newHoldId) {
      forall i | |locks| <= i < |after| ensures !HoldIdUsed(locks, after[i].holdId) {
        assert after[i] == rows[i - |freed|];
        forall k | 0 <= k < |locks| ensures locks[k].holdId != acq.newHoldId {
          assert freed[k].holdId == locks[k].holdId;
        }
      }
    }
  }

  lemma SweepingGrows(t: Tables, deps: set<Departure>, now: int)
    ensures Grows(t, SweepTables(t, Only(deps), now))
  {
    LocksOnlyEvolve(t, Sweep(t.locks, Only(deps), now));
  }

  lemma TakingGrows(t: Tables, acq: AcquireRequest, now: int)
    ensures Grows(t, t.(locks := Acquire(t.locks, acq, now).0))
  {
    AcquireEvolves(t.locks, acq, now);
    LocksOnlyEvolve(t, Acquire(t.locks, acq, now).0);
    TakingCloses(t.locks, acq, now);
  }

  lemma BookingGrows(t: Tables, holdId: string, rq: ConfirmRequest, now: int)
    requires Inv(t)
    ensures ConfirmBooking(t, holdId, rq, now).1.Booked? ==> Grows(t, ConfirmBooking(t, holdId, rq, now).0)
  {
    if ConfirmBooking(t, holdId, rq, now).1.Booked? {
      WithBookingEvolves(t, holdId, rq, now);
    }
  }

  lemma CancellingGrows(t: Tables, b: string, ids: seq<SeatId>, slab: SlabCode, refunds: map<SeatId, int>, now: int)
    requires Inv(t)
    ensures Grows(t, ApplyCancellation(t, b, ids, slab, refunds, now))
  {
    ApplyCancellationEvolves(t, b, ids, slab, refunds, now);
  }

  lemma QuotingGrows(t: Tables, id: string, quote: Quote)
    requires id !in t.quotes
    ensures Grows(t, t.(quotes := t.quotes[id := quote]))
  {
    QuoteEvolves(t, id, quote);
  }

  lemma ForgettingGrows(t: Tables, cutoff: int)
    ensures Grows(t, Forget(t, cutoff))
  {
    ForgetIsForgotten(t, cutoff);
    ForgettingEvolves(t, Forget(t, cutoff));
  }

  lemma PerformGrows(t: Tables, w: Work)
    requires Inv(t)
    ensures Perform(t, w).Some? ==> Grows(t, Perform(t, w).value)
  {
    match w
    case Sweeping(deps, at) =>
      SweepingGrows(t, deps, at);
      assert Perform(t, w) == Some(SweepTables(t, Only(deps), at));
    case Taking(acq, at) =>
      TakingGrows(t, acq, at);
      assert Perform(t, w).None? || Perform(t, w) == Some(t.(locks := Acquire(t.locks, acq, at).0));
    case Booking(holdId, order, at) =>
      BookingGrows(t, holdId, order, at);
      assert Perform(t, w).None? || Perform(t, w) == Some(ConfirmBooking(t, holdId, order, at).0);
    case Quoting(id, quote) =>
      if id !in t.quotes {
        QuotingGrows(t, id, quote);
        assert Perform(t, w) == Some(t.(quotes := t.quotes[id := quote]));
      }
    case Cancelling(b, ids, slab, refunds, at) =>
      CancellingGrows(t, b, ids, slab, refunds, at);
      assert Perform(t, w) == Some(ApplyCancellation(t, b, ids, slab, refunds, at));
    case Forgetting(cutoff) =>
      ForgettingGrows(t, cutoff);
      assert Perform(t, w) == Some(Forget(t, cutoff));
  }

  lemma FitsStays(a: seq<LockRow>, b: seq<LockRow>, holdId: string, rq: ConfirmRequest)
    requires LocksEvolve(a, b) && HoldsClosed(a, b) && Fits(a, holdId, rq)
    ensures Fits(b, holdId, rq)
  {
    assert HoldIdUsed(a, holdId) by {
      assert rq.manifest[0].seatId in Named(rq.manifest);
    }
    forall i | 0 <= i < |b| && b[i].holdId == holdId ensures i < |a| && LockEvolves(a[i], b[i]) && a[i].holdId == holdId {
    }
    forall s ensures s in HoldSeats(b, holdId) <==> s in HoldSeats(a, holdId) {
      if s in HoldSeats(a, holdId) {
        var i :| 0 <= i < |a| && a[i].holdId == holdId && a[i].seatId == s;
        assert LockEvolves(a[i], b[i]);
      }
      if s in HoldSeats(b, holdId) {
        var i :| 0 <= i < |b| && b[i].holdId == holdId && b[i].seatId == s;
        assert a[i].seatId == s;
      }
    }
  }

  lemma WorthStays(a: seq<SeatRow>, b: seq<SeatRow>, ids: seq<SeatId>, refunds: map<SeatId, int>, percent: nat)
    requires SeatsEvolve(a, b) && percent <= 100 && Worth(a, ids, refunds, percent)
    ensures Worth(b, ids, refunds, percent)
  {
    forall k | 0 <= k < |b| && b[k].seatId in ids && b[k].status.CONFIRMED?
      ensures b[k].seatId in refunds && refunds[b[k].seatId] == SeatRefund(b[k].fare, percent)
    {
      assert SeatEvolves(a[k], b[k]);
    }
  }

  lemma {:induction false} QuotedWorthStays(a: seq<SeatRow>, b: seq<SeatRow>, ids: seq<SeatId>, percent: nat)
    requires SeatsEvolve(a, b) && percent <= 100
    ensures RefundOfSeats(b, ids, percent) == RefundOfSeats(a, ids, percent)
  {
    if a != [] {
      assert SeatEvolves(a[0], b[0]);
      assert forall k | 0 <= k < |a| - 1 :: SeatEvolves(a[1..][k], b[1..][k]) by {
        forall k | 0 <= k < |a| - 1 ensures SeatEvolves(a[1..][k], b[1..][k]) {
          assert SeatEvolves(a[k + 1], b[k + 1]);
        }
      }
      QuotedWorthStays(a[1..], b[1..], ids, percent);
    }
  }

  lemma QuoteStays(t: Tables, u: Tables, q: Quote)
    requires Evolves(t, u) && QuoteOk(q, t.seats)
    ensures QuoteOk(q, u.seats)
  {
    var a, b := t.seats[q.bookingId], u.seats[q.bookingId];
    assert SeatsEvolve(a, b);
    QuotedWorthStays(a, b, q.seatIds, q.percent);
    forall s | s in q.seatIds ensures s in RowIds(b) {
      var r :| r in a && r.seatId == s;
      var k :| 0 <= k < |a| && a[k] == r;
      assert SeatEvolves(a[k], b[k]);
      assert b[k] in b;
    }
  }

  /** So what a caller checked is still so when its transaction runs, however much ran in between. */
  lemma CheckedStays(t: Tables, u: Tables, w: Work)
    requires Grows(t, u) && Checked(t, w) && u.seats.Keys == u.bookings.Keys
    ensures Checked(u, w)
  {
    match w
    case Booking(holdId, order, _) => FitsStays(t.locks, u.locks, holdId, order);
    case Quoting(_, quote) => QuoteStays(t, u, quote);
    case Cancelling(b, ids, slab, refunds, _) =>
      assert BookingEvolves(t.bookings[b], u.bookings[b]);
      WorthStays(t.seats[b], u.seats[b], ids, refunds, Percent(slab));
    case _ =>
  }

  /** The caller of each transaction checked what it has to on some durable tables, then or earlier. */
  predicate CheckedByThen(trail: seq<Tables>, jobs: seq<Job>) {
    |trail| == |jobs| + 1 && forall k | 0 <= k < |jobs| :: CheckedAt(trail, jobs[k].work, k)
  }

  predicate CheckedAt(trail: seq<Tables>, w: Work, k: nat)
    requires k < |trail|
  {
    exists j | 0 <= j <= k :: Checked(trail[j], w)
  }

  /** Along the trail the invariant holds, and nothing is undone. */
  predicate Sound(trail: seq<Tables>, k: nat) {
    && k < |trail| && Inv(trail[k])
    && (k > 0 ==> Sound(trail, k - 1) && Grows(trail[k - 1], trail[k]))
  }

  lemma GrowsItself(t: Tables)
    ensures Grows(t, t)
  {
    LocksOnlyEvolve(t, t.locks);
  }

  lemma {:induction false} GrowsAlong(trail: seq<Tables>, j: nat, k: nat)
    requires Sound(trail, k) && j <= k
    ensures Grows(trail[j], trail[k])
  {
    if j == k {
      GrowsItself(trail[k]);
    } else {
      GrowsAlong(trail, j, k - 1);
      GrowsTransitive(trail[j], trail[k - 1], trail[k]);
    }
  }

  /** One transaction on tables that have grown since its caller checked. */
  lemma TakesKeepsInv(early: Tables, t: Tables, w: Work, outcome: TxOutcome, t': Tables)
    requires Inv(t) && Grows(early, t) && Checked(early, w) && Takes(t, w, outcome, t')
    ensures Inv(t') && Grows(t, t')
  {
    if Perform(t, w) == Some(t') {
      CheckedStays(early, t, w);
      PerformKeepsInv(t, w);
      PerformGrows(t, w);
    } else {
      GrowsItself(t);
    }
  }

  lemma NextInTrail(trail: seq<Tables>, w: Work, outcome: TxOutcome, k: nat)
    requires k + 1 < |trail| && Sound(trail, k) && CheckedAt(trail, w, k) && Takes(trail[k], w, outcome, trail[k + 1])
    ensures Sound(trail, k + 1)
  {
    var j :| 0 <= j <= k && Checked(trail[j], w);
    GrowsAlong(trail, j, k);
    TakesKeepsInv(trail[j], trail[k], w, outcome, trail[k + 1]);
  }

  lemma {:induction false} TrailKeepsInv(trail: seq<Tables>, jobs: seq<Job>, outcomes: seq<TxOutcome>, k: nat)
    requires Accounted(trail, jobs, outcomes) && CheckedByThen(trail, jobs) && Sound(trail, 0) && k <= |jobs|
    ensures Sound(trail, k)
  {
    if k > 0 {
      TrailKeepsInv(trail, jobs, outcomes, k - 1);
      assert CheckedAt(trail, jobs[k - 1].work, k - 1);
      NextInTrail(trail, jobs[k - 1].work, outcomes[k - 1], k - 1);
    }
  }

  /**
   * Under any schedule of faults, with instants in any order and checks made on any earlier durable
   * tables, the durable tables keep the whole invariant: a lock is BOOKED exactly when its booking
   * seat is CONFIRMED, a booking is CANCELLED exactly when no seat of it is confirmed, and its ledger
   * balances.
   */
  lemma LedgerSurvivesFaults(d: Dialect, h: Handle, jobs: seq<Job>, b: string)
    requires d.Faithful(jobs) && Connection.Coherent(h) && h.server.committed == []
    requires CheckedByThen(d.Trail(EMPTY, h, jobs), jobs)
    ensures var t := d.Replay(EMPTY, d.RunJobs(EMPTY, h, jobs).0.server.committed);
      && Inv(t)
      && (b in t.bookings ==>
            && b in t.seats
            && BookedSeats(t.locks, b) == ConfirmedSeats(t.seats[b])
            && (t.bookings[b].status.CANCELLED? <==> ConfirmedSeats(t.seats[b]) == {})
            && t.bookings[b].refund.GetOr(0) == SumRefund(t.seats[b])
            && Owed(t.bookings[b], t.seats[b]) + t.bookings[b].refund.GetOr(0) + ConfirmedToll(t.seats[b])
               == t.bookings[b].total.base + t.bookings[b].total.fee + t.bookings[b].total.toll)
  {
    d.JobsRun(EMPTY, h, jobs);
    d.TablesAreAccounted(EMPTY, h, jobs);
    EmptyIsOk();
    var trail := d.Trail(EMPTY, h, jobs);
    TrailKeepsInv(trail, jobs, d.RunJobs(EMPTY, h, jobs).1, |jobs|);
    BookingSurvives(trail[|jobs|], b);
  }

  lemma BookingSurvives(t: Tables, b: string)
    requires Inv(t)
    ensures b in t.bookings ==>
      && b in t.seats && BookedSeats(t.locks, b) == ConfirmedSeats(t.seats[b])
      && (t.bookings[b].status.CANCELLED? <==> ConfirmedSeats(t.seats[b]) == {})
      && t.bookings[b].refund.GetOr(0) == SumRefund(t.seats[b])
      && Owed(t.bookings[b], t.seats[b]) + t.bookings[b].refund.GetOr(0) + ConfirmedToll(t.seats[b])
         == t.bookings[b].total.base + t.bookings[b].total.fee + t.bookings[b].total.toll
  {
    if b in t.bookings {
      assert BookingOk(t.bookings[b], t.seats[b]);
      LedgerBalances(t, b);
      NoneConfirmed(t.seats[b]);
      forall k | 0 <= k < |t.seats[b]| ensures t.seats[b][k].status.CONFIRMED? ==> t.seats[b][k].seatId in ConfirmedSeats(t.seats[b]) {
      }
    }
  }
}
