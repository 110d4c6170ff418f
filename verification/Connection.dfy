/**
 * The reconnecting database handle and the transaction runner (`src/reserved/db.ts`), against a
 * server that may drop the stream, discard the open transaction or refuse a statement at any
 * point of an arbitrary schedule.
 */
module Connection {
  import opened Basics

  type Sql = string

  datatype Request = Begin | Commit | Rollback | Prepare(sql: Sql) | Pragma | Exec(sql: Sql) | Read(sql: Sql)

  /** What the schedule makes the server do with one request. */
  datatype Fault = NoFault | RefuseStatement | DropStream(applied: bool) | DiscardTransaction

  datatype Response = Success | SqlError | DeadStream | TransactionGone | NothingToRollBack

  /** `committed` lists the durable transactions, `executed` every statement the server ever ran. */
  datatype Server = Server(committed: seq<seq<Sql>>, open: Option<seq<Sql>>, executed: seq<Sql>)

  /** A request carried out in full; outside a transaction a statement commits on its own. */
  function Apply(s: Server, rq: Request): (Server, Response) {
    match rq
    case Begin => if s.open.Some? then (s, SqlError) else (s.(open := Some([])), Success)
    case Commit =>
      if s.open.Some? then (s.(open := None, committed := s.committed + [s.open.value]), Success) else (s, TransactionGone)
    case Rollback => if s.open.Some? then (s.(open := None), Success) else (s, NothingToRollBack)
    case Prepare(_) => (s, Success)
    case Pragma => (s, Success)
    case Read(_) => (s, Success)
    case Exec(sql) =>
      var ran := s.(executed := s.executed + [sql]);
      (if s.open.Some? then ran.(open := Some(s.open.value + [sql])) else ran.(committed := s.committed + [[sql]]), Success)
  }

  /** A dropped stream takes the open transaction with it; whether the request got through is anybody's guess. */
  function Serve(s: Server, rq: Request, fault: Fault): (Server, Response) {
    match fault
    case NoFault => Apply(s, rq)
    case RefuseStatement => (s, SqlError)
    case DropStream(applied) => ((if applied then Apply(s, rq).0 else s).(open := None), DeadStream)
    case DiscardTransaction =>
      if s.open.Some? then (s.(open := None), if rq.Rollback? then NothingToRollBack else TransactionGone) else Apply(s, rq)
  }

  /** A prepared statement, with the connection that prepared it. */
  datatype Cached = Cached(generation: nat, connection: nat)

  datatype Handle = Handle(
    connection: nat, generation: nat, inTransaction: bool, cache: map<Sql, Cached>, server: Server, schedule: seq<Fault>)

  /** A cached statement of the current generation was prepared on the current connection. */
  predicate CacheFresh(h: Handle) {
    forall sql | sql in h.cache :: h.cache[sql].generation == h.generation ==> h.cache[sql].connection == h.connection
  }

  /** The server never holds a transaction open that the handle has forgotten. */
  predicate Coherent(h: Handle) {
    CacheFresh(h) && (h.server.open.Some? ==> h.inTransaction)
  }

  function Send(h: Handle, rq: Request): (Handle, Response) {
    var fault := if h.schedule == [] then NoFault else h.schedule[0];
    var (server, response) := Serve(h.server, rq, fault);
    (h.(server := server, schedule := if h.schedule == [] then [] else h.schedule[1..]), response)
  }

  /** One driver operation: a statement is prepared first unless a fresh preparation is cached. */
  function Operate(h: Handle, rq: Request): (Handle, Response) {
    if (rq.Exec? || rq.Read?) && !(rq.sql in h.cache && h.cache[rq.sql].generation == h.generation) then
      var (prepared, response) := Send(h, Prepare(rq.sql));
      if response.Success?
      then Send(prepared.(cache := prepared.cache[rq.sql := Cached(h.generation, h.connection)]), rq)
      else (prepared, response)
    else Send(h, rq)
  }

  /** `reconnect`: a new connection, an empty cache, no transaction, and the pragma again. */
  function Reconnect(h: Handle): (Handle, Response) {
    Send(h.(connection := h.connection + 1, generation := h.generation + 1, cache := map[], inTransaction := false), Pragma)
  }

  /** `attempt`: retry once on a dead stream, but never inside a transaction. */
  function Attempt(h: Handle, rq: Request): (Handle, Response) {
    var (h1, r1) := Operate(h, rq);
    if r1.Success? then
      (h1.(inTransaction := if rq.Begin? then true else if rq.Commit? || rq.Rollback? then false else h1.inTransaction), Success)
    else if rq.Rollback? && r1.NothingToRollBack? then (h1.(inTransaction := false), Success)
    else if h.inTransaction && (r1.TransactionGone? || r1.NothingToRollBack?) then (h1.(inTransaction := false), r1)
    else if !r1.DeadStream? then (h1, r1)
    else Recover(h1, rq, h.inTransaction)
  }

  /** After a dead stream: reconnect, and retry only what ran outside a transaction. */
  function Recover(h1: Handle, rq: Request, wasInTransaction: bool): (Handle, Response) {
    var (h2, r2) := Reconnect(h1);
    if !r2.Success? then (h2, r2)
    else if wasInTransaction then (h2.(inTransaction := false), DeadStream)
    else
      var (h3, r3) := Operate(h2, rq);
      (if r3.Success? && rq.Begin? then h3.(inTransaction := true) else h3, r3)
  }

  datatype TxOutcome = Returned | FailedBeforeCommit | FailedAtCommit

  /** The statements of a body up to the first that fails, or to its end. */
  function RunBody(h: Handle, body: seq<Sql>): (Handle, bool)
    decreases |body|
  {
    if body == [] then (h, true)
    else
      var (h1, r) := Attempt(h, Exec(body[0]));
      if r.Success? then RunBody(h1, body[1..]) else (h1, false)
  }

  /** `runTransaction`; a body that throws of its own accord does so after its last statement. */
  function RunTransaction(h: Handle, body: seq<Sql>, throws: bool): (Handle, TxOutcome) {
    var (begun, b) := Attempt(h, Begin);
    if !b.Success? then (begun, FailedBeforeCommit)
    else
      var (ran, ok) := RunBody(begun, body);
      if !ok || throws then (Attempt(ran, Rollback).0, FailedBeforeCommit)
      else
        var (done, c) := Attempt(ran, Commit);
        if c.Success? then (done, Returned) else (Attempt(done, Rollback).0, FailedAtCommit)
  }

  /* ---- what each operation can do to the server ---- */

  /** Nothing durable changed and no statement ran. */
  predicate Idle(a: Server, b: Server) {
    b.committed == a.committed && b.executed == a.executed && (b.open == a.open || b.open.None?)
  }

  /** The handle side of one operation: same connection, same flag, cache still fresh. */
  predicate SameHandle(h: Handle, h': Handle) {
    && h'.connection == h.connection && h'.generation == h.generation && h'.inTransaction == h.inTransaction
    && (CacheFresh(h) ==> CacheFresh(h'))
  }

  lemma ReconnectIdle(h: Handle)
    ensures var (h', r) := Reconnect(h); CacheFresh(h') && !h'.inTransaction && Idle(h.server, h'.server)
  {
  }

  lemma OperateBegin(h: Handle)
    ensures var (h', r) := Operate(h, Begin); var a, b := h.server, h'.server;
      && SameHandle(h, h') && b.committed == a.committed && b.executed == a.executed
      && (r.Success? ==> b.open == Some([]))
      && (!r.Success? ==> b.open == a.open || b.open.None?)
      && (r.DeadStream? || r.TransactionGone? || r.NothingToRollBack? ==> b.open.None?)
  {
  }

  lemma OperateRollback(h: Handle)
    ensures var (h', r) := Operate(h, Rollback);
      && SameHandle(h, h') && Idle(h.server, h'.server) && (!r.SqlError? ==> h'.server.open.None?)
  {
  }

  lemma OperateExec(h: Handle, sql: Sql)
    requires h.server.open.Some?
    ensures var (h', r) := Operate(h, Exec(sql)); var a, b := h.server, h'.server;
      && SameHandle(h, h') && b.committed == a.committed
      && (r.Success? ==> b.open == Some(a.open.value + [sql]) && b.executed == a.executed + [sql])
      && (r.DeadStream? || r.TransactionGone? || r.NothingToRollBack? ==> b.open.None?)
      && (b.executed == a.executed || b.executed == a.executed + [sql])
  {
    var send := Send(h, Prepare(sql));
    assert Idle(h.server, send.0.server);
    assert send.1.Success? ==> send.0.server == h.server;
  }

  lemma OperateCommit(h: Handle)
    requires h.server.open.Some?
    ensures var (h', r) := Operate(h, Commit); var a, b := h.server, h'.server;
      && SameHandle(h, h') && b.executed == a.executed && (!r.SqlError? ==> b.open.None?)
      && (r.Success? ==> b.committed == a.committed + [a.open.value])
      && (b.committed == a.committed || b.committed == a.committed + [a.open.value])
  {
  }

  lemma BeginAttempt(h: Handle)
    requires Coherent(h)
    ensures var (h', r) := Attempt(h, Begin); var a, b := h.server, h'.server;
      && Coherent(h') && b.committed == a.committed && b.executed == a.executed
      && (r.Success? ==> h'.inTransaction && b.open == Some([]))
  {
    OperateBegin(h);
    var (h1, r1) := Operate(h, Begin);
    if r1.DeadStream? {
      ReconnectIdle(h1);
      OperateBegin(Reconnect(h1).0);
    }
  }

  /** A statement inside a transaction runs once or not at all, and never outside it. */
  lemma ExecAttempt(h: Handle, sql: Sql)
    requires Coherent(h) && h.inTransaction && h.server.open.Some?
    ensures var (h', r) := Attempt(h, Exec(sql)); var a, b := h.server, h'.server;
      && Coherent(h') && b.committed == a.committed
      && (r.Success? ==> h'.inTransaction && b.open == Some(a.open.value + [sql]) && b.executed == a.executed + [sql])
      && (b.executed == a.executed || b.executed == a.executed + [sql])
  {
    OperateExec(h, sql);
    var (h1, r1) := Operate(h, Exec(sql));
    if r1.DeadStream? {
      RecoverInTransaction(h1, Exec(sql));
    }
  }

  lemma RecoverInTransaction(h: Handle, rq: Request)
    requires h.server.open.None?
    ensures var (h', r) := Recover(h, rq, true);
      Coherent(h') && !r.Success? && h'.server.committed == h.server.committed && h'.server.executed == h.server.executed
  {
    ReconnectIdle(h);
  }

  lemma RollbackAttempt(h: Handle)
    requires Coherent(h)
    ensures var (h', r) := Attempt(h, Rollback); Coherent(h') && Idle(h.server, h'.server)
  {
    OperateRollback(h);
    var (h1, r1) := Operate(h, Rollback);
    if r1.DeadStream? {
      ReconnectIdle(h1);
      OperateRollback(Reconnect(h1).0);
    }
  }

  /** COMMIT is never sent twice; without its acknowledgement the transaction may or may not stand. */
  lemma CommitAttempt(h: Handle)
    requires Coherent(h) && h.inTransaction && h.server.open.Some?
    ensures var (h', r) := Attempt(h, Commit); var a, b := h.server, h'.server;
      && Coherent(h') && b.executed == a.executed
      && (r.Success? ==> b.committed == a.committed + [a.open.value])
      && (b.committed == a.committed || b.committed == a.committed + [a.open.value])
  {
    OperateCommit(h);
    var (h1, r1) := Operate(h, Commit);
    if r1.DeadStream? {
      RecoverInTransaction(h1, Commit);
    }
  }

  /** The server ran some prefix of a body, each statement of it once. */
  predicate RanOnce(before: seq<Sql>, after: seq<Sql>, body: seq<Sql>) {
    exists k | 0 <= k <= |body| :: after == before + body[..k]
  }

  lemma RanNone(before: seq<Sql>, body: seq<Sql>)
    ensures RanOnce(before, before, body)
  {
    assert before == before + body[..0];
  }

  lemma RanOneMore(before: seq<Sql>, after: seq<Sql>, body: seq<Sql>)
    requires body != [] && RanOnce(before + [body[0]], after, body[1..])
    ensures RanOnce(before, after, body)
  {
    var k :| 0 <= k <= |body[1..]| && after == before + [body[0]] + body[1..][..k];
    assert body[..k + 1] == [body[0]] + body[1..][..k];
    assert after == before + body[..k + 1];
  }

  /** What running a body from an open transaction leaves behind. */
  predicate BodyLeaves(h: Handle, body: seq<Sql>, done: seq<Sql>, h': Handle, ok: bool) {
    && Coherent(h') && h'.server.committed == h.server.committed && RanOnce(h.server.executed, h'.server.executed, body)
    && (ok ==> h'.inTransaction && h'.server.open == Some(done + body) && h'.server.executed == h.server.executed + body)
  }

  lemma BodyLeavesCons(h: Handle, body: seq<Sql>, done: seq<Sql>, h1: Handle, h': Handle, ok: bool)
    requires body != [] && h1.server.committed == h.server.committed && h1.server.executed == h.server.executed + [body[0]]
    requires BodyLeaves(h1, body[1..], done + [body[0]], h', ok)
    ensures BodyLeaves(h, body, done, h', ok)
  {
    RanOneMore(h.server.executed, h'.server.executed, body);
    assert done + [body[0]] + body[1..] == done + body;
    assert h.server.executed + [body[0]] + body[1..] == h.server.executed + body;
  }

  lemma BodyStops(h: Handle, body: seq<Sql>, done: seq<Sql>, h1: Handle)
    requires body != [] && Coherent(h1) && h1.server.committed == h.server.committed
    requires h1.server.executed == h.server.executed || h1.server.executed == h.server.executed + [body[0]]
    ensures BodyLeaves(h, body, done, h1, false)
  {
    RanNone(h.server.executed, body);
    RanNone(h.server.executed + [body[0]], body[1..]);
    RanOneMore(h.server.executed, h.server.executed + [body[0]], body);
  }

  lemma {:induction false} BodyRuns(h: Handle, body: seq<Sql>, done: seq<Sql>)
    requires Coherent(h) && h.inTransaction && h.server.open == Some(done)
    ensures BodyLeaves(h, body, done, RunBody(h, body).0, RunBody(h, body).1)
    decreases |body|
  {
    if body == [] {
      RanNone(h.server.executed, body);
      assert done + body == done;
    } else {
      ExecAttempt(h, body[0]);
      var h1 := Attempt(h, Exec(body[0])).0;
      if Attempt(h, Exec(body[0])).1.Success? {
        BodyRuns(h1, body[1..], done + [body[0]]);
        BodyLeavesCons(h, body, done, h1, RunBody(h1, body[1..]).0, RunBody(h1, body[1..]).1);
      } else {
        BodyStops(h, body, done, h1);
      }
    }
  }

  /**
   * Atomicity for every schedule of stream deaths, discards and statement errors: a transaction
   * that returns normally was committed whole by one server transaction; one that fails before
   * COMMIT is sent changes nothing durable; one whose COMMIT failed is all there or not at all;
   * and no statement of the body ever runs twice.
   */
  lemma TransactionIsAtomic(h: Handle, body: seq<Sql>, throws: bool)
    requires Coherent(h)
    ensures var (h', outcome) := RunTransaction(h, body, throws); var a, b := h.server, h'.server;
      && Coherent(h')
      && (outcome.Returned? ==> b.committed == a.committed + [body] && b.executed == a.executed + body)
      && (outcome.FailedBeforeCommit? ==> b.committed == a.committed)
      && (outcome.FailedAtCommit? ==> b.committed == a.committed || b.committed == a.committed + [body])
      && RanOnce(a.executed, b.executed, body)
  {
    BeginAttempt(h);
    var (begun, b) := Attempt(h, Begin);
    RanNone(h.server.executed, body);
    if b.Success? {
      BodyRuns(begun, body, []);
      var (ran, ok) := RunBody(begun, body);
      assert [] + body == body;
      if !ok || throws {
        RollbackAttempt(ran);
      } else {
        CommitAttempt(ran);
        RollbackAttempt(Attempt(ran, Commit).0);
      }
    }
  }

  /* ---- runs of transactions on one handle ---- */

  datatype Tx = Tx(body: seq<Sql>, throws: bool)

  function RunAll(h: Handle, txs: seq<Tx>): (Handle, seq<TxOutcome>)
    decreases |txs|
  {
    if txs == [] then (h, [])
    else
      var (h1, o) := RunTransaction(h, txs[0].body, txs[0].throws);
      var (h2, rest) := RunAll(h1, txs[1..]);
      (h2, [o] + rest)
  }

  /** The durable log is explained by the outcomes: every returned body once and in order, the lost acknowledgements at most once. */
  predicate Explains(log: seq<seq<Sql>>, txs: seq<Tx>, outcomes: seq<TxOutcome>)
    requires |txs| == |outcomes|
    decreases |txs|
  {
    if txs == [] then log == []
    else
      || (outcomes[0].Returned? && log != [] && log[0] == txs[0].body && Explains(log[1..], txs[1..], outcomes[1..]))
      || (outcomes[0].FailedBeforeCommit? && Explains(log, txs[1..], outcomes[1..]))
      || (outcomes[0].FailedAtCommit? && (Explains(log, txs[1..], outcomes[1..])
          || (log != [] && log[0] == txs[0].body && Explains(log[1..], txs[1..], outcomes[1..]))))
  }

  predicate Justified(before: seq<seq<Sql>>, after: seq<seq<Sql>>, body: seq<Sql>, outcome: TxOutcome) {
    || (after == before && !outcome.Returned?)
    || (after == before + [body] && !outcome.FailedBeforeCommit?)
  }

  lemma ExplainsOneMore(before: seq<seq<Sql>>, mid: seq<seq<Sql>>, end: seq<seq<Sql>>, txs: seq<Tx>, outcomes: seq<TxOutcome>)
    requires txs != [] && |txs| == |outcomes| && Justified(before, mid, txs[0].body, outcomes[0])
    requires mid <= end && Explains(end[|mid|..], txs[1..], outcomes[1..])
    ensures before <= end && Explains(end[|before|..], txs, outcomes)
  {
    if mid != before {
      assert end[|before|] == mid[|before|] == txs[0].body;
      assert end[|before|..][1..] == end[|mid|..];
    }
  }

  /** Over any number of transactions and any schedule, the durable log holds nothing else. */
  lemma {:induction false} EveryRunIsExplained(h: Handle, txs: seq<Tx>)
    requires Coherent(h)
    ensures |RunAll(h, txs).1| == |txs|
    ensures h.server.committed <= RunAll(h, txs).0.server.committed
    ensures Coherent(RunAll(h, txs).0)
    ensures Explains(RunAll(h, txs).0.server.committed[|h.server.committed|..], txs, RunAll(h, txs).1)
    decreases |txs|
  {
    if txs != [] {
      TransactionIsAtomic(h, txs[0].body, txs[0].throws);
      var tx := RunTransaction(h, txs[0].body, txs[0].throws);
      EveryRunIsExplained(tx.0, txs[1..]);
      var rest := RunAll(tx.0, txs[1..]);
      assert RunAll(h, txs) == (rest.0, [tx.1] + rest.1);
      ExplainsOneMore(h.server.committed, tx.0.server.committed, rest.0.server.committed, txs, [tx.1] + rest.1);
    }
  }

  /* ---- progress ---- */

  /** Nothing goes wrong from here on. */
  predicate Calm(h: Handle) {
    forall i | 0 <= i < |h.schedule| :: h.schedule[i] == NoFault
  }

  /** The handle between transactions. */
  predicate AtRest(h: Handle) {
    Coherent(h) && h.server.open.None?
  }

  lemma CalmSend(h: Handle, rq: Request)
    requires Calm(h)
    ensures var (h', r) := Send(h, rq);
      && Calm(h') && (h'.server, r) == Apply(h.server, rq)
      && h' == h.(server := h'.server, schedule := h'.schedule)
  {
  }

  lemma CalmBegin(h: Handle)
    requires Calm(h) && AtRest(h)
    ensures var (h', r) := Attempt(h, Begin);
      Calm(h') && Coherent(h') && r.Success? && h'.inTransaction && h'.server == h.server.(open := Some([]))
  {
    CalmSend(h, Begin);
  }

  /** The server after some statements of an open transaction. */
  function Grown(s: Server, done: seq<Sql>, sqls: seq<Sql>): Server {
    s.(open := Some(done + sqls), executed := s.executed + sqls)
  }

  lemma GrownTwice(s: Server, done: seq<Sql>, a: seq<Sql>, b: seq<Sql>)
    ensures Grown(Grown(s, done, a), done + a, b) == Grown(s, done, a + b)
  {
    assert done + a + b == done + (a + b);
    assert s.executed + a + b == s.executed + (a + b);
  }

  lemma CalmOperate(h: Handle, sql: Sql, done: seq<Sql>)
    requires Calm(h) && CacheFresh(h) && h.server.open == Some(done)
    ensures var (h', r) := Operate(h, Exec(sql));
      && Calm(h') && CacheFresh(h') && r.Success? && h'.inTransaction == h.inTransaction && h'.connection == h.connection
      && h'.server == Grown(h.server, done, [sql])
  {
    if sql in h.cache && h.cache[sql].generation == h.generation {
      CalmSend(h, Exec(sql));
    } else {
      CalmSend(h, Prepare(sql));
      var prepared := Send(h, Prepare(sql)).0;
      CalmSend(prepared.(cache := prepared.cache[sql := Cached(h.generation, h.connection)]), Exec(sql));
    }
  }

  /** A handle in the middle of a calm transaction that has run `done`. */
  predicate Underway(h: Handle, done: seq<Sql>) {
    Calm(h) && Coherent(h) && h.inTransaction && h.server.open == Some(done)
  }

  lemma CalmExec(h: Handle, sql: Sql, done: seq<Sql>)
    requires Underway(h, done)
    ensures var (h', r) := Attempt(h, Exec(sql));
      r.Success? && Underway(h', done + [sql]) && h'.server == Grown(h.server, done, [sql]) && h'.connection == h.connection
  {
    CalmOperate(h, sql, done);
  }

  lemma CalmCommit(h: Handle)
    requires Calm(h) && Coherent(h) && h.server.open.Some?
    ensures var (h', r) := Attempt(h, Commit);
      Calm(h') && AtRest(h') && r.Success? && h'.server == h.server.(open := None, committed := h.server.committed + [h.server.open.value])
  {
    CalmSend(h, Commit);
  }

  lemma CalmRollback(h: Handle)
    requires Calm(h) && Coherent(h) && h.server.open.Some?
    ensures var (h', r) := Attempt(h, Rollback); Calm(h') && AtRest(h') && h'.server == h.server.(open := None)
  {
    CalmSend(h, Rollback);
  }

  lemma RunBodyOne(h: Handle, body: seq<Sql>)
    requires body != [] && Attempt(h, Exec(body[0])).1.Success?
    ensures RunBody(h, body) == RunBody(Attempt(h, Exec(body[0])).0, body[1..])
  {
  }

  /** Where a calm transaction that had run `done` stands after some more statements. */
  predicate CameTo(h: Handle, h': Handle, done: seq<Sql>, sqls: seq<Sql>) {
    Underway(h', done + sqls) && h'.server == Grown(h.server, done, sqls) && h'.connection == h.connection
  }

  lemma CameToNowhere(h: Handle, done: seq<Sql>)
    requires Underway(h, done)
    ensures CameTo(h, h, done, [])
  {
    assert done + [] == done && h.server.executed + [] == h.server.executed;
  }

  lemma CameFurther(h: Handle, h1: Handle, h2: Handle, done: seq<Sql>, a: seq<Sql>, b: seq<Sql>)
    requires CameTo(h, h1, done, a) && CameTo(h1, h2, done + a, b)
    ensures CameTo(h, h2, done, a + b)
  {
    GrownTwice(h.server, done, a, b);
    assert done + a + b == done + (a + b);
  }

  lemma {:induction false} CalmBody(h: Handle, body: seq<Sql>, done: seq<Sql>)
    requires Underway(h, done)
    ensures RunBody(h, body).1 && CameTo(h, RunBody(h, body).0, done, body)
    decreases |body|
  {
    if body == [] {
      CameToNowhere(h, done);
    } else {
      CalmExec(h, body[0], done);
      RunBodyOne(h, body);
      var h1 := Attempt(h, Exec(body[0])).0;
      CalmBody(h1, body[1..], done + [body[0]]);
      CameFurther(h, h1, RunBody(h1, body[1..]).0, done, [body[0]], body[1..]);
      assert [body[0]] + body[1..] == body;
    }
  }

  /**
   * When nothing goes wrong a transaction does commit: it returns, the durable log grows by exactly its
   * body, and the handle is at rest again. If the body throws nothing is durable.
   */
  lemma CalmTransaction(h: Handle, body: seq<Sql>, throws: bool)
    requires Calm(h) && AtRest(h)
    ensures var (h', outcome) := RunTransaction(h, body, throws);
      && Calm(h') && AtRest(h') && h'.server.executed == h.server.executed + body
      && outcome == (if throws then FailedBeforeCommit else Returned)
      && h'.server.committed == (if throws then h.server.committed else h.server.committed + [body])
  {
    CalmBegin(h);
    var begun := Attempt(h, Begin).0;
    CalmBody(begun, body, []);
    assert [] + body == body;
    var ran := RunBody(begun, body).0;
    if throws {
      CalmRollback(ran);
    } else {
      CalmCommit(ran);
    }
  }

  /**
   * A stream that died between transactions costs nothing: BEGIN is sent again on a new connection, and
   * the transaction commits.
   */
  lemma DeadStreamIsHealed(h: Handle, body: seq<Sql>, throws: bool, applied: bool, rest: seq<Fault>)
    requires AtRest(h) && !h.inTransaction && h.schedule == [DropStream(applied)] + rest && forall i | 0 <= i < |rest| :: rest[i] == NoFault
    ensures var (h', outcome) := RunTransaction(h, body, throws);
      && h'.connection == h.connection + 1
      && outcome == (if throws then FailedBeforeCommit else Returned)
      && h'.server.committed == (if throws then h.server.committed else h.server.committed + [body])
  {
    HealedBegin(h, applied, rest);
    var begun := Attempt(h, Begin).0;
    CalmBody(begun, body, []);
    assert [] + body == body;
    var ran := RunBody(begun, body).0;
    if throws {
      CalmRollback(ran);
    } else {
      CalmCommit(ran);
    }
  }

  lemma HealedBegin(h: Handle, applied: bool, rest: seq<Fault>)
    requires AtRest(h) && !h.inTransaction && h.schedule == [DropStream(applied)] + rest && forall i | 0 <= i < |rest| :: rest[i] == NoFault
    ensures var (h', r) := Attempt(h, Begin);
      && Calm(h') && Coherent(h') && r.Success? && h'.inTransaction && h'.server == h.server.(open := Some([]))
      && h'.connection == h.connection + 1
  {
    assert h.schedule[1..] == rest;
    var h1 := Operate(h, Begin).0;
    assert h1 == h.(schedule := rest);
    var cleared := h1.(connection := h.connection + 1, generation := h.generation + 1, cache := map[], inTransaction := false);
    CalmSend(cleared, Pragma);
    CalmSend(Reconnect(h1).0, Begin);
  }

  /* ---- the flag ---- */

  /** The handle believes itself in a transaction exactly when the server has one open. */
  predicate FlagExact(h: Handle) {
    h.inTransaction <==> h.server.open.Some?
  }

  /** What one driver operation does to the open transaction, by its response. */
  lemma OperateAndOpen(h: Handle, rq: Request)
    requires !rq.Prepare? && !rq.Pragma?
    ensures var (h', r) := Operate(h, rq); var a, b := h.server.open, h'.server.open;
      && h'.inTransaction == h.inTransaction
      && (r.DeadStream? || r.TransactionGone? || r.NothingToRollBack? ==> b.None?)
      && (r.SqlError? ==> (b.Some? <==> a.Some?))
      && (r.Success? ==> (b.Some? <==> rq.Begin? || (a.Some? && !rq.Commit? && !rq.Rollback?)))
      && ((r.TransactionGone? || r.NothingToRollBack?) && a.None? ==> rq.Commit? || rq.Rollback?)
  {
    if rq.Exec? || rq.Read? {
      var send := Send(h, Prepare(rq.sql));
      assert send.1.Success? || send.1.SqlError? ==> send.0.server == h.server;
    }
  }

  lemma ReconnectAndOpen(h: Handle)
    requires h.server.open.None?
    ensures var (h', r) := Reconnect(h); h'.server.open.None? && !h'.inTransaction
  {
  }

  /** Every operation keeps the flag exact, whatever goes wrong. */
  lemma AttemptKeepsFlagExact(h: Handle, rq: Request)
    requires FlagExact(h) && !rq.Prepare? && !rq.Pragma?
    ensures FlagExact(Attempt(h, rq).0)
  {
    OperateAndOpen(h, rq);
    var (h1, r1) := Operate(h, rq);
    if r1.DeadStream? {
      ReconnectAndOpen(h1);
      OperateAndOpen(Reconnect(h1).0, rq);
    }
  }
}
