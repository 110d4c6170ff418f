/**
 * How the handle recovers (`src/reserved/db.ts`): what one retry can and cannot heal, and that a
 * transaction that failed is over before the next begins.
 */
module Recovery {
  import opened Basics
  import opened Connection
  import opened Foreign

  /** A fault that makes a request outside a transaction fail. */
  predicate Bad(fault: Fault) {
    fault.RefuseStatement? || fault.DropStream?
  }

  function FaultAt(h: Handle, i: nat): Fault {
    if i < |h.schedule| then h.schedule[i] else NoFault
  }

  lemma SendBad(h: Handle, rq: Request)
    ensures var (h', r) := Send(h, rq);
      && (forall i: nat :: FaultAt(h', i) == FaultAt(h, i + 1))
      && (h.server.open.None? && (rq.Begin? || rq.Pragma? || rq.Prepare? || rq.Read?) ==> (r.Success? <==> !Bad(FaultAt(h, 0))))
      && (h.server.open.None? && !rq.Begin? ==> h'.server.open.None?)
      && (r.DeadStream? <==> FaultAt(h, 0).DropStream?)
      && h'.connection == h.connection && h'.generation == h.generation && h'.cache == h.cache && h'.inTransaction == h.inTransaction
  {
  }

  /**
   * BEGIN outside a transaction is sent once more after a dead stream and no oftener: it succeeds
   * exactly if nothing is wrong, or if only the stream was and neither the new connection's pragma nor
   * the second BEGIN fails.
   */
  lemma BeginHealsExactly(h: Handle)
    requires AtRest(h) && !h.inTransaction
    ensures Attempt(h, Begin).1.Success?
       <==> !Bad(FaultAt(h, 0)) || (FaultAt(h, 0).DropStream? && !Bad(FaultAt(h, 1)) && !Bad(FaultAt(h, 2)))
  {
    SendBad(h, Begin);
    var h1 := Send(h, Begin).0;
    var renewed := h1.(connection := h1.connection + 1, generation := h1.generation + 1, cache := map[], inTransaction := false);
    if FaultAt(h, 0).DropStream? {
      SendBad(renewed, Pragma);
      SendBad(Reconnect(h1).0, Begin);
      assert FaultAt(renewed, 0) == FaultAt(h, 1) && FaultAt(renewed, 1) == FaultAt(h, 2);
    }
  }

  /** A read is prepared again on the new connection, whatever the old one had cached. */
  predicate Heals(h: Handle, i: nat) {
    !Bad(FaultAt(h, i)) && !Bad(FaultAt(h, i + 1)) && !Bad(FaultAt(h, i + 2))
  }

  predicate Ready(h: Handle, sql: Sql) {
    sql in h.cache && h.cache[sql].generation == h.generation
  }

  lemma OperateReadSucceeds(h: Handle, sql: Sql)
    requires h.server.open.None?
    ensures var (h', r) := Operate(h, Read(sql));
      && h'.server.open.None? && h'.connection == h.connection && h'.generation == h.generation && h'.inTransaction == h.inTransaction
      && (Ready(h, sql) || Bad(FaultAt(h, 0)) ==>
            (r.Success? <==> !Bad(FaultAt(h, 0))) && (r.DeadStream? <==> FaultAt(h, 0).DropStream?)
            && forall i: nat :: FaultAt(h', i) == FaultAt(h, i + 1))
      && (!Ready(h, sql) && !Bad(FaultAt(h, 0)) ==>
            (r.Success? <==> !Bad(FaultAt(h, 1))) && (r.DeadStream? <==> FaultAt(h, 1).DropStream?)
            && forall i: nat :: FaultAt(h', i) == FaultAt(h, i + 2))
  {
    if Ready(h, sql) {
      SendBad(h, Read(sql));
    } else {
      SendBad(h, Prepare(sql));
      var prepared := Send(h, Prepare(sql)).0;
      SendBad(prepared.(cache := prepared.cache[sql := Cached(h.generation, h.connection)]), Read(sql));
    }
  }

  lemma ReconnectSucceeds(h: Handle)
    requires h.server.open.None?
    ensures var (h', r) := Reconnect(h);
      && (r.Success? <==> !Bad(FaultAt(h, 0))) && h'.server.open.None? && !h'.inTransaction && h'.cache == map[]
      && forall i: nat :: FaultAt(h', i) == FaultAt(h, i + 1)
  {
    SendBad(h.(connection := h.connection + 1, generation := h.generation + 1, cache := map[], inTransaction := false), Pragma);
  }

  lemma RecoverRead(h: Handle, sql: Sql)
    requires h.server.open.None?
    ensures Recover(h, Read(sql), false).1.Success? <==> Heals(h, 0)
  {
    ReconnectSucceeds(h);
    var h2 := Reconnect(h).0;
    OperateReadSucceeds(h2, sql);
  }

  /** And so is a read: one more time, on a new connection, prepared anew. */
  lemma ReadHealsExactly(h: Handle, sql: Sql)
    requires AtRest(h) && !h.inTransaction
    ensures Attempt(h, Read(sql)).1.Success? <==>
      if Ready(h, sql) || Bad(FaultAt(h, 0)) then !Bad(FaultAt(h, 0)) || (FaultAt(h, 0).DropStream? && Heals(h, 1))
      else !Bad(FaultAt(h, 1)) || (FaultAt(h, 1).DropStream? && Heals(h, 2))
  {
    OperateReadSucceeds(h, sql);
    RecoverRead(Operate(h, Read(sql)).0, sql);
  }

  /** A statement that ran is not prepared again on the same connection: the next call is one request. */
  lemma PreparedOnce(h: Handle, sql: Sql)
    requires Operate(h, Exec(sql)).1.Success?
    ensures var h1 := Operate(h, Exec(sql)).0; Ready(h1, sql) && Operate(h1, Exec(sql)) == Send(h1, Exec(sql))
  {
  }

  /* ---- ROLLBACK ---- */

  /** With nothing to roll back there is nothing to complain of: unless it is refused or the stream dies, ROLLBACK succeeds. */
  lemma RollbackSucceedsExactly(h: Handle)
    requires !FaultAt(h, 0).DropStream?
    ensures var (h', r) := Attempt(h, Rollback);
      && (r.Success? <==> !FaultAt(h, 0).RefuseStatement?)
      && (r.Success? ==> h'.server.open.None? && !h'.inTransaction && h'.connection == h.connection)
  {
  }

  /** Never are two requests in a row refused. */
  predicate Spaced(schedule: seq<Fault>) {
    forall i | 0 <= i < |schedule| - 1 :: !(schedule[i].RefuseStatement? && schedule[i + 1].RefuseStatement?)
  }

  predicate NeverRefuses(schedule: seq<Fault>) {
    forall i | 0 <= i < |schedule| :: !schedule[i].RefuseStatement?
  }

  /** What the faults still to come have in common with those there were. */
  predicate Milder(before: Handle, after: Handle) {
    Spaced(after.schedule) && (NeverRefuses(before.schedule) ==> NeverRefuses(after.schedule))
  }

  /** The next request will not be refused. */
  predicate Primed(h: Handle) {
    !FaultAt(h, 0).RefuseStatement?
  }

  /** After a failure the transaction is gone, or the next request will not be refused. */
  predicate Curable(h: Handle) {
    h.server.open.None? || Primed(h)
  }

  lemma SendSpaced(h: Handle, rq: Request)
    requires Spaced(h.schedule) && (rq.Begin? ==> h.server.open.None?)
    ensures var (h', r) := Send(h, rq); Milder(h, h') && (!r.Success? ==> Curable(h'))
    ensures h.server.open.None? && !rq.Begin? ==> Send(h, rq).0.server.open.None?
  {
  }

  lemma OperateSpaced(h: Handle, rq: Request)
    requires Spaced(h.schedule) && (rq.Begin? ==> h.server.open.None?)
    ensures var (h', r) := Operate(h, rq); Milder(h, h') && (!r.Success? ==> Curable(h')) && (r.DeadStream? ==> h'.server.open.None?)
    ensures h.server.open.None? && !rq.Begin? ==> Operate(h, rq).0.server.open.None?
  {
    if (rq.Exec? || rq.Read?) && !Ready(h, rq.sql) {
      SendSpaced(h, Prepare(rq.sql));
      var prepared := Send(h, Prepare(rq.sql)).0;
      SendSpaced(prepared.(cache := prepared.cache[rq.sql := Cached(h.generation, h.connection)]), rq);
    } else {
      SendSpaced(h, rq);
    }
  }

  lemma RecoverSpaced(h: Handle, rq: Request, wasInTransaction: bool)
    requires Spaced(h.schedule) && h.server.open.None?
    ensures var (h', r) := Recover(h, rq, wasInTransaction); Milder(h, h') && (!r.Success? ==> Curable(h'))
  {
    SendSpaced(h.(connection := h.connection + 1, generation := h.generation + 1, cache := map[], inTransaction := false), Pragma);
    OperateSpaced(Reconnect(h).0, rq);
  }

  lemma AttemptSpaced(h: Handle, rq: Request)
    requires Spaced(h.schedule) && (rq.Begin? ==> h.server.open.None?)
    ensures var (h', r) := Attempt(h, rq); Milder(h, h') && (!r.Success? ==> Curable(h'))
  {
    OperateSpaced(h, rq);
    var (h1, r1) := Operate(h, rq);
    if r1.DeadStream? {
      RecoverSpaced(h1, rq, h.inTransaction);
    }
  }

  lemma {:induction false} ItemsSpaced(h: Handle, items: seq<Item>)
    requires Spaced(h.schedule)
    ensures var (h', ok) := RunItems(h, items); Milder(h, h') && (!ok ==> Curable(h'))
    decreases |items|
  {
    if items != [] {
      if items[0].Other? {
        AttemptSpaced(h, Read(items[0].sql));
        ItemsSpaced(Attempt(h, Read(items[0].sql)).0, items[1..]);
      } else {
        AttemptSpaced(h, Exec(items[0].sql));
        if Attempt(h, Exec(items[0].sql)).1.Success? {
          ItemsSpaced(Attempt(h, Exec(items[0].sql)).0, items[1..]);
        }
      }
    }
  }

  lemma CuredByRollback(h: Handle)
    requires Curable(h)
    ensures Attempt(h, Rollback).0.server.open.None?
  {
  }

  lemma CommitCloses(h: Handle)
    ensures Attempt(h, Commit).1.Success? ==> Attempt(h, Commit).0.server.open.None?
  {
  }

  lemma BeginFails(h: Handle)
    requires AtRest(h)
    ensures !Attempt(h, Begin).1.Success? ==> Attempt(h, Begin).0.server.open.None?
  {
  }

  /**
   * A transaction leaves nothing open: if it fails its ROLLBACK sees to it, whatever refused statement,
   * lost connection or refused COMMIT it failed by, unless the ROLLBACK itself is refused.
   */
  lemma TransactionEndsClosed(h: Handle, items: seq<Item>, throws: bool)
    requires AtRest(h) && Spaced(h.schedule) && (throws ==> NeverRefuses(h.schedule))
    ensures RunAmong(h, items, throws).0.server.open.None?
  {
    BeginFails(h);
    AttemptSpaced(h, Begin);
    var begun := Attempt(h, Begin).0;
    ItemsSpaced(begun, items);
    var (ran, ok) := RunItems(begun, items);
    if ok && !throws {
      AttemptSpaced(ran, Commit);
      CommitCloses(ran);
      CuredByRollback(Attempt(ran, Commit).0);
    } else {
      CuredByRollback(ran);
    }
  }

  /** So one bad request is not an outage: as soon as the faults cease, the next transaction commits. */
  lemma NextTransactionCommits(h: Handle, body: seq<Sql>, next: seq<Sql>)
    requires AtRest(h) && Spaced(h.schedule)
    ensures var h1 := RunTransaction(h, body, false).0;
      Calm(h1) ==> var (h2, outcome) := RunTransaction(h1, next, false);
        outcome.Returned? && h2.server.committed == h1.server.committed + [next]
  {
    TransactionEndsClosed(h, Followed(body, []), false);
    AloneIsRunTransaction(h, body, false);
    TransactionIsAtomic(h, body, false);
    var h1 := RunTransaction(h, body, false).0;
    if Calm(h1) {
      CalmTransaction(h1, next, false);
    }
  }
}
