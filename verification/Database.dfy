/** `ReconnectingDatabase` as an object whose fields the calls update. */
module Database {
  import opened Basics
  import opened Connection

  class ReconnectingDatabase {
    var connection: nat
    var generation: nat
    var inTransaction: bool
    var cache: map<Sql, Cached>
    var server: Server
    var schedule: seq<Fault>

    /** A fresh handle on a server that holds `committed`, under any schedule of faults. */
    constructor (committed: seq<seq<Sql>>, schedule: seq<Fault>)
      ensures Now() == Handle(0, 0, false, map[], Server(committed, None, []), schedule)
      ensures Coherent(Now())
    {
      connection, generation, inTransaction, cache := 0, 0, false, map[];
      server := Server(committed, None, []);
      this.schedule := schedule;
    }

    function Now(): Handle
      reads this
    {
      Handle(connection, generation, inTransaction, cache, server, schedule)
    }

    method Send(rq: Request) returns (r: Response)
      modifies this`server, this`schedule
      ensures (Now(), r) == Connection.Send(old(Now()), rq)
    {
      var fault := NoFault;
      if schedule != [] {
        fault, schedule := schedule[0], schedule[1..];
      }
      var (after, response) := Serve(server, rq, fault);
      server, r := after, response;
    }

    /** `statementFor` and the call on it: the cache is consulted by generation. */
    method Operate(rq: Request) returns (r: Response)
      modifies this`server, this`schedule, this`cache
      ensures (Now(), r) == Connection.Operate(old(Now()), rq)
    {
      if (rq.Exec? || rq.Read?) && !(rq.sql in cache && cache[rq.sql].generation == generation) {
        r := Send(Prepare(rq.sql));
        if !r.Success? {
          return;
        }
        cache := cache[rq.sql := Cached(generation, connection)];
      }
      r := Send(rq);
    }

    /** `reconnect`: whatever the server answers, the flag and the cache are gone and nothing durable changed. */
    method Reconnect() returns (r: Response)
      modifies this
      ensures (Now(), r) == Connection.Reconnect(old(Now()))
      ensures !inTransaction && cache == map[] && generation == old(generation) + 1 && connection == old(connection) + 1
      ensures server.committed == old(server.committed) && server.executed == old(server.executed)
    {
      connection, generation, cache, inTransaction := connection + 1, generation + 1, map[], false;
      r := Send(Pragma);
    }

    method Attempt(rq: Request) returns (r: Response)
      modifies this
      ensures (Now(), r) == Connection.Attempt(old(Now()), rq)
    {
      var wasInTransaction := inTransaction;
      r := Operate(rq);
      if r.Success? {
        if rq.Begin? {
          inTransaction := true;
        } else if rq.Commit? || rq.Rollback? {
          inTransaction := false;
        }
        return;
      }
      if rq.Rollback? && r.NothingToRollBack? {
        inTransaction := false;
        return Success;
      }
      if wasInTransaction && (r.TransactionGone? || r.NothingToRollBack?) {
        inTransaction := false;
        return;
      }
      if !r.DeadStream? {
        return;
      }
      var healed := Reconnect();
      if !healed.Success? {
        return healed;
      }
      if wasInTransaction {
        inTransaction := false;
        return;
      }
      r := Operate(rq);
      if r.Success? && rq.Begin? {
        inTransaction := true;
      }
    }

    /** `runTransaction`: atomic whatever the schedule does, as long as nothing else uses the handle meanwhile. */
    method Run(body: seq<Sql>, throws: bool) returns (outcome: TxOutcome)
      requires Coherent(Now())
      modifies this
      ensures Coherent(Now())
      ensures (Now(), outcome) == RunTransaction(old(Now()), body, throws)
      ensures outcome.Returned? ==> server.committed == old(server.committed) + [body]
      ensures outcome.FailedBeforeCommit? ==> server.committed == old(server.committed)
      ensures RanOnce(old(server.executed), server.executed, body)
      ensures old(Calm(Now()) && AtRest(Now())) ==> outcome == if throws then FailedBeforeCommit else Returned
    {
      TransactionIsAtomic(Now(), body, throws);
      if Calm(Now()) && AtRest(Now()) {
        CalmTransaction(Now(), body, throws);
      }
      outcome := RunSteps(body, throws);
    }

    method RunSteps(body: seq<Sql>, throws: bool) returns (outcome: TxOutcome)
      modifies this
      ensures (Now(), outcome) == RunTransaction(old(Now()), body, throws)
    {
      var r := Attempt(Begin);
      if !r.Success? {
        return FailedBeforeCommit;
      }
      ghost var begun := Now();
      var i := 0;
      while i < |body| && r.Success?
        invariant 0 <= i <= |body|
        invariant r.Success? ==> RunBody(begun, body) == RunBody(Now(), body[i..])
        invariant !r.Success? ==> RunBody(begun, body) == (Now(), false)
        decreases |body| - i, r.Success?
      {
        r := Attempt(Exec(body[i]));
        if r.Success? {
          assert body[i..][1..] == body[i + 1..];
          i := i + 1;
        }
      }
      var sent := r.Success? && !throws;
      if sent {
        r := Attempt(Commit);
        if r.Success? {
          return Returned;
        }
      }
      var _ := Attempt(Rollback);
      outcome := if sent then FailedAtCommit else FailedBeforeCommit;
    }
  }
}
