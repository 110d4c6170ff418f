/**
 * Statements of other callers between BEGIN and COMMIT (`src/reserved/db.ts`). The queue keeps whole
 * transactions apart, but a bare read such as the hold lookup runs on the same handle whenever it is
 * asked for. The in-transaction flag belongs to the handle, so such a read can lose the transaction
 * without its body hearing of it.
 */
module Foreign {
  import opened Basics
  import opened Connection

  /** What is sent while the body runs: its own statements, and reads that are not its own. */
  datatype Item = Own(sql: Sql) | Other(sql: Sql)

  function Body(items: seq<Item>): seq<Sql> {
    if items == [] then []
    else if items[0].Own? then [items[0].sql] + Body(items[1..])
    else Body(items[1..])
  }

  /** The body stops at its own first failure; a read that fails is some other caller's concern. */
  function RunItems(h: Handle, items: seq<Item>): (Handle, bool)
    decreases |items|
  {
    if items == [] then (h, true)
    else if items[0].Other? then RunItems(Attempt(h, Read(items[0].sql)).0, items[1..])
    else
      var (h1, r) := Attempt(h, Exec(items[0].sql));
      if r.Success? then RunItems(h1, items[1..]) else (h1, false)
  }

  /** `runTransaction` with other callers' reads between its statements. */
  function RunAmong(h: Handle, items: seq<Item>, throws: bool): (Handle, TxOutcome) {
    var (begun, b) := Attempt(h, Begin);
    if !b.Success? then (begun, FailedBeforeCommit)
    else
      var (ran, ok) := RunItems(begun, items);
      if !ok || throws then (Attempt(ran, Rollback).0, FailedBeforeCommit)
      else
        var (done, c) := Attempt(ran, Commit);
        if c.Success? then (done, Returned) else (Attempt(done, Rollback).0, FailedAtCommit)
  }

  /** What a transaction promises of the durable log. */
  predicate AllOrNothing(a: Server, b: Server, body: seq<Sql>, outcome: TxOutcome) {
    match outcome
    case Returned => b.committed == a.committed + [body]
    case FailedBeforeCommit => b.committed == a.committed
    case FailedAtCommit => b.committed == a.committed || b.committed == a.committed + [body]
  }

  ghost predicate AtomicFrom(h: Handle, items: seq<Item>, throws: bool) {
    Coherent(h) ==>
      var (h', outcome) := RunAmong(h, items, throws); AllOrNothing(h.server, h'.server, Body(items), outcome)
  }

  ghost predicate OnceFrom(h: Handle, items: seq<Item>, throws: bool) {
    Coherent(h) ==> RanOnce(h.server.executed, RunAmong(h, items, throws).0.server.executed, Body(items))
  }

  /** No read of another caller comes before a later statement of the body. */
  predicate OthersLast(items: seq<Item>) {
    forall i | 0 <= i < |items| - 1 :: items[i].Other? ==> items[i + 1].Other?
  }

  /* ---- enough ---- */

  /** The transaction is open with `done` in it, or it is gone and the handle knows of none. */
  predicate HeldOrLost(h: Handle, done: seq<Sql>) {
    Coherent(h) && if h.server.open.Some? then h.server.open.value == done else !h.inTransaction
  }

  lemma OperateRead(h: Handle, sql: Sql)
    ensures var (h', r) := Operate(h, Read(sql));
      && SameHandle(h, h') && Idle(h.server, h'.server)
      && (r.Success? || r.SqlError? ==> h'.server == h.server)
      && !r.NothingToRollBack? && (r.DeadStream? ==> h'.server.open.None?)
      && (r.TransactionGone? ==> h'.server.open.None? && h.server.open.Some?)
  {
    var send := Send(h, Prepare(sql));
    assert Idle(h.server, send.0.server);
    assert send.1.Success? ==> send.0.server == h.server;
  }

  /** A read leaves nothing durable and runs no statement of the body, but may lose the transaction. */
  lemma ReadAttempt(h: Handle, sql: Sql, done: seq<Sql>)
    requires HeldOrLost(h, done)
    ensures var h' := Attempt(h, Read(sql)).0;
      HeldOrLost(h', done) && h'.server.committed == h.server.committed && h'.server.executed == h.server.executed
  {
    OperateRead(h, sql);
    var (h1, r1) := Operate(h, Read(sql));
    if r1.DeadStream? {
      ReconnectIdle(h1);
      OperateRead(Reconnect(h1).0, sql);
    }
  }

  lemma {:induction false} OnlyOthers(h: Handle, items: seq<Item>, done: seq<Sql>)
    requires HeldOrLost(h, done) && forall i | 0 <= i < |items| :: items[i].Other?
    ensures Body(items) == []
    ensures var (h', ok) := RunItems(h, items);
      ok && HeldOrLost(h', done) && h'.server.committed == h.server.committed && h'.server.executed == h.server.executed
    decreases |items|
  {
    if items != [] {
      ReadAttempt(h, items[0].sql, done);
      OnlyOthers(Attempt(h, Read(items[0].sql)).0, items[1..], done);
    }
  }

  /** What the items leave behind, all of the body's own having come first. */
  predicate ItemsLeave(h: Handle, body: seq<Sql>, done: seq<Sql>, h': Handle, ok: bool) {
    && Coherent(h') && h'.server.committed == h.server.committed && RanOnce(h.server.executed, h'.server.executed, body)
    && (ok ==> HeldOrLost(h', done + body))
  }

  lemma ItemsLeaveCons(h: Handle, body: seq<Sql>, done: seq<Sql>, h1: Handle, h': Handle, ok: bool)
    requires body != [] && h1.server.committed == h.server.committed && h1.server.executed == h.server.executed + [body[0]]
    requires ItemsLeave(h1, body[1..], done + [body[0]], h', ok)
    ensures ItemsLeave(h, body, done, h', ok)
  {
    RanOneMore(h.server.executed, h'.server.executed, body);
    assert done + [body[0]] + body[1..] == done + body;
  }

  lemma OthersFollow(items: seq<Item>, i: nat)
    requires OthersLast(items) && items != [] && items[0].Other? && i < |items|
    ensures items[i].Other?
  {
    if i > 0 {
      OthersFollow(items, i - 1);
    }
  }

  lemma {:induction false} ItemsRun(h: Handle, items: seq<Item>, done: seq<Sql>)
    requires Coherent(h) && h.inTransaction && h.server.open == Some(done) && OthersLast(items)
    ensures ItemsLeave(h, Body(items), done, RunItems(h, items).0, RunItems(h, items).1)
    decreases |items|
  {
    if items == [] || items[0].Other? {
      forall i | 0 <= i < |items| ensures items[i].Other? {
        OthersFollow(items, i);
      }
      OnlyOthers(h, items, done);
      RanNone(h.server.executed, []);
      assert done + [] == done;
    } else {
      var sql, body := items[0].sql, Body(items);
      ExecAttempt(h, sql);
      var (h1, r) := Attempt(h, Exec(sql));
      if r.Success? {
        assert OthersLast(items[1..]);
        assert body[1..] == Body(items[1..]);
        ItemsRun(h1, items[1..], done + [sql]);
        ItemsLeaveCons(h, body, done, h1, RunItems(h1, items[1..]).0, RunItems(h1, items[1..]).1);
      } else {
        BodyStops(h, body, done, h1);
      }
    }
  }

  /** COMMIT on a lost transaction is refused and makes nothing durable. */
  lemma CommitLost(h: Handle)
    requires Coherent(h) && h.server.open.None? && !h.inTransaction
    ensures var (h', r) := Attempt(h, Commit); Coherent(h') && !r.Success? && Idle(h.server, h'.server)
  {
    var (h1, r1) := Operate(h, Commit);
    assert Idle(h.server, h1.server) && h1.server.open.None?;
    if r1.DeadStream? {
      ReconnectIdle(h1);
    }
  }

  lemma AtomicWhenOthersLast(h: Handle, items: seq<Item>, throws: bool)
    requires OthersLast(items)
    ensures AtomicFrom(h, items, throws) && OnceFrom(h, items, throws)
    ensures Coherent(h) ==> Coherent(RunAmong(h, items, throws).0)
  {
    if Coherent(h) {
      var body := Body(items);
      BeginAttempt(h);
      RanNone(h.server.executed, body);
      var (begun, b) := Attempt(h, Begin);
      if b.Success? {
        ItemsRun(begun, items, []);
        var (ran, ok) := RunItems(begun, items);
        assert [] + body == body;
        if !ok || throws {
          RollbackAttempt(ran);
        } else {
          if ran.server.open.Some? {
            CommitAttempt(ran);
          } else {
            CommitLost(ran);
          }
          RollbackAttempt(Attempt(ran, Commit).0);
        }
      }
    }
  }

  /* ---- and necessary ---- */

  function Quiet(n: nat): (s: seq<Fault>)
    ensures |s| == n && forall i | 0 <= i < n :: s[i] == NoFault
  {
    seq(n, _ => NoFault)
  }

  /** Every statement to come is prepared already, so each is one request. */
  predicate Warm(h: Handle, items: seq<Item>) {
    forall i | 0 <= i < |items| :: items[i].sql in h.cache && h.cache[items[i].sql].generation == h.generation
  }

  /** The handle after one statement of the body ran on a healthy stream. */
  function Ran(h: Handle, done: seq<Sql>, sqls: seq<Sql>, tail: seq<Fault>): Handle {
    h.(schedule := tail, server := h.server.(open := Some(done + sqls), executed := h.server.executed + sqls))
  }

  lemma WarmOwn(h: Handle, sql: Sql, tail: seq<Fault>, done: seq<Sql>)
    requires sql in h.cache && h.cache[sql].generation == h.generation && h.inTransaction
    requires h.server.open == Some(done) && h.schedule == [NoFault] + tail
    ensures Attempt(h, Exec(sql)) == (Ran(h, done, [sql], tail), Success)
  {
    assert h.schedule[1..] == tail;
  }

  lemma WarmOther(h: Handle, sql: Sql, tail: seq<Fault>)
    requires sql in h.cache && h.cache[sql].generation == h.generation && h.schedule == [NoFault] + tail
    ensures Attempt(h, Read(sql)) == (h.(schedule := tail), Success)
  {
    assert h.schedule[1..] == tail;
  }

  lemma RanTwice(h: Handle, done: seq<Sql>, a: seq<Sql>, b: seq<Sql>, mid: seq<Fault>, tail: seq<Fault>)
    ensures Ran(Ran(h, done, a, mid), done + a, b, tail) == Ran(h, done, a + b, tail)
  {
    assert done + a + b == done + (a + b);
    assert h.server.executed + a + b == h.server.executed + (a + b);
  }

  lemma {:induction false} WarmRun(h: Handle, items: seq<Item>, rest: seq<Item>, tail: seq<Fault>, done: seq<Sql>)
    requires Warm(h, items) && h.inTransaction && h.server.open == Some(done) && h.schedule == Quiet(|items|) + tail
    ensures RunItems(h, items + rest) == RunItems(Ran(h, done, Body(items), tail), rest)
    decreases |items|
  {
    if items == [] {
      assert items + rest == rest && Quiet(0) + tail == tail && done + [] == done && h.server.executed + [] == h.server.executed;
    } else {
      var sql, more := items[0].sql, Quiet(|items| - 1) + tail;
      assert h.schedule == [NoFault] + more;
      assert (items + rest)[1..] == items[1..] + rest;
      if items[0].Own? {
        WarmOwn(h, sql, more, done);
        WarmRun(Ran(h, done, [sql], more), items[1..], rest, tail, done + [sql]);
        RanTwice(h, done, [sql], Body(items[1..]), more, tail);
      } else {
        WarmOther(h, sql, more);
        WarmRun(h.(schedule := more), items[1..], rest, tail, done);
      }
    }
  }

  /** On a healthy stream with no transaction open, each statement is durable on its own. */
  lemma {:induction false} LostRun(h: Handle, items: seq<Item>)
    requires h.schedule == [] && h.server.open.None?
    ensures var (h', ok) := RunItems(h, items);
      && ok && h'.schedule == [] && h'.server.open.None?
      && |h'.server.committed| == |h.server.committed| + |Body(items)|
      && |h'.server.executed| == |h.server.executed| + |Body(items)|
    decreases |items|
  {
    if items != [] {
      var h1 := if items[0].Own? then Attempt(h, Exec(items[0].sql)).0 else Attempt(h, Read(items[0].sql)).0;
      LostRun(h1, items[1..]);
    }
  }

  /** The read meets a dead stream: the handle forgets the transaction and the body is not told. */
  lemma ReadLoses(h: Handle, sql: Sql, tail: seq<Fault>)
    requires Warm(h, [Other(sql)]) && h.inTransaction && h.schedule == [DropStream(false)] + tail
    requires tail == [] || tail[0] == NoFault
    ensures Attempt(h, Read(sql)).0 == Handle(
      h.connection + 1, h.generation + 1, false, map[], h.server.(open := None), if tail == [] then [] else tail[1..])
  {
    assert [Other(sql)][0].sql in h.cache;
    assert h.schedule[1..] == tail;
  }

  function Prepared(items: seq<Item>): map<Sql, Cached> {
    map i | 0 <= i < |items| :: items[i].sql := Cached(0, 0)
  }

  /** A handle on an empty server with everything prepared and a given schedule. */
  function WarmHandle(items: seq<Item>, schedule: seq<Fault>): Handle {
    Handle(0, 0, false, Prepared(items), Server([], None, []), schedule)
  }

  lemma WarmBegin(items: seq<Item>, tail: seq<Fault>)
    ensures var h := WarmHandle(items, [NoFault] + tail);
      && Coherent(h) && Warm(h, items)
      && Attempt(h, Begin) == (Midway(items, [], tail), Success)
  {
    assert ([NoFault] + tail)[1..] == tail;
  }

  /** A schedule that is quiet up to the read at `i`, which loses the stream. */
  function LosingAt(i: nat, tail: seq<Fault>): seq<Fault> {
    [NoFault] + (Quiet(i) + ([DropStream(false)] + tail))
  }

  /** The handle after that loss. */
  function LostAt(items: seq<Item>, i: nat, tail: seq<Fault>): Handle
    requires i < |items|
  {
    Handle(1, 1, false, map[], Server([], None, Body(items[..i])), if tail == [] then [] else tail[1..])
  }

  /** The handle once `body` of a transaction has run. */
  function Midway(items: seq<Item>, body: seq<Sql>, schedule: seq<Fault>): Handle {
    Handle(0, 0, true, Prepared(items), Server([], Some(body), body), schedule)
  }

  lemma MidwayIsWarm(items: seq<Item>, body: seq<Sql>, schedule: seq<Fault>, i: nat)
    requires i <= |items|
    ensures Warm(Midway(items, body, schedule), items[..i])
  {
    forall k | 0 <= k < i ensures items[..i][k].sql in Prepared(items) && Prepared(items)[items[..i][k].sql].generation == 0 {
      assert items[..i][k] == items[k];
    }
  }

  lemma RanIsMidway(items: seq<Item>, body: seq<Sql>, schedule: seq<Fault>, rest: seq<Fault>)
    ensures Ran(Midway(items, [], schedule), [], body, rest) == Midway(items, body, rest)
  {
    assert [] + body == body;
  }

  lemma WarmPrefix(items: seq<Item>, i: nat, rest: seq<Fault>, all: seq<Item>)
    requires i <= |items| && all == items[..i] + items[i..]
    ensures RunItems(Midway(items, [], Quiet(i) + rest), all)
         == RunItems(Midway(items, Body(items[..i]), rest), items[i..])
  {
    MidwayIsWarm(items, [], Quiet(i) + rest, i);
    WarmRun(Midway(items, [], Quiet(i) + rest), items[..i], items[i..], rest, []);
    RanIsMidway(items, Body(items[..i]), Quiet(i) + rest, rest);
  }

  lemma UpToTheRead(items: seq<Item>, i: nat, rest: seq<Fault>)
    requires i < |items|
    ensures RunItems(Midway(items, [], Quiet(i) + rest), items) == RunItems(Midway(items, Body(items[..i]), rest), items[i..])
  {
    assert items == items[..i] + items[i..];
    WarmPrefix(items, i, rest, items);
  }

  lemma TheLoss(items: seq<Item>, i: nat, tail: seq<Fault>)
    requires i < |items| && items[i].Other? && (tail == [] || tail[0] == NoFault)
    ensures RunItems(Midway(items, Body(items[..i]), [DropStream(false)] + tail), items[i..]) == RunItems(LostAt(items, i, tail), items[i + 1..])
  {
    ReadLoses(Midway(items, Body(items[..i]), [DropStream(false)] + tail), items[i].sql, tail);
    assert items[i..][0] == items[i] && items[i..][1..] == items[i + 1..];
  }

  /** From the empty transaction on, the run is that of the handle after the loss. */
  lemma UpToTheLoss(items: seq<Item>, i: nat, tail: seq<Fault>)
    requires i < |items| && items[i].Other? && (tail == [] || tail[0] == NoFault)
    ensures RunItems(Midway(items, [], Quiet(i) + ([DropStream(false)] + tail)), items) == RunItems(LostAt(items, i, tail), items[i + 1..])
  {
    UpToTheRead(items, i, [DropStream(false)] + tail);
    TheLoss(items, i, tail);
  }

  /** Outside a transaction a statement whose acknowledgement is lost is sent again, and runs twice. */
  lemma RunsTwiceWhenLost(h: Handle, sql: Sql)
    requires h.cache == map[] && !h.inTransaction && h.server.open.None? && h.schedule == [NoFault, DropStream(true)]
    ensures var (h', r) := Attempt(h, Exec(sql));
      && r.Success? && h'.schedule == [] && h'.server.open.None?
      && h'.server.executed == h.server.executed + [sql, sql]
      && h'.server.committed == h.server.committed + [[sql], [sql]]
  {
    assert h.schedule[1..] == [DropStream(true)] && h.schedule[1..][1..] == [];
    assert h.server.executed + [sql] + [sql] == h.server.executed + [sql, sql];
    assert h.server.committed + [[sql]] + [[sql]] == h.server.committed + [[sql], [sql]];
  }

  lemma {:induction false} BodyConcat(a: seq<Item>, b: seq<Item>)
    ensures Body(a + b) == Body(a) + Body(b)
  {
    if a == [] {
      assert a + b == b;
    } else {
      BodyConcat(a[1..], b);
      assert (a + b)[1..] == a[1..] + b;
    }
  }

  /** After the loss: a quiet reconnect and preparation, then a lost acknowledgement. */
  const TWICE: seq<Fault> := [NoFault, NoFault, DropStream(true)]

  lemma RunsOneTooMany(items: seq<Item>, i: nat)
    requires i + 1 < |items| && items[i].Other? && items[i + 1].Own?
    ensures var (ran, ok) := RunItems(LostAt(items, i, TWICE), items[i + 1..]);
      && ok && ran.schedule == [] && ran.server.open.None?
      && |ran.server.committed| >= 2 && |ran.server.executed| == |Body(items)| + 1
  {
    var lost, rest := LostAt(items, i, TWICE), items[i + 1..];
    assert TWICE[1..] == [NoFault, DropStream(true)];
    RunsTwiceWhenLost(lost, rest[0].sql);
    LostRun(Attempt(lost, Exec(rest[0].sql)).0, rest[1..]);
    BodyConcat(items[..i], items[i..]);
    assert items == items[..i] + items[i..] && items[i..][1..] == rest;
  }

  /** On a healthy stream with no transaction open, COMMIT is refused and neither end changes the server. */
  lemma QuietEnd(h: Handle)
    requires h.schedule == [] && h.server.open.None?
    ensures var (done, c) := Attempt(h, Commit); !c.Success? && done.schedule == [] && done.server == h.server
    ensures Attempt(h, Rollback).0.server == h.server
  {
  }

  /** What the lost transaction leaves, whether its body throws or goes on to COMMIT. */
  lemma AfterTheLoss(items: seq<Item>, i: nat, throws: bool)
    requires i + 1 < |items| && items[i].Other? && items[i + 1].Own?
    ensures var (h', outcome) := RunAmong(WarmHandle(items, LosingAt(i, TWICE)), items, throws);
      !outcome.Returned? && |h'.server.committed| >= 2 && |h'.server.executed| == |Body(items)| + 1
  {
    WarmBegin(items, Quiet(i) + ([DropStream(false)] + TWICE));
    UpToTheLoss(items, i, TWICE);
    RunsOneTooMany(items, i);
    var ran := RunItems(LostAt(items, i, TWICE), items[i + 1..]).0;
    QuietEnd(ran);
    QuietEnd(Attempt(ran, Commit).0);
  }

  /**
   * A read that loses the transaction before a later statement of the body: that statement and all
   * after it become durable one by one, although the transaction fails.
   */
  lemma LossBreaksAtomicity(items: seq<Item>, i: nat, throws: bool)
    requires i + 1 < |items| && items[i].Other? && items[i + 1].Own?
    ensures !AtomicFrom(WarmHandle(items, LosingAt(i, TWICE)), items, throws)
  {
    WarmBegin(items, Quiet(i) + ([DropStream(false)] + TWICE));
    AfterTheLoss(items, i, throws);
  }

  /** And such a statement can run twice. */
  lemma LossRunsTwice(items: seq<Item>, i: nat, throws: bool)
    requires i + 1 < |items| && items[i].Other? && items[i + 1].Own?
    ensures !OnceFrom(WarmHandle(items, LosingAt(i, TWICE)), items, throws)
  {
    WarmBegin(items, Quiet(i) + ([DropStream(false)] + TWICE));
    AfterTheLoss(items, i, throws);
  }

  /* ---- exactly ---- */

  /**
   * With other callers' reads among its statements, a transaction is atomic under every schedule of
   * faults, from every coherent handle, if and only if all of those reads come after its last
   * statement; and the same condition decides whether no statement of it can run twice. That is so
   * for bodies that throw and for bodies that do not.
   */
  lemma AtomicExactly(items: seq<Item>, throws: bool)
    ensures (forall h :: AtomicFrom(h, items, throws)) <==> OthersLast(items)
    ensures (forall h :: OnceFrom(h, items, throws)) <==> OthersLast(items)
  {
    if OthersLast(items) {
      forall h ensures AtomicFrom(h, items, throws) && OnceFrom(h, items, throws) {
        AtomicWhenOthersLast(h, items, throws);
      }
    } else {
      var i :| 0 <= i < |items| - 1 && items[i].Other? && !items[i + 1].Other?;
      LossBreaksAtomicity(items, i, throws);
      LossRunsTwice(items, i, throws);
    }
  }

  /* ---- reads between transactions ---- */

  /** A bare read on any coherent handle changes nothing durable and leaves the handle coherent. */
  lemma BareRead(h: Handle, sql: Sql)
    requires Coherent(h)
    ensures var h' := Attempt(h, Read(sql)).0; Coherent(h') && h'.server.committed == h.server.committed
  {
    OperateRead(h, sql);
    var (h1, r1) := Operate(h, Read(sql));
    if r1.DeadStream? {
      ReconnectIdle(h1);
      OperateRead(Reconnect(h1).0, sql);
    }
  }

  function Reads(h: Handle, sqls: seq<Sql>): Handle
    decreases |sqls|
  {
    if sqls == [] then h else Reads(Attempt(h, Read(sqls[0])).0, sqls[1..])
  }

  lemma {:induction false} BareReads(h: Handle, sqls: seq<Sql>)
    requires Coherent(h)
    ensures Coherent(Reads(h, sqls)) && Reads(h, sqls).server.committed == h.server.committed
    decreases |sqls|
  {
    if sqls != [] {
      BareRead(h, sqls[0]);
      BareReads(Attempt(h, Read(sqls[0])).0, sqls[1..]);
    }
  }

  /** A body followed by other callers' reads. */
  function Followed(body: seq<Sql>, others: seq<Sql>): (items: seq<Item>)
    ensures |items| == |body| + |others|
    ensures forall i | 0 <= i < |items| :: items[i] == if i < |body| then Own(body[i]) else Other(others[i - |body|])
  {
    seq(|body| + |others|, i requires 0 <= i < |body| + |others| => if i < |body| then Own(body[i]) else Other(others[i - |body|]))
  }

  lemma {:induction false} FollowedBody(body: seq<Sql>, others: seq<Sql>)
    ensures OthersLast(Followed(body, others)) && Body(Followed(body, others)) == body
    decreases |body| + |others|
  {
    var items := Followed(body, others);
    if body != [] {
      FollowedBody(body[1..], others);
      assert items[1..] == Followed(body[1..], others);
    } else if others != [] {
      FollowedBody(body, others[1..]);
      assert items[1..] == Followed(body, others[1..]);
    }
  }

  /* ---- a transaction alone is the special case ---- */

  lemma {:induction false} AloneRunsTheBody(h: Handle, body: seq<Sql>)
    ensures RunItems(h, Followed(body, [])) == RunBody(h, body)
    decreases |body|
  {
    if body != [] {
      assert Followed(body, [])[1..] == Followed(body[1..], []);
      AloneRunsTheBody(Attempt(h, Exec(body[0])).0, body[1..]);
    }
  }

  lemma AloneIsRunTransaction(h: Handle, body: seq<Sql>, throws: bool)
    ensures RunAmong(h, Followed(body, []), throws) == RunTransaction(h, body, throws)
  {
    AloneRunsTheBody(Attempt(h, Begin).0, body);
  }

  /* ---- progress ---- */

  lemma CalmRead(h: Handle, sql: Sql)
    requires Calm(h) && Coherent(h)
    ensures var h' := Attempt(h, Read(sql)).0;
      Calm(h') && Coherent(h') && h'.inTransaction == h.inTransaction && h'.server == h.server
  {
    if sql in h.cache && h.cache[sql].generation == h.generation {
      CalmSend(h, Read(sql));
    } else {
      CalmSend(h, Prepare(sql));
      var prepared := Send(h, Prepare(sql)).0;
      CalmSend(prepared.(cache := prepared.cache[sql := Cached(h.generation, h.connection)]), Read(sql));
    }
  }

  lemma {:induction false} CalmReads(h: Handle, sqls: seq<Sql>)
    requires Calm(h) && AtRest(h)
    ensures Calm(Reads(h, sqls)) && AtRest(Reads(h, sqls)) && Reads(h, sqls).server == h.server
    decreases |sqls|
  {
    if sqls != [] {
      CalmRead(h, sqls[0]);
      CalmReads(Attempt(h, Read(sqls[0])).0, sqls[1..]);
    }
  }

  lemma {:induction false} CalmItems(h: Handle, items: seq<Item>, done: seq<Sql>)
    requires Underway(h, done)
    ensures var (h', ok) := RunItems(h, items);
      ok && Underway(h', done + Body(items)) && h'.server == Grown(h.server, done, Body(items))
    decreases |items|
  {
    if items == [] {
      assert done + [] == done && h.server.executed + [] == h.server.executed;
    } else if items[0].Other? {
      CalmRead(h, items[0].sql);
      CalmItems(Attempt(h, Read(items[0].sql)).0, items[1..], done);
    } else {
      var sql, rest := items[0].sql, Body(items[1..]);
      CalmExec(h, sql, done);
      CalmItems(Attempt(h, Exec(sql)).0, items[1..], done + [sql]);
      GrownTwice(h.server, done, [sql], rest);
      assert done + [sql] + rest == done + ([sql] + rest);
    }
  }

  /** When nothing goes wrong a transaction commits its body, wherever other callers' reads fall. */
  lemma CalmAmong(h: Handle, items: seq<Item>, throws: bool)
    requires Calm(h) && AtRest(h)
    ensures var (h', outcome) := RunAmong(h, items, throws);
      && Calm(h') && AtRest(h')
      && outcome == (if throws then FailedBeforeCommit else Returned)
      && h'.server.committed == (if throws then h.server.committed else h.server.committed + [Body(items)])
  {
    CalmBegin(h);
    var begun := Attempt(h, Begin).0;
    CalmItems(begun, items, []);
    assert [] + Body(items) == Body(items);
    var ran := RunItems(begun, items).0;
    if throws {
      CalmRollback(ran);
    } else {
      CalmCommit(ran);
    }
  }
}
