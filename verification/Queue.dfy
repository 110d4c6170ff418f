/**
 * `withTransaction`: the promise chain that serialises transactions on one handle
 * (`src/reserved/db.ts`). Each call waits on the tail it found and becomes the tail itself.
 */
module Queue {
  import opened Basics

  /** A running body may itself wait for a transaction it enqueued on its own handle. */
  datatype Status = Waiting | Running(awaits: Option<nat>) | Settled(ok: bool)

  datatype Task = Task(previous: Option<nat>, status: Status)

  /** `started` records the bodies in the order they were entered. */
  datatype State = State(tasks: seq<Task>, tail: Option<nat>, started: seq<nat>)

  const IDLE: State := State([], None, [])

  datatype Step = Call | Start(task: nat) | Finish(task: nat, ok: bool) | CallFromBody(task: nat)

  predicate Done(s: State, i: nat) {
    i < |s.tasks| && s.tasks[i].status.Settled?
  }

  /** A task starts when its predecessor has settled, whether it succeeded or failed. */
  predicate Enabled(s: State, step: Step) {
    match step
    case Call => true
    case Start(i) => i < |s.tasks| && s.tasks[i].status.Waiting? && (s.tasks[i].previous.Some? ==> Done(s, s.tasks[i].previous.value))
    case Finish(i, _) => i < |s.tasks| && s.tasks[i].status.Running? && (s.tasks[i].status.awaits.Some? ==> Done(s, s.tasks[i].status.awaits.value))
    case CallFromBody(i) => i < |s.tasks| && s.tasks[i].status.Running? && s.tasks[i].status.awaits.None?
  }

  function Do(s: State, step: Step): State
    requires Enabled(s, step)
  {
    match step
    case Call => s.(tasks := s.tasks + [Task(s.tail, Waiting)], tail := Some(|s.tasks|))
    case Start(i) => s.(tasks := s.tasks[i := s.tasks[i].(status := Running(None))], started := s.started + [i])
    case Finish(i, ok) => s.(tasks := s.tasks[i := s.tasks[i].(status := Settled(ok))])
    case CallFromBody(i) =>
      var n := |s.tasks|;
      s.(tasks := s.tasks[i := s.tasks[i].(status := Running(Some(n)))] + [Task(s.tail, Waiting)], tail := Some(n))
  }

  /** Every step of a schedule is taken when it is enabled. */
  predicate Possible(s: State, steps: seq<Step>)
    decreases |steps|
  {
    steps == [] || (Enabled(s, steps[0]) && Possible(Do(s, steps[0]), steps[1..]))
  }

  function After(s: State, steps: seq<Step>): State
    requires Possible(s, steps)
    decreases |steps|
  {
    if steps == [] then s else After(Do(s, steps[0]), steps[1..])
  }

  /* ---- one at a time, in call order ---- */

  predicate Chained(s: State) {
    && (s.tail == if s.tasks == [] then None else Some(|s.tasks| - 1))
    && (forall i | 0 <= i < |s.tasks| :: s.tasks[i].previous == if i == 0 then None else Some(i - 1))
  }

  /** Whatever has started has only settled tasks before it. */
  predicate InCallOrder(s: State) {
    && (forall i, j | 0 <= i < j < |s.tasks| :: !s.tasks[j].status.Waiting? ==> s.tasks[i].status.Settled?)
    && |s.started| <= |s.tasks| && (forall i | 0 <= i < |s.started| :: s.started[i] == i)
    && (forall i | 0 <= i < |s.tasks| :: s.tasks[i].status.Waiting? <==> |s.started| <= i)
  }

  predicate Serial(s: State) {
    Chained(s) && InCallOrder(s)
  }

  lemma StepKeepsSerial(s: State, step: Step)
    requires Serial(s) && Enabled(s, step)
    ensures Serial(Do(s, step))
  {
    match step
    case Call =>
    case Start(i) =>
      assert i == |s.started|;
      var t := Do(s, step);
      forall a, b | 0 <= a < b < |t.tasks| ensures !t.tasks[b].status.Waiting? ==> t.tasks[a].status.Settled? {
        if b == i {
          assert s.tasks[i].previous == Some(i - 1);
        }
      }
    case Finish(i, ok) =>
    case CallFromBody(i) =>
  }

  /**
   * For any interleaving of callers: bodies run one at a time and are entered exactly in the
   * order the calls were made.
   */
  lemma {:induction false} BodiesRunOneAtATime(s: State, steps: seq<Step>)
    requires Serial(s) && Possible(s, steps)
    ensures Serial(After(s, steps))
    ensures var t := After(s, steps);
      && (forall i | 0 <= i < |t.started| :: t.started[i] == i)
      && (forall i, j | 0 <= i < j < |t.tasks| :: !(t.tasks[i].status.Running? && t.tasks[j].status.Running?))
    decreases |steps|
  {
    if steps != [] {
      StepKeepsSerial(s, steps[0]);
      BodiesRunOneAtATime(Do(s, steps[0]), steps[1..]);
    }
  }

  /** So it is from the first call on a fresh handle. */
  lemma SerialFromTheStart(steps: seq<Step>)
    requires Possible(IDLE, steps)
    ensures Serial(After(IDLE, steps))
  {
    BodiesRunOneAtATime(IDLE, steps);
  }

  /* ---- every queued body runs ---- */

  predicate NoNesting(steps: seq<Step>) {
    forall i | 0 <= i < |steps| :: !steps[i].CallFromBody?
  }

  predicate NobodyAwaits(s: State) {
    forall i | 0 <= i < |s.tasks| && s.tasks[i].status.Running? :: s.tasks[i].status.awaits.None?
  }

  function Weight(t: Task): nat {
    match t.status
    case Waiting => 2
    case Running(_) => 1
    case Settled(_) => 0
  }

  /** The starts and finishes still needed to settle the first `n` tasks. */
  function Remaining(tasks: seq<Task>, n: nat): nat
    requires n <= |tasks|
  {
    if n == 0 then 0 else Weight(tasks[n - 1]) + Remaining(tasks, n - 1)
  }

  function WorkSteps(steps: seq<Step>): nat {
    if steps == [] then 0 else (if steps[0].Start? || steps[0].Finish? then 1 else 0) + WorkSteps(steps[1..])
  }

  lemma {:induction false} RemainingUnchanged(a: seq<Task>, b: seq<Task>, n: nat)
    requires n <= |a| && n <= |b| && forall i | 0 <= i < n :: a[i] == b[i]
    ensures Remaining(a, n) == Remaining(b, n)
  {
    if n > 0 {
      RemainingUnchanged(a, b, n - 1);
    }
  }

  lemma {:induction false} RemainingAfterWork(a: seq<Task>, n: nat, i: nat, t: Task)
    requires i < n <= |a| && Weight(t) + 1 == Weight(a[i])
    ensures Remaining(a[i := t], n) + 1 == Remaining(a, n)
  {
    if i == n - 1 {
      RemainingUnchanged(a, a[i := t], n - 1);
    } else {
      RemainingAfterWork(a, n - 1, i, t);
    }
  }

  lemma {:induction false} NothingRemaining(a: seq<Task>, n: nat, i: nat)
    requires i < n <= |a| && Remaining(a, n) == 0
    ensures a[i].status.Settled?
  {
    if i < n - 1 {
      NothingRemaining(a, n - 1, i);
    }
  }

  /** One step of any kind: a start or finish brings every unsettled task closer, a call delays none. */
  lemma StepProgress(s: State, step: Step, n: nat)
    requires Serial(s) && NobodyAwaits(s) && Enabled(s, step) && !step.CallFromBody? && n <= |s.tasks|
    ensures var t := Do(s, step);
      && NobodyAwaits(t) && n <= |t.tasks|
      && (Remaining(s.tasks, n) > 0 && !step.Call? ==> Remaining(t.tasks, n) + 1 == Remaining(s.tasks, n))
      && (step.Call? || Remaining(s.tasks, n) == 0 ==> Remaining(t.tasks, n) == Remaining(s.tasks, n))
  {
    match step
    case Call => RemainingUnchanged(s.tasks, Do(s, step).tasks, n);
    case Start(i) => WorkProgress(s, n, i, s.tasks[i].(status := Running(None)));
    case Finish(i, ok) => WorkProgress(s, n, i, s.tasks[i].(status := Settled(ok)));
    case CallFromBody(_) =>
  }

  lemma WorkProgress(s: State, n: nat, i: nat, t: Task)
    requires Serial(s) && i < |s.tasks| && n <= |s.tasks| && Weight(t) + 1 == Weight(s.tasks[i])
    requires s.tasks[i].status.Waiting? ==> i == 0 || s.tasks[i - 1].status.Settled?
    ensures Remaining(s.tasks, n) > 0 ==> Remaining(s.tasks[i := t], n) + 1 == Remaining(s.tasks, n)
    ensures Remaining(s.tasks, n) == 0 ==> Remaining(s.tasks[i := t], n) == 0
  {
    if i < n {
      RemainingAfterWork(s.tasks, n, i, t);
    } else {
      forall k | 0 <= k < n ensures s.tasks[k].status.Settled? {
        assert k < i;
        if s.tasks[i].status.Waiting? && k < i - 1 {
          assert !s.tasks[i - 1].status.Waiting?;
        }
      }
      AllSettled(s.tasks, n);
      RemainingUnchanged(s.tasks, s.tasks[i := t], n);
    }
  }

  lemma {:induction false} AllSettled(a: seq<Task>, n: nat)
    requires n <= |a| && forall i | 0 <= i < n :: a[i].status.Settled?
    ensures Remaining(a, n) == 0
  {
    if n > 0 {
      AllSettled(a, n - 1);
    }
  }

  /**
   * Bounded waiting: once a schedule contains as many starts and finishes as the tasks up to
   * `i` still need, task `i` has settled, however many calls arrive meanwhile and whichever of
   * the earlier transactions failed.
   */
  lemma {:induction false} QueuedBodyRuns(s: State, steps: seq<Step>, i: nat)
    requires Serial(s) && NobodyAwaits(s) && Possible(s, steps) && NoNesting(steps)
    requires i < |s.tasks| && Remaining(s.tasks, i + 1) <= WorkSteps(steps)
    ensures Done(After(s, steps), i)
    decreases |steps|
  {
    if steps == [] {
      NothingRemaining(s.tasks, i + 1, i);
    } else {
      StepKeepsSerial(s, steps[0]);
      StepProgress(s, steps[0], i + 1);
      QueuedBodyRuns(Do(s, steps[0]), steps[1..], i);
    }
  }

  /** And work is always possible while anything is unsettled: a failure never blocks its successors. */
  lemma NeverStuck(s: State)
    requires Serial(s) && NobodyAwaits(s)
    requires exists i | 0 <= i < |s.tasks| :: !s.tasks[i].status.Settled?
    ensures Enabled(s, Start(|s.started|)) || (|s.started| > 0 && Enabled(s, Finish(|s.started| - 1, true)) && Enabled(s, Finish(|s.started| - 1, false)))
  {
    var n := |s.started|;
    var i :| 0 <= i < |s.tasks| && !s.tasks[i].status.Settled?;
    if n > 0 && s.tasks[n - 1].status.Running? {
    } else {
      assert n < |s.tasks|;
      assert n > 0 ==> s.tasks[n - 1].status.Settled?;
    }
  }

  /* ---- why no body may enqueue on its own handle ---- */

  /** The body of `i` waits for task `j`, which cannot start before `i` settles. */
  predicate Deadlocked(s: State, i: nat, j: nat) {
    i < j < |s.tasks| && s.tasks[i].status == Running(Some(j)) && s.tasks[j].status.Waiting?
  }

  lemma SelfCallDeadlocks(s: State, i: nat)
    requires Serial(s) && Enabled(s, CallFromBody(i))
    ensures Deadlocked(Do(s, CallFromBody(i)), i, |s.tasks|)
  {
  }

  /** From then on neither ever settles, whatever else happens. */
  lemma {:induction false} DeadlockIsForever(s: State, steps: seq<Step>, i: nat, j: nat)
    requires Serial(s) && Deadlocked(s, i, j) && Possible(s, steps)
    ensures Deadlocked(After(s, steps), i, j)
    decreases |steps|
  {
    if steps != [] {
      StepKeepsSerial(s, steps[0]);
      var t := Do(s, steps[0]);
      assert Serial(t);
      DeadlockIsForever(t, steps[1..], i, j);
    }
  }
}
