/**
 * Concurrent confirms of the order service (`src/orders/service.ts`): calls for one transaction
 * share one piece of in-flight work. A step is what runs between two awaits.
 */
module ConfirmOnce {
  import opened Basics
  import opened Orders

  datatype Progress = InFlight | Resolved(order: Order) | Rejected

  datatype Work = Work(key: Key, progress: Progress)

  datatype CallState = Awaiting(work: nat, owner: bool) | Returned(order: Order) | Threw

  datatype Caller = Caller(key: Key, state: CallState)

  /** `confirmations` is the map of in-flight work; `guardHits` counts ORDER-ALREADY-CONFIRMED. */
  datatype Service = Service(
    store: OrderTables, confirmations: map<Key, nat>, work: seq<Work>, calls: seq<Caller>, guardHits: nat)

  const FRESH: Service := Service(OrderTables(map[], map[]), map[], [], [], 0)

  datatype Step =
    | Arrive(key: Key)
    | FinishWork(work: nat, built: Option<Order>)
    | Resume(call: nat)

  predicate Enabled(s: Service, step: Step) {
    match step
    case Arrive(_) => true
    case FinishWork(w, _) => w < |s.work| && s.work[w].progress.InFlight?
    case Resume(c) => c < |s.calls| && s.calls[c].state.Awaiting? && s.calls[c].state.work < |s.work| && !s.work[s.calls[c].state.work].progress.InFlight?
  }

  /** The synchronous head of `confirm`: stored order, else shared work, else new work. */
  function ArriveAt(s: Service, key: Key): Service {
    var stored := Find(s.store, key);
    if stored.Some? then s.(calls := s.calls + [Caller(key, Returned(stored.value))])
    else if key in s.confirmations then s.(calls := s.calls + [Caller(key, Awaiting(s.confirmations[key], false))])
    else
      var w := |s.work|;
      s.(work := s.work + [Work(key, InFlight)], confirmations := s.confirmations[key := w],
         calls := s.calls + [Caller(key, Awaiting(w, true))])
  }

  /** The tail of `confirmNew`: save and resolve, or reject. */
  function Finish(s: Service, w: nat, built: Option<Order>): Service
    requires w < |s.work|
  {
    var item := s.work[w];
    if built.None? then s.(work := s.work[w := item.(progress := Rejected)])
    else
      var (store, outcome) := Save(s.store, item.key, built.value);
      s.(store := store,
         work := s.work[w := item.(progress := if outcome.Saved? then Resolved(built.value) else Rejected)],
         guardHits := s.guardHits + if outcome.OrderAlreadyConfirmed? then 1 else 0)
  }

  /** The await returns; the call that started the work takes it off the map if it is still there. */
  function ResumeCall(s: Service, c: nat): Service
    requires Enabled(s, Resume(c))
  {
    var call := s.calls[c];
    var w := call.state.work;
    var settled := s.calls[c := call.(state := if s.work[w].progress.Resolved? then Returned(s.work[w].progress.order) else Threw)];
    if call.state.owner && call.key in s.confirmations && s.confirmations[call.key] == w
    then s.(calls := settled, confirmations := s.confirmations - {call.key})
    else s.(calls := settled)
  }

  function Do(s: Service, step: Step): Service
    requires Enabled(s, step)
  {
    match step
    case Arrive(key) => ArriveAt(s, key)
    case FinishWork(w, built) => Finish(s, w, built)
    case Resume(c) => ResumeCall(s, c)
  }

  predicate Possible(s: Service, steps: seq<Step>)
    decreases |steps|
  {
    steps == [] || (Enabled(s, steps[0]) && Possible(Do(s, steps[0]), steps[1..]))
  }

  function After(s: Service, steps: seq<Step>): Service
    requires Possible(s, steps)
    decreases |steps|
  {
    if steps == [] then s else After(Do(s, steps[0]), steps[1..])
  }

  /* ---- the invariant ---- */

  predicate WorkOk(s: Service) {
    forall w | 0 <= w < |s.work| ::
      var item := s.work[w];
      && (item.progress.InFlight? ==> item.key in s.confirmations && s.confirmations[item.key] == w && Find(s.store, item.key).None?)
      && (item.progress.Resolved? ==> Find(s.store, item.key) == Some(item.progress.order))
  }

  predicate CallsOk(s: Service) {
    forall c | 0 <= c < |s.calls| ::
      match s.calls[c].state
      case Awaiting(w, _) => w < |s.work| && s.work[w].key == s.calls[c].key
      case Returned(order) => Find(s.store, s.calls[c].key) == Some(order)
      case Threw => true
  }

  predicate ConfirmationsOk(s: Service) {
    forall k | k in s.confirmations :: s.confirmations[k] < |s.work| && s.work[s.confirmations[k]].key == k
  }

  predicate Inv(s: Service) {
    Indexed(s.store) && WorkOk(s) && CallsOk(s) && ConfirmationsOk(s) && s.guardHits == 0
  }

  lemma ArriveKeepsInv(s: Service, key: Key)
    requires Inv(s)
    ensures Inv(ArriveAt(s, key))
  {
    var t := ArriveAt(s, key);
    assert forall c | 0 <= c < |s.calls| :: t.calls[c] == s.calls[c];
    assert forall w | 0 <= w < |s.work| :: t.work[w] == s.work[w];
  }

  lemma FinishKeepsInv(s: Service, w: nat, built: Option<Order>)
    requires Inv(s) && Enabled(s, FinishWork(w, built))
    ensures Inv(Finish(s, w, built))
  {
    var t := Finish(s, w, built);
    var key := s.work[w].key;
    if built.Some? {
      SaveKeepsIndexed(s.store, key, built.value);
      assert key !in s.store.byTransaction;
    }
    forall v | 0 <= v < |t.work| && v != w && t.work[v].progress.InFlight? ensures t.work[v].key != key {
      assert s.confirmations[s.work[v].key] == v;
    }
    assert WorkOk(t);
    assert CallsOk(t);
  }

  lemma ResumeKeepsInv(s: Service, c: nat)
    requires Inv(s) && Enabled(s, Resume(c))
    ensures Inv(ResumeCall(s, c))
  {
  }

  lemma StepKeepsInv(s: Service, step: Step)
    requires Inv(s) && Enabled(s, step)
    ensures Inv(Do(s, step))
  {
    match step
    case Arrive(key) => ArriveKeepsInv(s, key);
    case FinishWork(w, built) => FinishKeepsInv(s, w, built);
    case Resume(c) => ResumeKeepsInv(s, c);
  }

  lemma StepKeepsOrders(s: Service, step: Step, key: Key)
    requires Inv(s) && Enabled(s, step) && Find(s.store, key).Some?
    ensures Find(Do(s, step).store, key) == Find(s.store, key)
  {
    if step.FinishWork? && step.built.Some? {
      SaveKeepsIndexed(s.store, s.work[step.work].key, step.built.value);
    }
  }

  lemma {:induction false} RunKeepsInv(s: Service, steps: seq<Step>)
    requires Inv(s) && Possible(s, steps)
    ensures Inv(After(s, steps))
    decreases |steps|
  {
    if steps != [] {
      StepKeepsInv(s, steps[0]);
      RunKeepsInv(Do(s, steps[0]), steps[1..]);
    }
  }

  /**
   * Under any interleaving of confirm calls on one service: at most one confirmation per
   * transaction is in flight, at most one order per transaction is stored, every call that
   * returns returns that order, and the store's already-confirmed guard is never reached.
   */
  lemma ConfirmedOnce(steps: seq<Step>)
    requires Possible(FRESH, steps)
    ensures var s := After(FRESH, steps);
      && (forall v, w | 0 <= v < w < |s.work| && s.work[v].progress.InFlight? && s.work[w].progress.InFlight? :: s.work[v].key != s.work[w].key)
      && (forall id, id' | id in s.store.orders && id' in s.store.orders && id != id' :: s.store.orders[id].key != s.store.orders[id'].key)
      && (forall c | 0 <= c < |s.calls| && s.calls[c].state.Returned? :: Find(s.store, s.calls[c].key) == Some(s.calls[c].state.order))
      && s.guardHits == 0
  {
    RunKeepsInv(FRESH, steps);
  }

  /** Once stored, a transaction's order is the answer for good. */
  lemma {:induction false} StoredOrderStands(s: Service, steps: seq<Step>, key: Key)
    requires Inv(s) && Possible(s, steps) && Find(s.store, key).Some?
    ensures Find(After(s, steps).store, key) == Find(s.store, key)
    decreases |steps|
  {
    if steps != [] {
      StepKeepsInv(s, steps[0]);
      StepKeepsOrders(s, steps[0], key);
      StoredOrderStands(Do(s, steps[0]), steps[1..], key);
    }
  }

  /* ---- progress ---- */

  /** A call for a stored order returns it at once; one for work in flight joins it; any other starts work of its own. */
  lemma ArriveExactly(s: Service, key: Key)
    ensures var t, c := Do(s, Arrive(key)), |s.calls|;
      && |t.calls| == c + 1 && t.calls[c].key == key && t.store == s.store
      && (Find(s.store, key).Some? ==> t.calls[c].state == Returned(Find(s.store, key).value) && t.work == s.work)
      && (Find(s.store, key).None? && key in s.confirmations ==> t.calls[c].state == Awaiting(s.confirmations[key], false) && t.work == s.work)
      && (Find(s.store, key).None? && key !in s.confirmations ==>
            t.calls[c].state == Awaiting(|s.work|, true) && t.work == s.work + [Work(key, InFlight)] && t.confirmations == s.confirmations[key := |s.work|])
  {
  }

  /** Work that built an order with a new id saves it and resolves with it; work that did not is rejected. */
  lemma FinishExactly(s: Service, w: nat, built: Option<Order>)
    requires Inv(s) && Enabled(s, FinishWork(w, built))
    ensures var t := Do(s, FinishWork(w, built)); var key := s.work[w].key;
      && t.calls == s.calls && t.confirmations == s.confirmations && |t.work| == |s.work|
      && (built.Some? && built.value.id !in s.store.orders ==>
            t.work[w].progress == Resolved(built.value) && Find(t.store, key) == built)
      && (built.None? || built.value.id in s.store.orders ==> t.work[w].progress == Rejected && t.store == s.store)
  {
    if built.Some? {
      SaveKeepsIndexed(s.store, s.work[w].key, built.value);
    }
  }

  /** Everybody who waited gets what the work came to, and a failure leaves the way open for another try. */
  lemma ResumeExactly(s: Service, c: nat)
    requires Inv(s) && Enabled(s, Resume(c))
    ensures var t := Do(s, Resume(c)); var w := s.calls[c].state.work;
      && t.store == s.store && t.work == s.work
      && (s.work[w].progress.Resolved? ==> t.calls[c].state == Returned(s.work[w].progress.order))
      && (s.work[w].progress.Rejected? ==> t.calls[c].state == Threw)
      && (s.calls[c].state.owner && s.calls[c].key in s.confirmations && s.confirmations[s.calls[c].key] == w ==> s.calls[c].key !in t.confirmations)
      && (!s.calls[c].state.owner ==> t.confirmations == s.confirmations)
  {
  }

  /** A call that waits can always go on: its work can finish, or it can resume. */
  lemma WaitersProceed(s: Service, c: nat)
    requires Inv(s) && c < |s.calls| && s.calls[c].state.Awaiting?
    ensures Enabled(s, Resume(c)) || forall built :: Enabled(s, FinishWork(s.calls[c].state.work, built))
  {
  }

  /**
   * Two concurrent confirms of a transaction: one builds the order, both return it, and it is stored. It
   * takes the steps any scheduler takes: arrive, arrive, finish, resume, resume.
   */
  lemma BothConfirmsReturn(s: Service, key: Key, order: Order)
    requires Inv(s) && Find(s.store, key).None? && key !in s.confirmations && order.id !in s.store.orders
    ensures var c, w := |s.calls|, |s.work|;
      var a := Do(Do(s, Arrive(key)), Arrive(key));
      && Enabled(a, FinishWork(w, Some(order)))
      && var b := Do(a, FinishWork(w, Some(order)));
         && Enabled(b, Resume(c)) && Enabled(Do(b, Resume(c)), Resume(c + 1))
         && var t := Do(Do(b, Resume(c)), Resume(c + 1));
            && t.calls[c].state == Returned(order) && t.calls[c + 1].state == Returned(order)
            && Find(t.store, key) == Some(order) && key !in t.confirmations
  {
    var c, w := |s.calls|, |s.work|;
    StepKeepsInv(s, Arrive(key));
    var a := Do(Do(s, Arrive(key)), Arrive(key));
    StepKeepsInv(Do(s, Arrive(key)), Arrive(key));
    FinishExactly(a, w, Some(order));
  }
}
