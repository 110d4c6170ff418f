/** The actions riders drive the reserved store with (`src/reserved/order.ts`), one instant each. */
module Actions {
  import opened Basics
  import opened SeatMap
  import opened Locks
  import opened Store

  /** The coach of every dated departure on sale; layout and seeded occupancy are fixed per departure. */
  type Fleet = map<Departure, Coach>

  datatype Action =
    | Look(deps: set<Departure>)
    | Select(acq: AcquireRequest)
    | ConfirmOrder(order: ConfirmRequest)
    | AskRefund(cancel: CancelRequest)
    | CommitRefund(cancel: CancelRequest)
    | AskHold(buyer: Buyer)
    | Retain(retention: int)

  datatype HoldReading = HoldReading(holdId: string, expiresAt: int, status: HoldStatus)

  datatype Answer =
    | ServiceNotFound
    | SeatNotOnMap
    | SimulatedSold(seats: set<SeatId>)
    | NoHoldTaken
    | Seen(claims: map<Departure, Claims>)
    | Selected(acquired: AcquireOutcome)
    | ConfirmAnswer(confirmed: ConfirmOutcome)
    | CancelAnswer(cancelled: CancelOutcome)
    | HoldAnswer(reading: Option<HoldReading>)
    | Forgotten

  /** The `select` action: sweep, refuse what the simulation sold, then acquire. */
  function SelectSeats(fleet: Fleet, t: Tables, acq: AcquireRequest, now: int): (Tables, Answer) {
    if acq.dep !in fleet then (t, ServiceNotFound)
    else
      var coach := fleet[acq.dep];
      var asked := Elements(acq.seatIds);
      var swept := SweepTables(t, Only({acq.dep}), now);
      if acq.seatIds == [] then (swept, NoHoldTaken)
      else if !(asked <= SeatIds(coach)) then (t, SeatNotOnMap)
      else if asked * coach.seeded.Keys != {} then (swept, SimulatedSold(asked * coach.seeded.Keys))
      else
        var (locks, outcome) := Acquire(swept.locks, acq, now);
        (swept.(locks := locks), Selected(outcome))
  }

  function ReadHold(locks: seq<LockRow>, buyer: Buyer, now: int): Option<HoldReading> {
    var latest := LatestHold(locks, buyer);
    if latest.None? then None
    else Some(HoldReading(latest.value.holdId, latest.value.expiresAt, StatusOf(latest.value, now)))
  }

  /** One action of the lazily swept store. */
  function Step(fleet: Fleet, t: Tables, a: Action, now: int): (Tables, Answer) {
    match a
    case Look(deps) =>
      var swept := SweepTables(t, Only(deps), now);
      (swept, Seen(map dep | dep in deps :: ClaimsOn(swept, dep)))
    case Select(acq) => SelectSeats(fleet, t, acq, now)
    case ConfirmOrder(rq) =>
      if rq.dep !in fleet then (t, ServiceNotFound)
      else
        var (t', outcome) := Confirm(t, rq.(coach := fleet[rq.dep]), now);
        (t', ConfirmAnswer(outcome))
    case AskRefund(rq) => var (t', outcome) := SoftCancel(t, rq, now); (t', CancelAnswer(outcome))
    case CommitRefund(rq) => var (t', outcome) := CommitCancel(t, rq, now); (t', CancelAnswer(outcome))
    case AskHold(buyer) => (t, HoldAnswer(ReadHold(t.locks, buyer, now)))
    case Retain(retention) => (Forget(t, now - retention), Forgotten)
  }

  /** One action of a store that expires every hold the moment its instant has passed. */
  function EagerStep(fleet: Fleet, t: Tables, a: Action, now: int): (Tables, Answer) {
    Step(fleet, SweepTables(t, Everywhere, now), a, now)
  }

  datatype Event = Event(at: int, action: Action)

  /** Nondecreasing instants, none before `clock`. */
  predicate InOrder(trace: seq<Event>, clock: int) {
    trace == [] || (clock <= trace[0].at && InOrder(trace[1..], trace[0].at))
  }

  function Run(fleet: Fleet, t: Tables, trace: seq<Event>): (Tables, seq<Answer>)
    decreases |trace|
  {
    if trace == [] then (t, [])
    else
      var (t', answer) := Step(fleet, t, trace[0].action, trace[0].at);
      var (end, answers) := Run(fleet, t', trace[1..]);
      (end, [answer] + answers)
  }

  function RunEagerly(fleet: Fleet, t: Tables, trace: seq<Event>): (Tables, seq<Answer>)
    decreases |trace|
  {
    if trace == [] then (t, [])
    else
      var (t', answer) := EagerStep(fleet, t, trace[0].action, trace[0].at);
      var (end, answers) := RunEagerly(fleet, t', trace[1..]);
      (end, [answer] + answers)
  }

  function LastInstant(trace: seq<Event>, clock: int): int {
    if trace == [] then clock else LastInstant(trace[1..], trace[0].at)
  }
}
