/** The published seat states and the neighbourhood lock (`src/reserved/seatstate.ts`). */
module SeatMap {
  import opened Basics

  datatype Gender = Male | Female | Other

  datatype Identity = Identity(bapId: string, bapUri: string, transactionId: string)

  /** A live claim on one seat of a dated departure; a held seat has no manifest, so no gender. */
  datatype Claim =
    | HeldClaim(holdId: string, identity: Identity)
    | BookedClaim(holdId: string, bookingId: string, identity: Identity, gender: Option<Gender>)

  type Claims = map<SeatId, Claim>

  datatype Seat = Seat(seatId: SeatId, adjacent: seq<SeatId>)

  /** The seat map with the seats the simulation sold and the genders it drew for them. */
  datatype Coach = Coach(seats: seq<Seat>, seeded: map<SeatId, Gender>)

  datatype SeatState = SOLD_BOOKED | HELD_BY_YOU | HELD_BY_OTHER | SOLD_SIMULATED | FEMALE_ONLY | AVAILABLE

  datatype Occupant = Occupant(gender: Option<Gender>, owner: Option<Identity>)

  function SeatIds(coach: Coach): set<SeatId> {
    set seat | seat in coach.seats :: seat.seatId
  }

  predicate DistinctSeats(seats: seq<Seat>) {
    forall i, j | 0 <= i < j < |seats| :: seats[i].seatId != seats[j].seatId
  }

  predicate NamesBack(seats: seq<Seat>, seat: Seat, n: SeatId) {
    exists other | other in seats :: other.seatId == n && seat.seatId in other.adjacent
  }

  /** What boot-time integrity checks establish about a seat map (`src/reserved/integrity.ts`). */
  predicate Authored(coach: Coach) {
    && DistinctSeats(coach.seats)
    && (forall seat | seat in coach.seats ::
          forall n | n in seat.adjacent :: n != seat.seatId && NamesBack(coach.seats, seat, n))
  }

  /** `new Map(seats.map(seat => [seat.seatId, seat])).get(id)`: the last seat authored under an id. */
  function FindSeat(seats: seq<Seat>, id: SeatId): (r: Option<Seat>)
    ensures r.Some? ==> r.value in seats && r.value.seatId == id
    ensures r.None? ==> forall seat | seat in seats :: seat.seatId != id
  {
    if seats == [] then None
    else if seats[|seats| - 1].seatId == id then Some(seats[|seats| - 1])
    else FindSeat(seats[..|seats| - 1], id)
  }

  /** Of two seats authored under one id the later counts. */
  lemma {:induction false} LastAuthored(seats: seq<Seat>, i: nat)
    requires i < |seats| && forall j | i < j < |seats| :: seats[j].seatId != seats[i].seatId
    ensures FindSeat(seats, seats[i].seatId) == Some(seats[i])
  {
    if i < |seats| - 1 {
      LastAuthored(seats[..|seats| - 1], i);
    }
  }

  /** A booking outranks the simulation; a hold names nobody. */
  function OccupantOf(id: SeatId, coach: Coach, claims: Claims): Occupant {
    if id in claims then
      match claims[id] {
        case BookedClaim(_, _, identity, gender) => Occupant(gender, Some(identity))
        case HeldClaim(_, identity) => Occupant(None, Some(identity))
      }
    else if id in coach.seeded then Occupant(Some(coach.seeded[id]), None)
    else Occupant(None, None)
  }

  /** Whether the occupant of a seat locks its neighbours against this viewer. */
  predicate LocksNeighbours(id: SeatId, coach: Coach, claims: Claims, viewer: Option<Identity>) {
    var occupant := OccupantOf(id, coach, claims);
    occupant.gender == Some(Female) && (occupant.owner.None? || viewer != occupant.owner)
  }

  predicate IsFemaleOnly(id: SeatId, coach: Coach, claims: Claims, viewer: Option<Identity>) {
    var seat := FindSeat(coach.seats, id);
    seat.Some? && exists n | n in seat.value.adjacent :: LocksNeighbours(n, coach, claims, viewer)
  }

  function StateOf(id: SeatId, coach: Coach, claims: Claims, viewer: Option<Identity>): SeatState {
    if id in claims then
      match claims[id] {
        case BookedClaim(_, _, _, _) => SOLD_BOOKED
        case HeldClaim(_, identity) => if viewer == Some(identity) then HELD_BY_YOU else HELD_BY_OTHER
      }
    else if id in coach.seeded then SOLD_SIMULATED
    else if IsFemaleOnly(id, coach, claims, viewer) then FEMALE_ONLY
    else AVAILABLE
  }

  /** The seats a buyer could still take: neither claimed nor sold by the simulation. */
  function FreeSeats(coach: Coach, claims: Claims): set<SeatId> {
    set id | id in SeatIds(coach) && id !in claims && id !in coach.seeded
  }

  /** `seatStates`: one entry per seat of the map. */
  method SeatStates(coach: Coach, claims: Claims, viewer: Option<Identity>) returns (states: map<SeatId, SeatState>)
    ensures states.Keys == SeatIds(coach)
    ensures forall id | id in states :: states[id] == StateOf(id, coach, claims, viewer)
  {
    states := map[];
    for i := 0 to |coach.seats|
      invariant states.Keys == set k | 0 <= k < i :: coach.seats[k].seatId
      invariant forall id | id in states :: states[id] == StateOf(id, coach, claims, viewer)
    {
      var id := coach.seats[i].seatId;
      states := states[id := StateOf(id, coach, claims, viewer)];
    }
    forall id ensures id in states <==> id in SeatIds(coach) {
      if id in SeatIds(coach) {
        var seat :| seat in coach.seats && seat.seatId == id;
        var k :| 0 <= k < |coach.seats| && coach.seats[k] == seat;
      }
    }
  }

  predicate Open(state: SeatState) {
    state.AVAILABLE? || state.FEMALE_ONLY?
  }

  function OpenAmong(states: map<SeatId, SeatState>, ids: set<SeatId>): set<SeatId> {
    set id | id in ids && id in states && Open(states[id])
  }

  /** `availableSeatCount`: what it counts is independent of the viewer and of every gender. */
  method AvailableSeatCount(coach: Coach, claims: Claims, viewer: Option<Identity>) returns (free: nat)
    ensures free == |FreeSeats(coach, claims)|
  {
    var states := SeatStates(coach, claims, viewer);
    free := 0;
    var pending := states.Keys;
    while pending != {}
      invariant pending <= states.Keys
      invariant free == |OpenAmong(states, states.Keys - pending)|
      decreases pending
    {
      var id :| id in pending;
      assert states.Keys - (pending - {id}) == (states.Keys - pending) + {id};
      CountOne(states, states.Keys - pending, id);
      pending := pending - {id};
      if Open(states[id]) {
        free := free + 1;
      }
    }
    assert FreeSeats(coach, claims) == OpenAmong(states, states.Keys - pending);
  }

  lemma CountOne(states: map<SeatId, SeatState>, done: set<SeatId>, id: SeatId)
    requires id in states && id !in done
    ensures |OpenAmong(states, done + {id})| == |OpenAmong(states, done)| + if Open(states[id]) then 1 else 0
  {
    assert OpenAmong(states, done + {id}) == OpenAmong(states, done) + if Open(states[id]) then {id} else {};
  }

  datatype Assignment = Assignment(seatId: SeatId, gender: Option<Gender>)

  /** The first seat `assertGenderLocks` refuses, or none. */
  function GenderRefusal(coach: Coach, claims: Claims, viewer: Option<Identity>, manifest: seq<Assignment>): (r: Option<SeatId>)
    ensures r.None? <==> forall a | a in manifest :: a.gender == Some(Female) || !IsFemaleOnly(a.seatId, coach, claims, viewer)
    ensures r.Some? ==> exists i | 0 <= i < |manifest| :: FirstOffender(coach, claims, viewer, manifest, i) && manifest[i].seatId == r.value
    ensures r.Some? ==> IsFemaleOnly(r.value, coach, claims, viewer)
  {
    if manifest == [] then None
    else if Offends(coach, claims, viewer, manifest[0]) then
      assert FirstOffender(coach, claims, viewer, manifest, 0);
      Some(manifest[0].seatId)
    else
      var rest := GenderRefusal(coach, claims, viewer, manifest[1..]);
      assert forall i | 0 <= i < |manifest| - 1 :: manifest[1..][i] == manifest[i + 1];
      assert forall i | 0 <= i < |manifest| - 1 ::
        FirstOffender(coach, claims, viewer, manifest[1..], i) ==> FirstOffender(coach, claims, viewer, manifest, i + 1);
      rest
  }

  predicate FirstOffender(coach: Coach, claims: Claims, viewer: Option<Identity>, manifest: seq<Assignment>, i: nat) {
    && i < |manifest| && Offends(coach, claims, viewer, manifest[i])
    && forall j | 0 <= j < i :: !Offends(coach, claims, viewer, manifest[j])
  }

  predicate Offends(coach: Coach, claims: Claims, viewer: Option<Identity>, a: Assignment) {
    a.gender != Some(Female) && IsFemaleOnly(a.seatId, coach, claims, viewer)
  }

  /** The two claim maps agree off `changed`, and on it neither holds a booking. */
  ghost predicate OnlyHoldsChange(before: Claims, after: Claims, changed: set<SeatId>) {
    && (forall id | id !in changed :: (id in before <==> id in after) && (id in before ==> before[id] == after[id]))
    && (forall id | id in changed :: (id in before ==> before[id].HeldClaim?) && (id in after ==> after[id].HeldClaim?))
  }

  /**
   * Holds come and go without touching any other seat: whoever looks, only the seats taken or
   * given back can read differently, provided no hold lies on a seat the simulation sold.
   */
  lemma HoldsTouchOnlyTheirSeats(coach: Coach, before: Claims, after: Claims, changed: set<SeatId>, viewer: Option<Identity>, id: SeatId)
    requires OnlyHoldsChange(before, after, changed)
    requires changed !! coach.seeded.Keys
    requires id !in changed
    ensures StateOf(id, coach, before, viewer) == StateOf(id, coach, after, viewer)
  {
    forall n ensures LocksNeighbours(n, coach, before, viewer) == LocksNeighbours(n, coach, after, viewer) {
      if n in changed {
        assert OccupantOf(n, coach, before).gender.None? && OccupantOf(n, coach, after).gender.None?;
      }
    }
  }

  /** `after` is `before` without the booked seats in `freed`. */
  ghost predicate BookingsFreed(before: Claims, after: Claims, freed: set<SeatId>) {
    && freed <= before.Keys
    && (forall id | id in freed :: before[id].BookedClaim?)
    && after == before - freed
  }

  /**
   * A cancellation never locks a seat that was free: off the freed seats a state stays what it
   * was, except that a female-only seat may open up. Only a freed seat can come back female-only.
   */
  lemma CancellationNeverLocks(coach: Coach, before: Claims, after: Claims, freed: set<SeatId>, viewer: Option<Identity>, id: SeatId)
    requires BookingsFreed(before, after, freed)
    requires freed !! coach.seeded.Keys
    ensures id !in freed ==>
      || StateOf(id, coach, after, viewer) == StateOf(id, coach, before, viewer)
      || (StateOf(id, coach, before, viewer) == FEMALE_ONLY && StateOf(id, coach, after, viewer) == AVAILABLE)
    ensures id in freed ==> Open(StateOf(id, coach, after, viewer))
  {
    forall n ensures LocksNeighbours(n, coach, after, viewer) ==> LocksNeighbours(n, coach, before, viewer) {
      if n in freed {
        assert OccupantOf(n, coach, after).gender.None?;
      }
    }
  }

  /** A cancellation raises the available count by exactly the seats it freed. */
  lemma CancellationFreesExactly(coach: Coach, before: Claims, after: Claims, freed: set<SeatId>)
    requires BookingsFreed(before, after, freed)
    requires freed !! coach.seeded.Keys && freed <= SeatIds(coach)
    ensures |FreeSeats(coach, after)| == |FreeSeats(coach, before)| + |freed|
  {
    assert FreeSeats(coach, after) == FreeSeats(coach, before) + freed;
    assert FreeSeats(coach, before) !! freed;
  }

  /** `after` turns the holds on `sold` into bookings of the same party. */
  ghost predicate HoldsBooked(before: Claims, after: Claims, sold: set<SeatId>) {
    && before.Keys == after.Keys && sold <= before.Keys
    && (forall id | id in before && id !in sold :: before[id] == after[id])
    && (forall id | id in sold :: before[id].HeldClaim? && after[id].BookedClaim? && before[id].identity == after[id].identity)
  }

  /**
   * A confirmation sells no further seat, opens none, and locks a free seat only beside a woman
   * it has just seated, and then only against other parties.
   */
  lemma ConfirmationLocksOnlyBesideWomen(coach: Coach, before: Claims, after: Claims, sold: set<SeatId>, viewer: Option<Identity>, id: SeatId)
    requires HoldsBooked(before, after, sold)
    ensures FreeSeats(coach, after) == FreeSeats(coach, before)
    ensures StateOf(id, coach, before, viewer) == FEMALE_ONLY ==> StateOf(id, coach, after, viewer) == FEMALE_ONLY
    ensures StateOf(id, coach, before, viewer) == AVAILABLE && StateOf(id, coach, after, viewer) == FEMALE_ONLY ==>
      exists n | n in sold :: after[n].gender == Some(Female) && viewer != Some(after[n].identity)
        && FindSeat(coach.seats, id).Some? && n in FindSeat(coach.seats, id).value.adjacent
  {
    forall n | n !in sold ensures LocksNeighbours(n, coach, before, viewer) == LocksNeighbours(n, coach, after, viewer) {}
    forall n | n in sold ensures !LocksNeighbours(n, coach, before, viewer) {}
    if IsFemaleOnly(id, coach, after, viewer) && !IsFemaleOnly(id, coach, before, viewer) {
      var n :| n in FindSeat(coach.seats, id).value.adjacent && LocksNeighbours(n, coach, after, viewer);
      assert n in sold;
    }
  }

  /**
   * The other direction, which needs the authored symmetry of adjacency: a woman in somebody
   * else's booking locks every free seat that her own seat names as a neighbour.
   */
  lemma WomanLocksHerNeighbours(coach: Coach, claims: Claims, viewer: Option<Identity>, hers: SeatId, id: SeatId)
    requires Authored(coach)
    requires hers in claims && claims[hers].BookedClaim? && claims[hers].gender == Some(Female)
    requires viewer != Some(claims[hers].identity)
    requires FindSeat(coach.seats, hers).Some? && id in FindSeat(coach.seats, hers).value.adjacent
    requires id in FreeSeats(coach, claims)
    ensures StateOf(id, coach, claims, viewer) == FEMALE_ONLY
  {
    var seat := FindSeat(coach.seats, hers).value;
    assert NamesBack(coach.seats, seat, id);
    var other :| other in coach.seats && other.seatId == id && hers in other.adjacent;
    FindSeatUnique(coach.seats, other);
    assert LocksNeighbours(hers, coach, claims, viewer);
  }

  lemma {:induction false} FindSeatUnique(seats: seq<Seat>, seat: Seat)
    requires DistinctSeats(seats) && seat in seats
    ensures FindSeat(seats, seat.seatId) == Some(seat)
  {
    var last := |seats| - 1;
    if seats[last] != seat {
      assert seat in seats[..last];
      FindSeatUnique(seats[..last], seat);
    }
  }
}
