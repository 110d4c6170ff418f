/** The manifest as the confirm action uses it (`src/reserved/order.ts`): parsed, matched with the hold, checked. */
module ManifestHold {
  import opened Basics
  import opened SeatMap
  import opened Locks
  import opened Store
  import opened Manifest

  function GenderOf(text: Option<string>): Option<Gender> {
    if text == Some("female") then Some(Female)
    else if text == Some("male") then Some(Male)
    else if text == Some("other") then Some(Other)
    else None
  }

  function Passengers(records: seq<Record>): (r: seq<Passenger>)
    ensures |r| == |records| && forall i | 0 <= i < |r| :: r[i] == Passenger(records[i].seatId, GenderOf(records[i].gender))
  {
    seq(|records|, i requires 0 <= i < |records| => Passenger(records[i].seatId, GenderOf(records[i].gender)))
  }

  /** The word a stored gender is printed as. */
  function Word(gender: Option<Gender>): Option<string> {
    match gender
    case Some(Female) => Some("female")
    case Some(Male) => Some("male")
    case Some(Other) => Some("other")
    case None => None
  }

  /** Whatever a manifest may say of a gender is stored as it was said. */
  lemma GenderIsKept(n: Numerals, entries: seq<Entry>, i: nat)
    requires Parse(n, entries).Parsed? && i < |Parse(n, entries).records|
    ensures var records := Parse(n, entries).records; Word(Passengers(records)[i].gender) == records[i].gender
  {
    AcceptedIsWellFormed(n, entries);
    assert RecordOk(Parse(n, entries).records[i]);
  }

  /** The gender locks pass exactly the manifests that say "female" of every female-only seat they name. */
  lemma LocksReadTheWord(coach: Coach, claims: Claims, viewer: Option<Identity>, records: seq<Record>)
    ensures GenderRefusal(coach, claims, viewer, Assignments(Passengers(records))).None?
       <==> forall i | 0 <= i < |records| :: records[i].gender == Some("female") || !IsFemaleOnly(records[i].seatId, coach, claims, viewer)
  {
    var manifest := Assignments(Passengers(records));
    forall i | 0 <= i < |records|
      ensures manifest[i] in manifest && manifest[i].seatId == records[i].seatId
      ensures manifest[i].gender == Some(Female) <==> records[i].gender == Some("female")
    {
    }
  }

  lemma NamedSeats(records: seq<Record>)
    ensures Named(Passengers(records)) == Elements(Seats(records))
  {
    var named, seats := Passengers(records), Seats(records);
    forall s ensures s in Named(named) <==> s in Elements(seats) {
      if s in Named(named) {
        var p :| p in named && p.seatId == s;
        var i :| 0 <= i < |named| && named[i] == p;
        assert seats[i] == s;
      }
      if s in Elements(seats) {
        var i :| 0 <= i < |seats| && seats[i] == s;
        assert named[i] in named;
      }
    }
  }

  /** The three answers of the match, in the terms of the hold check. */
  lemma MatchIsTheSeatSets(records: seq<Record>, held: seq<SeatId>)
    ensures var named := Named(Passengers(records));
      && (MatchHold(records, held).NotHeld? <==> !(named <= Elements(held)))
      && (MatchHold(records, held).Unnamed? <==> named <= Elements(held) && !(Elements(held) <= named))
  {
    NamedSeats(records);
    var extra, missing := SortedDistinct(Without(Seats(records), held)), Without(held, Seats(records));
    HasMember(extra);
    HasMember(missing);
    assert forall s :: s in extra <==> s in Elements(Seats(records)) && s !in Elements(held);
    assert forall s :: s in missing <==> s in Elements(held) && s !in Elements(Seats(records));
  }

  /**
   * For a live hold on the right departure and an accepted manifest, the confirm action refuses
   * exactly as the manifest's own match against the hold does, and goes on to the gender locks
   * exactly when that match succeeds.
   */
  lemma HoldCheckIsTheMatch(n: Numerals, entries: seq<Entry>, t: Tables, rq: ConfirmRequest, now: int)
    requires Parse(n, entries).Parsed? && rq.manifest == Passengers(Parse(n, entries).records)
    requires LatestHold(t.locks, rq.buyer).Some? && LatestHold(t.locks, rq.buyer).value.dep == rq.dep
    requires StatusOf(LatestHold(t.locks, rq.buyer).value, now).LIVE?
    ensures var hold := LatestHold(t.locks, rq.buyer).value;
      match MatchHold(Parse(n, entries).records, hold.seatIds)
      case NotHeld(_) => CheckHold(t, rq, now) == Refuses(HoldSeatMismatch)
      case Unnamed(_) => CheckHold(t, rq, now) == Refuses(ManifestIncomplete)
      case Matches =>
        var locked := GenderRefusal(rq.coach, ClaimsOn(t, rq.dep), Some(rq.buyer.identity), Assignments(rq.manifest));
        CheckHold(t, rq, now) == if locked.Some? then Refuses(GenderLocked(locked.value)) else Passes(hold)
  {
    var records := Parse(n, entries).records;
    AcceptedIsWellFormed(n, entries);
    MatchIsTheSeatSets(records, LatestHold(t.locks, rq.buyer).value.seatIds);
    assert DistinctPassengers(rq.manifest);
  }
}
