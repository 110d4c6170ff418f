/** The reconciliation backlog: what is owed per dated departure and that it balances. */
module Ledger {
  import opened Locks
  import opened Store
  import opened StoreInvariant
  import opened Cancellation

  datatype Group = Group(bookings: nat, owed: int)

  predicate Unattributed(t: Tables, b: string, dep: Departure) {
    b in t.bookings && b in t.seats && t.bookings[b].settlement.None? && t.bookings[b].dep == dep
  }

  function AddTo(t: Tables, g: Group, b: string, dep: Departure): Group {
    if Unattributed(t, b, dep) then Group(g.bookings + 1, g.owed + Owed(t.bookings[b], t.seats[b])) else g
  }

  /** `COUNT(*)` and `SUM(...)` over the unattributed bookings of one departure, in table order. */
  function GroupOf(t: Tables, sold: seq<string>, dep: Departure): Group {
    if sold == [] then Group(0, 0)
    else AddTo(t, GroupOf(t, sold[..|sold| - 1], dep), sold[|sold| - 1], dep)
  }

  /** A group with no booking owes nothing. */
  lemma {:induction false} EmptyGroup(t: Tables, sold: seq<string>, dep: Departure)
    ensures GroupOf(t, sold, dep).bookings == 0 ==> GroupOf(t, sold, dep).owed == 0
  {
    if sold != [] {
      EmptyGroup(t, sold[..|sold| - 1], dep);
    }
  }

  /** The groups of the bookings in `sold`: one per departure that has an unattributed booking. */
  ghost predicate Grouped(t: Tables, sold: seq<string>, groups: map<Departure, Group>) {
    && (forall dep :: dep in groups <==> GroupOf(t, sold, dep).bookings > 0)
    && (forall dep | dep in groups :: groups[dep] == GroupOf(t, sold, dep))
  }

  lemma GroupStep(t: Tables, sold: seq<string>, i: nat, dep: Departure)
    requires i < |sold|
    ensures GroupOf(t, sold[..i + 1], dep) == AddTo(t, GroupOf(t, sold[..i], dep), sold[i], dep)
  {
    assert sold[..i + 1][..i] == sold[..i];
  }

  /** One more booking opens or extends the group of its own departure. */
  function Enter(groups: map<Departure, Group>, bk: Booking, rows: seq<SeatRow>): map<Departure, Group> {
    var g := if bk.dep in groups then groups[bk.dep] else Group(0, 0);
    if bk.settlement.None? then groups[bk.dep := Group(g.bookings + 1, g.owed + Owed(bk, rows))] else groups
  }

  lemma GroupedStep(t: Tables, sold: seq<string>, i: nat, groups: map<Departure, Group>)
    requires i < |sold| && sold[i] in t.bookings && sold[i] in t.seats && Grouped(t, sold[..i], groups)
    ensures Grouped(t, sold[..i + 1], Enter(groups, t.bookings[sold[i]], t.seats[sold[i]]))
  {
    EmptyGroup(t, sold[..i], t.bookings[sold[i]].dep);
    forall dep ensures GroupOf(t, sold[..i + 1], dep) == AddTo(t, GroupOf(t, sold[..i], dep), sold[i], dep) {
      GroupStep(t, sold, i, dep);
    }
  }

  /** The sale price, the refunds and the uncancelled tolls of the same bookings. */
  datatype Flow = Flow(sold: int, refunded: int, toll: int)

  function FlowOf(t: Tables, sold: seq<string>, dep: Departure): Flow {
    if sold == [] then Flow(0, 0, 0)
    else
      var f, b := FlowOf(t, sold[..|sold| - 1], dep), sold[|sold| - 1];
      if Unattributed(t, b, dep) then
        Flow(f.sold + t.bookings[b].total.base + t.bookings[b].total.fee + t.bookings[b].total.toll,
             f.refunded + t.bookings[b].refund.GetOr(0), f.toll + ConfirmedToll(t.seats[b]))
      else f
  }

  /** Per departure, what is owed, what was refunded and the tolls still held are what was sold. */
  lemma {:induction false} DepartureBalances(t: Tables, sold: seq<string>, dep: Departure)
    requires Inv(t)
    ensures GroupOf(t, sold, dep).owed + FlowOf(t, sold, dep).refunded + FlowOf(t, sold, dep).toll == FlowOf(t, sold, dep).sold
  {
    if sold != [] {
      DepartureBalances(t, sold[..|sold| - 1], dep);
      var b := sold[|sold| - 1];
      if Unattributed(t, b, dep) {
        LedgerBalances(t, b);
      }
    }
  }
}
