# Reserved seats: a Dafny model

A model of the reserved-seat engine of this transit provider, and of the self-contained algorithms
around it, with proofs about every input, every run and every reachable state.

A rider *selects* seats on a dated departure and gets a hold that runs out; *confirms* the hold with a
passenger manifest and gets a booking; *cancels* seats against a refund quote. Seats are a finite
inventory that many riders contend for. Holds expire lazily: an expired lock row stays HELD until some
transaction sweeps its departure. The model keeps the five tables (`locks`, `sold`, `bookings`,
`seats`, `quotes`) and the statements that change them, in the order the source issues them.

| file | what it holds |
|---|---|
| `Basics.dfy` | options, the code-unit order on ids, sorted distinct lists |
| `Locks.dfy` | the seat-lock table: sweep, hold lookup, acquire, and the invariant of its rows |
| `Store.dfy`, `StoreInvariant.dfy` | all tables, confirm, and the invariant every step keeps |
| `Refund.dfy`, `Cancellation.dfy`, `Ledger.dfy` | refund arithmetic, quotes and commits, refund against price, what is owed |
| `Quotes.dfy` | exactly when a commit does what its quote promised, over every run |
| `ReservedStore.dfy` | the store as a class that runs its statements one by one, proved against the above |
| `Actions.dfy`, `Reachable.dfy`, `LazyExpiry.dfy` | whole runs: safety, evolution of rows, lazy refines eager expiry |
| `Outcomes.dfy` | exactly which answer each action gives, in terms of the rows it finds |
| `Ownership.dfy`, `Fates.dfy` | whose request cancels, quotes and books; why every lock row is in the state it is in |
| `SeatMap.dfy`, `SeatFrames.dfy`, `SeatMeaning.dfy` | published seat states, how each action moves them, and what each state means in the tables |
| `Connection.dfy`, `Database.dfy`, `Queue.dfy` | the reconnecting handle, atomicity, the transaction queue |
| `Foreign.dfy` | transactions with other callers' reads among their statements |
| `Recovery.dfy` | what the one retry heals, and that a failed transaction is over before the next |
| `Durable.dfy`, `Serving.dfy` | the store's transactions over the faulty connection; the actions over a faultless one |
| `Orders.dfy`, `ConfirmOnce.dfy` | the in-memory order store and coalesced confirms |
| `Manifest.dfy`, `ManifestHold.dfy` | the manifest parser and printer, and the manifest against the hold |
| `Base32.dfy`, `PassWindow.dfy`, `Occupancy.dfy` | base32, calendar windows, the seeded sold set |

`dafny verify dfyconfig.toml` checks everything.

## Assumptions

- Instants are arbitrary: the safety theorems hold in whatever order the callers read the clock. Only
  what is about time itself (`NeverTwoLiveHolds`, `LazyRefinesEager`, the exact outcomes that depend on
  which hold of a buyer is the latest, and the clauses of `Timely`) assumes that instants do not decrease. In `Actions.dfy` each action uses one instant; the code samples
  the clock more than once per request, and `Durable.dfy` gives every transaction an instant of its own.
- Transactions on one handle are serial (`Queue.dfy` proves that of the queue) and atomic
  (`Connection.dfy` proves that of the handle, where a BEGIN that reports success has opened a
  transaction; `Foreign.dfy` says what other callers' reads on the handle do to it).
- Cancel is one step. The stored order is rewritten afterwards in a transaction of its own.
- Ids that the source draws at random are inputs; a repeated one is refused as the source refuses it.

## What turned out false of the code

Each of these is kept as the code has it, with a counterexample and the condition under which the
property does hold.

- A refund is not always at most the price: seats store the undiscounted fare while the quote subtracts
  a concession (`FreeSeatIsRefunded`). For one cancellation it is within the price if and only if the
  discount is at most what the corporation keeps (`RefundWithinPriceExactly`); in the rates, whether
  deduction rate and fees cover the concession rate decides it to within half a paisa a seat
  (`RefundWithinPriceByRates`), and so it does for the refund any booking has stored after partial
  cancellations in different slabs (`StoredRefundWithinPrice`).
- A commit compares seat lists joined with commas, and a seat id may contain a comma. From any state in
  which a booking stands as it was sold, every commit on it after any run does what its quote promised
  if and only if no two different lists of its seat ids have one joined form (`AgreementExactly`). Ids
  without commas are such (`CommaFreeJoinsApart`), and so is any one id alone (`OneIdJoinsApart`); two
  ids and their comma-joined form are not (`CommaJoinsTogether`).
- A pass issued in the years 0 to 99 is not valid when it is issued, because `Date.UTC` reads such a
  year as 1900 to 1999. Containment, length, order and the printed end hold exactly as
  `GregorianWindows` says.
- A transaction is not atomic on a handle that others read from. The in-transaction flag belongs to the
  handle, and a bare read that meets a dead stream clears it without the body hearing of it. A
  transaction, whether its body throws or not, is atomic under every schedule of faults if and only if
  no such read comes before a later statement of its body, and under the same condition no statement of
  it can run twice (`AtomicExactly`).
- A transaction body that enqueued another transaction on its own handle would wait forever
  (`SelfCallDeadlocks`, `DeadlockIsForever`); no body in the source does.
- `confirmBooking` by itself does not keep the invariant: it counts rows and looks at nothing else
  (`EmptyManifestBooksNothing`, `WrongHoldIsBooked`). It does if and only if one of its guards refuses, or
  the manifest names exactly the held seats of a hold of the same buyer on the same departure
  (`ConfirmBookingKeepsInvExactly`); the confirm action only calls it so (`ConfirmKeepsInv`).
- `docs/reserved-intercity.md` section 7 has the gender lock refuse at select; the code checks it at init
  and confirm, and so does the model (`GenderRefusal`).
- The record type is documented never to default an age. Of the `AGE` values in which no number is
  written, exactly the blank ones are accepted, each as the age zero (`AgeDefaultedExactlyWhenBlank`).

## Model

| member | source | states |
|---|---|---|
| `Locks.SweepKeepsLocksOk` | src/reserved/store.ts:268-312 | a sweep of any departures at any instant keeps the lock table's invariant: one live lock per seat, the rows of a hold in step, the locks of a booking from one hold |
| `Locks.OneRowDecides` | src/reserved/store.ts:455-485 | the rows of one hold agree on state and expiry while it is held, so the status read off one row is the status of all |
| `Locks.NewestIsLast` | src/reserved/store.ts:421-446 | the row the hold lookup reads belongs to the buyer's last hold |
| `Locks.OnlyTheNewestHoldIsLive` | src/reserved/store.ts:511-533 | an unexpired HELD row of a buyer always belongs to the hold the lookup finds, so no live hold is overlooked |
| `Locks.InsertNeverHitsTheIndex` | src/reserved/store.ts:502-607 | on any table that meets the unique index, after sweep, release and an empty check the insert cannot violate it |
| `Locks.AcquireKeepsLocksOk` | src/reserved/store.ts:487-622 | an acquire, successful or refused, at any instant keeps the lock invariant |
| `Locks.AcquireKeepsTimely` | src/reserved/store.ts:487-622 | given an instant not before any row's, it keeps the table in time order with older holds of a buyer lapsed |
| `Locks.RefusedExactlyForOthersSeats` | src/reserved/store.ts:535-550 | an acquire is refused for its seats if and only if one is sold or under somebody else's unexpired hold, and lists exactly those in seat order; the buyer's own hold never counts, swept or not |
| `Locks.AcquireExactly` | src/reserved/store.ts:502-607 | the exact outcome for every table in time order: a hold is returned if and only if the request names exactly the seats of the buyer's unexpired hold, or names at least one seat, all of them free and the new id unused; a refused seat, a repeated hold id and an empty request are told apart by the same conditions |
| `Locks.HoldLastsExactly` | src/reserved/store.ts:573-607 | a new hold keeps every other buyer off each of its seats until the time to live in seconds has passed, and not an instant longer |
| `Locks.RefusalChangesNothing` | src/reserved/store.ts:504-607 | a refused acquire leaves the table as it was, the buyer's older hold and the lapsed rows it had swept included |
| `Locks.ReselectKeepsHold` | src/reserved/store.ts:511-526 | selecting the seats of a live hold again returns the same hold id, creation and expiry |
| `Locks.AcquiredReadsBack` | src/reserved/store.ts:421-485 | the hold a select announces is the one the store then reads back, with exactly the seats asked for and, if new, the full time to live |
| `Locks.OneLiveHoldPerBuyer` | src/reserved/store.ts:421-446 | two unexpired HELD rows of one buyer belong to one hold |
| `StoreInvariant.HeldAllOrNone` | src/reserved/store.ts:794-800 | the rows of one hold are all HELD or none is |
| `StoreInvariant.CountTestIsExact` | src/reserved/store.ts:794-809 | for a manifest that names the hold's seats, the number of rows moved equals the number of records if and only if the whole hold was still held |
| `StoreInvariant.ConfirmBookingKeepsInvExactly` | src/reserved/store.ts:745-869 | the whole invariant (locks, keys, pointers, totals, refunds, quotes) holds afterwards if and only if a guard refuses (row count, existing booking of the buyer, used booking id, seat named twice), or the manifest is not empty, names exactly the held seats of the hold, and the hold's buyer and departure are the request's |
| `StoreInvariant.BookedExactly` | src/reserved/store.ts:793-880 | the call books exactly when none of those guards refuses; otherwise it changes nothing and names the first guard that does |
| `StoreInvariant.PassedHoldIsOwn` | src/reserved/order.ts:1137-1230 | a hold that passes the confirm checks is the buyer's own, on that departure, live, and its seats are exactly the named ones |
| `Outcomes.ConfirmExactly` | src/reserved/order.ts:464-578 | the exact answer for every reachable table: the booking of an earlier confirm, no hold, a hold that ran out or was spent, or what the buyer's running hold row decides (wrong departure, seat named twice, seat not held, seat not named, gender lock, booking) |
| `Outcomes.AlreadyBookedExactly` | src/reserved/order.ts:464-492 | a buyer with a booking is answered with it and nothing changes |
| `Outcomes.BookedColumns` | src/reserved/store.ts:810-869 | a booked order is stored with the request's buyer, departure, departure instant, settlement and summed fare, the instant as its creation, and one confirmed seat row per passenger in order |
| `StoreInvariant.ConfirmKeepsInv` | src/reserved/order.ts:464-578 | the confirm action keeps the invariant in every case, refusals included |
| `StoreInvariant.AcquireKeepsInv` | src/reserved/store.ts:487-622 | an acquire leaves bookings, seats and quotes alone and keeps the invariant |
| `StoreInvariant.EmptyManifestBooksNothing` | src/reserved/store.ts:793-869 | called with no seats and an unknown hold, the store books nothing and calls it CONFIRMED, which breaks the invariant |
| `StoreInvariant.WrongHoldIsBooked` | src/reserved/store.ts:793-869 | any one passenger is booked on a live one-seat hold; the invariant survives if and only if seat, buyer and departure are the hold's |
| `StoreInvariant.ForgettingKeepsInv` | src/reserved/store.ts:1048-1096 | the retention sweep, which forgets who sat where on past departures, keeps the invariant |
| `Cancellation.ApplyCancellationKeepsInv` | src/reserved/store.ts:939-1002 | cancelling any named seats, repeated or already cancelled ones included, keeps the invariant |
| `Cancellation.SoftCancelKeepsInv` | src/reserved/order.ts:648-689 | quoting keeps the invariant; the quote is worth the rows it names |
| `Cancellation.CommitCancelKeepsInv` | src/reserved/order.ts:691-789 | committing keeps the invariant whether it cancels, re-quotes or refuses |
| `Outcomes.RefusalExactly` | src/reserved/order.ts:1536-1554 | a booking is not found if and only if it does not exist or its operator, buyer app id or buyer app uri differs from the request's; a seat is refused if and only if it is not the booking's; only then is anything left to cancel asked for |
| `Outcomes.SoftCancelExactly` | src/reserved/order.ts:648-689 | the exact outcome of asking for a quote; the quote names the confirmed seats targeted in order, at the slab of the instant, for their refund, for two minutes, and nothing else changes |
| `Outcomes.CommitExactly` | src/reserved/order.ts:691-789 | the exact outcome of a commit: refused as a quote would be, expired unless it names an unexpired quote of this booking for these seats, re-quoted exactly when the slab has moved, committed otherwise |
| `Ownership.StrangerIsRefused` | src/reserved/order.ts:1536-1554 | for every table, both cancels of another operator's or buyer app's booking answer that it is not found and change nothing |
| `Ownership.OnlyTheOwnerCancels` | src/reserved/order.ts:1536-1554 | over every run, a seat of a booking goes from CONFIRMED to CANCELLED only if the run holds a commit for that booking, by its own operator and buyer app, that names the seat or names none |
| `Ownership.StepQuotesForOwner` | src/reserved/order.ts:648-689 | a quote appears only at a request for the booking it quotes by that booking's own operator and buyer app |
| `Cancellation.JoinInjective` | src/reserved/order.ts:705-716 | comparing comma-joined lists compares the lists when no id contains a comma |
| `Cancellation.QuoteAndCommitAgree` | src/reserved/order.ts:648-789 | if the ids of the booking's seats join apart, a commit that goes through named an unexpired quote of this booking for exactly the targeted live seats, pays the quoted total, stores each seat's own share, changes no other seat and raises the booking's refund by the quote |
| `Quotes.AgreementExactly` | src/reserved/order.ts:648-789 | from any invariant state with the booking uncancelled: after every run every commit on it agrees with its quote in all of these respects, if and only if no two different lists of its seat ids have one joined form |
| `Quotes.JoinedTogetherDisagrees` | src/reserved/order.ts:705-716 | quoting one list and committing another with the same joined form at the same instant is quoted, committed, and disagrees |
| `Cancellation.CommaFreeJoinsApart` | src/reserved/order.ts:705-716 | seat ids without commas join apart, however many |
| `Cancellation.OneIdJoinsApart` | src/reserved/order.ts:705-716 | one seat id joins apart, commas or not |
| `Cancellation.CommaJoinsTogether` | src/reserved/order.ts:705-716 | two ids and their comma-joined form do not join apart |
| `Cancellation.StoredRefundWithinPrice` | src/reserved/order.ts:983-995 | after any partial cancellations in any slabs, a booking's stored refund is within the price it was sold at if deduction rates, fees and tolls still held cover the concession rate, and beyond it if the concession outweighs them, to within half a paisa a seat; always within without a concession |
| `Cancellation.LedgerBalances` | src/reserved/store.ts:1125-1156 | owed is base and fee of the confirmed seats plus what each cancelled seat retains at its own stored slab; owed, refund and uncancelled toll make up base, fee and toll |
| `Cancellation.StoredRefundBounds` | src/reserved/store.ts:939-1002 | the stored refund of any booking lies between cancelling its cancelled seats all at the last instant and all at the first |
| `Ledger.DepartureBalances` | src/reserved/store.ts:1125-1156 | per departure, owed plus refunded plus held tolls is what was sold |
| `Ledger.GroupedStep` | src/reserved/store.ts:1125-1156 | one more booking extends exactly the group of its own departure |
| `Ownership.EveryBookingWasConfirmed` | src/reserved/store.ts:793-869 | every booking a run adds is the record of a confirmed order in it: buyer, departure, departure instant, settlement, and its instant as creation |
| `Ownership.BacklogExactly` | src/reserved/store.ts:1125-1156 | after any run the count of a departure's group is the number of its bookings without a settlement, and each of those was confirmed without one |
| `Refund.RefundComplementsRetained` | src/reserved/refund.ts:102-152 | refund and retained amount make up what was paid, with every seat rounded on its own |
| `Refund.KeptMonotone` | src/reserved/refund.ts:68-70 | a stricter slab never returns more after rounding |
| `Refund.SlabMonotone` | src/reserved/refund.ts:43-66 | later is never a milder slab; where each begins is `RefundTermsExactly` |
| `Refund.RefundTerms` | src/reserved/refund.ts:43-133 | for every fare and instant a seat gives back, half up to the paisa, nine tenths of its base while more than 259200000 ms remain, three quarters down to but not including 86400000, one half down to but not including 7200000, nothing from there on, and always its whole toll |
| `Refund.BoundariesAreStrict` | src/reserved/refund.ts:43-66 | at each of the three boundary instants the stricter figure applies |
| `Refund.RefundTermsExactly` | src/reserved/refund.ts:43-133 | and conversely each figure tells the time left, on every base on which the four figures differ |
| `Refund.TellingExactly` | src/reserved/refund.ts:43-70 | which are all bases but 0, 1, 2, 3 and 6 paise |
| `Refund.RefundPathBounds` | src/reserved/refund.ts:43-133 | however seats are split over cancellations between two instants, the total lies between the whole refund at the last and at the first, and is that figure when both share a slab |
| `Refund.ComputeRefund` | src/reserved/refund.ts:102-133 | the loop's published lines are the base and fee totals, they and the per-seat map agree with each other, with the slab and with the amount paid; `RefundTerms` says what the slab is worth |
| `Refund.RefundWithinPriceExactly` | src/reserved/order.ts:983-995 | a refund is at most the charged price if and only if the concession discount is at most the retained amount; always without a concession |
| `Refund.RefundWithinPriceByRates` | src/reserved/order.ts:983-995 | whatever the tolls, a concession rate that deduction rate and fees cover keeps the refund within the price, and one that exceeds them does not, to within half a paisa a seat |
| `Refund.FreeSeatIsRefunded` | src/reserved/concession.ts:124-154 | a seat at a full concession costs nothing and refunds nine tenths of its fare |
| `ReservedStoreClass.ReservedStore.AcquireHold` | src/reserved/store.ts:487-622 | the statements, with rollback on refusal, compute the specified acquire |
| `ReservedStoreClass.ReservedStore.Confirm` | src/reserved/store.ts:745-869 | update first, then the tests and inserts: the specified confirm, and nothing on refusal |
| `ReservedStoreClass.ReservedStore.Cancel` | src/reserved/store.ts:939-1002 | the seat-by-seat loop reaches the tables of the one-shot cancellation |
| `ReservedStoreClass.ReservedStore.UnattributedBookings` | src/reserved/store.ts:1125-1156 | one pass yields exactly the groups of unattributed bookings with their count and owed sum |
| `ReservedStoreClass.ReservedStore.SweepExpiredHolds` | src/reserved/store.ts:268-312 | sweeps exactly the lapsed HELD rows of the named departures |
| `ReservedStoreClass.ReservedStore.SelectAction` | src/reserved/order.ts:327-416 | the select action is the specified one and keeps the invariant |
| `Outcomes.SelectExactly` | src/reserved/order.ts:327-416 | the exact answer of a select: no such departure, a seat off the map, seats the simulation sold and which, no seats named, or what the acquire answers |
| `Outcomes.FreeSeatsCanBeSelected` | src/reserved/order.ts:327-416 | after any run with nondecreasing instants, seats of the coach that nobody has booked, holds or simulated can be selected together by anyone with a new hold id |
| `ReservedStoreClass.ReservedStore.ConfirmAction` | src/reserved/order.ts:464-578 | the confirm action is the specified one and keeps the invariant |
| `ReservedStoreClass.ReservedStore.CommitCancelAction` | src/reserved/order.ts:691-789 | the committing cancel is the specified one and keeps the invariant |
| `ReservedStoreClass.ReservedStore.ConfirmCancel` | src/reserved/order.ts:691-789 | quote checks, refund loop and cancellation loop together are the specified commit |
| `Reachable.RunKeepsInv` | src/reserved/store.ts:186-1156 | every run of select, look, confirm, quote, commit, hold queries and retention sweeps, at instants in any order, keeps the invariant |
| `Reachable.RunKeepsTimely` | src/reserved/store.ts:421-446 | with nondecreasing instants the lock table stays in time order and a buyer's older holds have lapsed |
| `Reachable.NoSeatSoldTwice` | src/reserved/store.ts:12-27 | no state reachable by any run, with instants in any order, has two HELD or BOOKED locks on one seat of a departure |
| `Reachable.BookedExactlyWhenConfirmed` | src/reserved/store.ts:793-869 | in every reachable state a BOOKED lock exists for a booking and seat if and only if that booking seat is CONFIRMED; a booking is CANCELLED if and only if no confirmed seat remains; its refund is the sum of its seats' |
| `Reachable.HoldsShareOneFate` | src/reserved/store.ts:455-485 | the rows of a hold are all HELD with one expiry, all EXPIRED, all RELEASED, or all BOOKED or RELEASED under one booking |
| `Reachable.NeverTwoLiveHolds` | src/reserved/store.ts:421-446 | with nondecreasing instants a buyer never has two live holds |
| `Reachable.RunEvolves` | src/reserved/store.ts:939-1096 | over any run lock rows only move HELD to EXPIRED, RELEASED or BOOKED and BOOKED to RELEASED, a stored refund, slab or quote never changes, and who sat where is at most forgotten |
| `Fates.StepMoves` | src/reserved/store.ts:268-1002 | one action changes a lock row in one of four ways only, each for its own reason: EXPIRED because it had run out, RELEASED because its buyer selected anew while it ran, BOOKED because its buyer confirmed it by name, RELEASED because its sold seat was cancelled; rows are inserted only for the seats of the select itself |
| `Fates.EveryRowIsExplained` | src/reserved/store.ts:268-1002 | in every reachable state every lock row was inserted by a select of the run, and the requests or the expiry that brought it to its present state came after that |
| `LazyExpiry.HoldUnderSweep` | src/reserved/store.ts:481-485 | a hold's status does not depend on who has swept |
| `LazyExpiry.AcquireUnderSweep` | src/reserved/store.ts:487-622 | an acquire answers alike on the lazily and the eagerly swept table, and leaves tables that agree after a sweep |
| `LazyExpiry.SweptClaimsAgree` | src/reserved/order.ts:1232-1248 | claims read after a sweep of their departure are the claims of the eager store |
| `LazyExpiry.ConfirmUnderSweep` | src/reserved/order.ts:1137-1165 | a confirm answers alike on both stores |
| `LazyExpiry.StepUnderSweep` | src/reserved/store.ts:268-312 | every action answers alike on both stores |
| `LazyExpiry.LazyRefinesEager` | src/reserved/store.ts:268-622 | over any run with nondecreasing instants all answers equal those of a store that expires each hold the moment its instant passes |
| `Outcomes.HoldReadingExactly` | src/reserved/store.ts:421-485 | a hold query answers LIVE with id and expiry exactly while a row of the buyer runs, SPENT exactly when the buyer's newest row is booked, and nothing exactly when the buyer has no row |
| `Outcomes.RetainExactly` | src/reserved/store.ts:1048-1096 | a retention sweep forgets the gender of exactly the seats whose departure is more than the retention window past, and changes nothing else |
| `SeatMap.SeatStates` | src/reserved/seatstate.ts:121-148 | the loop publishes, for exactly the seats of the coach, the state whose meaning `PublishedExactly` gives |
| `SeatMeaning.PublishedExactly` | src/reserved/seatstate.ts:79-148 | for every invariant table, seat and viewer each of the six states is published if and only if: a BOOKED row is on the seat; an unexpired HELD row of the viewer's own identity; one of another's; no row and a seeded seat; none of these and an adjacent seat with a woman of another party, booked or seeded; none of these at all |
| `SeatMeaning.PublishedAfterAnyRun` | src/reserved/seatstate.ts:79-148 | the same of the claims a look answers after any run |
| `SeatMeaning.SelectShowsYourHold` | src/reserved/seatstate.ts:121-148 | the seats a select has just acquired read HELD_BY_YOU to that buyer's identity and HELD_BY_OTHER to every other viewer |
| `SeatMap.LastAuthored` | src/reserved/seatstate.ts:64-77 | of two seats authored under one id the later counts |
| `SeatMap.AvailableSeatCount` | src/reserved/seatstate.ts:150-156 | the counter is the number of seats neither seeded nor claimed, whoever looks |
| `SeatMap.GenderRefusal` | src/reserved/seatstate.ts:179-196 | a manifest passes if and only if every female-only seat in it is assigned to a woman; otherwise the seat named is that of the first assignment that breaks this |
| `SeatMap.WomanLocksHerNeighbours` | src/reserved/seatstate.ts:79-119 | adjacency being symmetric, a seated woman locks each free adjacent seat against other parties |
| `SeatMap.HoldsTouchOnlyTheirSeats` | src/reserved/seatstate.ts:79-148 | changing holds changes the state only of the seats concerned, for every viewer |
| `SeatMap.CancellationNeverLocks` | src/reserved/seatstate.ts:79-148 | a cancellation locks no seat that was free; only a freed seat can come back female-only |
| `SeatMap.CancellationFreesExactly` | src/reserved/seatstate.ts:150-156 | a cancellation raises the free count by exactly the seats freed |
| `SeatMap.ConfirmationLocksOnlyBesideWomen` | src/reserved/seatstate.ts:102-119 | a confirmation frees nothing and locks a free seat only beside a woman it seated |
| `SeatFrames.RunOffSeeded` | src/reserved/order.ts:355-372 | in every reachable state claims are disjoint from the seeded sold set |
| `SeatFrames.SelectMovesOnlyItsSeats` | src/reserved/store.ts:527-533 | on the departure selected on, taking or replacing a hold moves only the seats taken or given back, for every viewer; a refused select moves none |
| `SeatFrames.SelectElsewhereMovesOnlyOwnHolds` | src/reserved/store.ts:511-533 | on every other departure a select moves only seats the buyer itself held there, for every viewer |
| `SeatFrames.CommitFreesItsSeats` | src/reserved/store.ts:956-967 | a committed cancellation frees exactly its targeted seats on the published map |
| `SeatFrames.ConfirmSellsItsHold` | src/reserved/store.ts:793-869 | a confirmation turns its own held claims into booked ones of the same rider and moves no other claim of the departure; it opens no seat and locks a free one only if an adjacent woman of another party was just seated |
| `SeatFrames.ConfirmElsewhere` | src/reserved/store.ts:793-869 | a confirmation, booked or refused, leaves the claims of every other departure as they were |
| `Connection.TransactionIsAtomic` | src/reserved/db.ts:483-703 | for every schedule of stream deaths, discards and statement errors: returned means committed whole by one server transaction, failed before COMMIT means nothing durable, failed at COMMIT means all or nothing, and no statement runs twice; when it does return is `CalmTransaction` |
| `Connection.CalmTransaction` | src/reserved/db.ts:683-703 | from a handle at rest and with no fault to come a transaction returns, the durable log grows by exactly its body and each statement ran once in order; if the body throws it fails and nothing is durable; either way the handle is at rest again |
| `Connection.DeadStreamIsHealed` | src/reserved/db.ts:510-561 | a stream that died between transactions costs nothing: BEGIN goes out again on one new connection and the transaction commits |
| `Connection.AttemptKeepsFlagExact` | src/reserved/db.ts:510-561 | whatever a request meets, the handle goes on believing itself in a transaction if and only if the server has one open |
| `Recovery.BeginHealsExactly` | src/reserved/db.ts:510-561 | outside a transaction BEGIN succeeds if and only if nothing is wrong with it, or the stream died and neither the new connection's pragma nor the one retry fails |
| `Recovery.ReadHealsExactly` | src/reserved/db.ts:510-585 | so for a read, prepared anew on the new connection |
| `Recovery.TransactionEndsClosed` | src/reserved/db.ts:683-703 | a transaction that failed at a statement or at COMMIT, with other callers' reads among its statements, leaves nothing open unless two requests in a row are refused; nor does one whose body throws if no request is refused |
| `Recovery.NextTransactionCommits` | src/reserved/db.ts:683-703 | so once the faults cease the next transaction commits |
| `Connection.EveryRunIsExplained` | src/reserved/db.ts:683-703 | over any sequence of transactions the durable log is the returned bodies in order, with possibly those whose COMMIT failed |
| `Foreign.AtomicExactly` | src/reserved/db.ts:467-703 | with other callers' reads among its statements, a transaction, whether its body throws or not, is all or nothing from every coherent handle and under every schedule if and only if all those reads come after its last statement; the same condition decides whether no statement of it can run twice |
| `Foreign.CalmAmong` | src/reserved/db.ts:683-703 | with no fault to come a transaction commits exactly its body whatever reads of other callers are among its statements |
| `Foreign.ReadAttempt` | src/reserved/db.ts:510-561 | a bare read inside somebody else's transaction leaves that transaction open as it was or lost with the flag cleared, and nothing durable |
| `Foreign.CommitLost` | src/reserved/db.ts:510-561 | COMMIT on a lost transaction is refused and makes nothing durable |
| `Foreign.LossBreaksAtomicity` | src/reserved/db.ts:483-561 | a read that loses the transaction just before a statement of the body makes the rest of the body durable statement by statement, although the transaction fails |
| `Foreign.BareReads` | src/reserved/db.ts:510-561 | reads between transactions leave the handle coherent and nothing durable |
| `Foreign.LossRunsTwice` | src/reserved/db.ts:510-561 | and a statement of the body can then run twice, because the retry is allowed again |
| `Foreign.AloneIsRunTransaction` | src/reserved/db.ts:683-703 | without such reads it is the transaction of the other theorems |
| `Durable.Dialect.TablesAreAccounted` | src/reserved/db.ts:683-703 | after any number of the store's transactions and any schedule of faults, with other callers' reads after each body and between transactions, each transaction left the durable tables as specified if it returned, untouched if it refused or failed before COMMIT, and one or the other if its COMMIT was not acknowledged |
| `Durable.Dialect.CalmJobs` | src/reserved/db.ts:683-703 | with no fault to come every one of the store's transactions that does not refuse returns, and the durable tables are those of the transactions in order |
| `Serving.ActionIsItsTransactions` | src/reserved/order.ts:259-789 | what an action does to the tables is what the transactions it issues do, one after the other, refused ones included |
| `Serving.RunIsDurable` | src/reserved/order.ts:259-789 | so with no fault to come the durable tables after the transactions of any run of actions are the tables of that run |
| `Durable.PerformKeepsUnique` | src/reserved/store.ts:487-1096 | sweep, acquire, booking, quote, cancellation and retention keep the one live lock per seat at any instant, whatever their callers had or had not checked |
| `Durable.NoSeatSoldTwiceUnderFaults` | src/reserved/store.ts:12-27 | no seat is sold twice in the durable tables, under any schedule of faults, with instants in any order and whatever anybody had checked |
| `Durable.PerformKeepsInv` | src/reserved/store.ts:487-1096 | each of these transactions keeps the whole invariant if its caller's check holds: a manifest that fits its hold, a quote worth its rows, refunds worth their seats at the slab of the instant |
| `Durable.CheckedStays` | src/reserved/order.ts:1137-1230 | what a caller checked stays so however many transactions run before its own |
| `Durable.LedgerSurvivesFaults` | src/reserved/store.ts:745-1156 | under any schedule of faults, with instants in any order and checks made on any earlier durable tables, the durable tables keep the whole invariant: booked exactly when confirmed, cancelled exactly when nothing is confirmed, refunds summed, the ledger balanced |
| `Durable.SomeDialectIsFaithful` | src/reserved/store.ts:487-1096 | statements that carry out any list of these transactions exist, so these theorems are not empty |
| `Database.ReconnectingDatabase.Attempt` | src/reserved/db.ts:510-561 | the handle's attempt, with retry and bookkeeping of the flag, is the specified one |
| `Database.ReconnectingDatabase.Reconnect` | src/reserved/db.ts:483-508 | whatever the server answers, a reconnect clears flag and cache, advances the generation and changes nothing durable |
| `Database.ReconnectingDatabase.RunSteps` | src/reserved/db.ts:683-703 | the statement loop of a transaction is the specified one |
| `Queue.BodiesRunOneAtATime` | src/reserved/db.ts:658-681 | under any interleaving of callers bodies run one at a time and in call order |
| `Queue.SerialFromTheStart` | src/reserved/db.ts:658-681 | so it is from the first call on a fresh handle |
| `Queue.QueuedBodyRuns` | src/reserved/db.ts:658-681 | a queued body settles after as many starts and finishes as the queue up to it needs, whatever fails or arrives meanwhile |
| `Queue.NeverStuck` | src/reserved/db.ts:658-681 | while anything is unsettled a start or a finish is possible; a failure never blocks its successors |
| `Queue.SelfCallDeadlocks` | src/reserved/db.ts:630-658 | a body that enqueues on its own handle waits for a task that waits for it |
| `Queue.DeadlockIsForever` | src/reserved/db.ts:630-658 | and no continuation resolves that |
| `Orders.SaveKeepsIndexed` | src/orders/store.ts:108-133 | saving keeps one order per transaction and one transaction per order, disturbs no stored order, saves exactly when id and transaction are new, and reports a repeated id before a confirmed transaction |
| `Orders.InMemoryOrderStore.SaveOrder` | src/orders/store.ts:108-133 | saves exactly when id and transaction are new |
| `Orders.InMemoryOrderStore.Get` | src/orders/store.ts:171-189 | an order is returned exactly to the transaction that bought it |
| `ConfirmOnce.ConfirmedOnce` | src/orders/service.ts:205-225 | under any interleaving at most one confirmation per transaction is in flight, at most one order is stored, every call that returns returns it, and the store's guard is never reached |
| `ConfirmOnce.StoredOrderStands` | src/orders/service.ts:205-225 | a stored order stays the answer for good |
| `ConfirmOnce.BothConfirmsReturn` | src/orders/service.ts:205-225 | two calls for one transaction share one piece of work; when it stores its order both return it and nothing stays in flight |
| `ConfirmOnce.WaitersProceed` | src/orders/service.ts:205-225 | a waiting call can always go on, or the work it waits for can |
| `Basics.BelowExactly` | src/reserved/store.ts:505-510 | one seat id sorts before another if and only if it is a proper prefix of it or has the smaller code unit where they first differ |
| `Base32.Encode` | src/trv11/totp.ts:54-70 | the digits denote the same number shifted left by fewer than five bits, and there are as many as the ceiling of 8n/5, despite the 32-bit accumulator |
| `Base32.Decode` | src/trv11/totp.ts:72-94 | refuses exactly the texts with a character outside the alphabet, and otherwise yields the whole octets of the number spelt |
| `Base32.Absorb` | src/trv11/totp.ts:54-94 | shifting a digit into the wrapping 32-bit word loses none of the waiting bits |
| `Base32.AlphabetIndexes` | src/trv11/totp.ts:72-94 | the alphabet lookup of section 6 of RFC 4648 |
| `Base32.CaseAndPaddingIgnored` | src/trv11/totp.ts:72-73 | padding of any length and letter case do not change what a text spells |
| `Base32.DecodingUndoesEncoding` | src/trv11/totp.ts:54-94 | whatever decodes the digits of a byte string is that byte string |
| `Base32.RoundTrip` | src/trv11/totp.ts:54-94 | decoding an encoding returns the bytes, for every byte sequence |
| `PassWindow.GregorianIsClosed` | src/trv11/pass.ts:332-365 | counting month lengths from the epoch gives the day numbers ECMAScript computes |
| `PassWindow.Almanac.IssueInsideWindow` | src/trv11/pass.ts:381-409 | the issue instant lies in [from, to) if and only if its Indian year is not 0 to 99 |
| `PassWindow.Almanac.OpensAtIndianMidnight` | src/trv11/pass.ts:332-346 | a window opens at 18:30 UTC, the Indian midnight at or before the issue, less than a day earlier, unless the Indian year is 0 to 99 |
| `PassWindow.Almanac.WindowLength` | src/trv11/pass.ts:381-409 | a window is one day, seven days or, if and only if December does not meet a year misread on one side, 28 to 31 days |
| `PassWindow.Almanac.MonotoneExactly` | src/trv11/pass.ts:381-409 | no later issue ever ends earlier if and only if the end is not reckoned from a misread year |
| `PassWindow.Almanac.PrintedDates` | src/trv11/pass.ts:347-354 | the printed dates name both ends; the first is the issue date unless its year is misread |
| `PassWindow.Almanac.PrintedEnd` | src/trv11/pass.ts:376-409 | a monthly pass prints the same day of the next month or, where there is none, the first of the month after, if and only if its end is not reckoned from a misread year |
| `PassWindow.Almanac.DaysInMonth` | src/trv11/pass.ts:356-358 | day zero of the next month has the length of the month as its date |
| `PassWindow.GregorianWindows` | src/trv11/pass.ts:332-409 | all of these laws for the Gregorian calendar, every instant and every kind of pass |
| `PassWindow.NotValidInTheYearFifty` | src/trv11/pass.ts:343-345 | a pass issued at noon on 1 January 50 is not valid then |
| `Manifest.ParseManifest` | src/reserved/manifest.ts:60-160 | the one-pass parser computes the reference reading, which cuts the list into groups and reads each by itself, refusals included |
| `Manifest.GroupsPartition` | src/reserved/manifest.ts:79-106 | the groups of the reference reading are the entry list cut before every SEAT_ID and nowhere else |
| `Manifest.LastIsTheLast` | src/reserved/manifest.ts:106-148 | of a repeated field the last entry counts |
| `Manifest.Unexpected` | src/reserved/manifest.ts:61-78 | the refusal lists exactly the codes not accepted, in order, each once |
| `Manifest.PrintThenParse` | src/reserved/manifest.ts:199-214 | parsing printed well-formed records returns them |
| `Manifest.AcceptedIsWellFormed` | src/reserved/manifest.ts:60-160 | whatever is accepted has distinct seats, non-empty names and ages from 0 to 130 |
| `Manifest.ParsePrintParse` | src/reserved/manifest.ts:60-214 | parse, print, parse gives the first parse's records |
| `Manifest.WellFormedExactlyAccepted` | src/reserved/manifest.ts:60-214 | record lists are well formed if and only if some entry list parses to them |
| `Manifest.MatchesExactlyTheHold` | src/reserved/manifest.ts:171-196 | a manifest matches if and only if it names exactly the held seats, and then has as many records; a seat not held is reported first |
| `Manifest.MatchLists` | src/reserved/manifest.ts:171-196 | the seats reported are exactly the named ones not held, in order, or the held ones not named |
| `Manifest.DecimalIsLawful` | src/reserved/manifest.ts:125-138 | decimal conversion, with signs and surrounding white space, meets the parser's one demand: what was printed as an age reads back |
| `Manifest.SignedReads` | src/reserved/manifest.ts:125-138 | the digits of a number, with a sign or without, in any white space, read as that number or its negative |
| `Manifest.AgeEntryExactly` | src/reserved/manifest.ts:125-138 | an `AGE` entry is accepted if and only if its value reads as an age, and gives that age |
| `Manifest.GenderEntryExactly` | src/reserved/manifest.ts:139-148 | a `GENDER` entry is accepted if and only if its value is male, female or other, letter for letter, and is kept as it is |
| `Manifest.DefaultedExactlyWhenBlank` | src/reserved/manifest.ts:125-138 | of the values in which no digit is written exactly the blank ones read as an age, which is zero |
| `Manifest.AgeDefaultedExactlyWhenBlank` | src/reserved/manifest.ts:28-32 | a record's age is defaulted, to zero, exactly for a blank `AGE` value; any other value without a digit is refused |
| `ManifestHold.HoldCheckIsTheMatch` | src/reserved/order.ts:1183-1229 | for a live hold and an accepted manifest the confirm action refuses exactly as the match against the hold does, and reaches the gender locks exactly when it succeeds |
| `ManifestHold.LocksReadTheWord` | src/reserved/seatstate.ts:179-195 | the gender locks pass a list of records if and only if each female-only seat in it has the word female |
| `ManifestHold.GenderIsKept` | src/reserved/store.ts:51-52 | what an accepted manifest says of a gender is what is stored |
| `Occupancy.SoldExactly` | src/reserved/occupancy.ts:192-217 | a seat is sold if and only if fewer seats than the rounded count outrank it, a negative count being taken off the back |
| `Occupancy.SoldSize` | src/reserved/occupancy.ts:192-217 | the sold set has exactly the rounded count |
| `Occupancy.CountIsNearest` | src/reserved/occupancy.ts:192-217 | the rounded count is the nearest whole number of seats, a half going up |
| `Occupancy.SoldAreTheBest` | src/reserved/occupancy.ts:192-217 | a sold seat has a higher rank than an unsold one, or the same rank and the lower id |
| `Occupancy.AuthoredOrderIrrelevant` | src/reserved/occupancy.ts:187-191 | the order in which seats were authored does not matter |
| `Occupancy.SoldGrows` | src/reserved/occupancy.ts:192-217 | a larger fraction sells every seat a smaller one does |

## Left out

- HTTP servers, routing, callbacks, deadlines, schema validation and the shaping of protocol payloads: plumbing around the logic modelled here.
- The SQL text, the libSQL driver and the patterns that classify its error messages: tables are sequences and maps, driver outcomes an enumeration.
- HMAC, TOTP verification, QR encoding, random ids and the keyed hash: random ids are inputs, ranks an arbitrary function.
- The fleet manifest push, configuration, fixtures and remote sources.
- `init`, `status` and `search` as actions: they sweep and read, as the modelled looking and hold queries do.
- Names and ages in booking rows, the throttle of the retention sweep (`sweepManifests`), and the rewriting of the stored order JSON after a cancellation or a retention sweep.
- Boarding points, fare tables and the quantity check of a select: they refuse before the store is asked.
- Several clock readings within one transaction, and in `Actions.dfy` within one action: a hold that runs out between two readings of one confirm is not distinguished there.
- Lookup of a booking by its reference (`findBooking`): bookings are looked up by id. The transaction that rewrites a stored order touches no modelled column, so `Durable.Work` has no case for it.
- The hold id column may be null in the schema; every row the store inserts has one, and the model makes it a plain string.
- Lists of seat ids that the source sorts are modelled as sorted and without repetition; the rows of a hold and of a booking have distinct seats, so nothing is lost.
- The instant range of `Date` (about 270,000 years either way), beyond which the source yields NaN; padding of printed years.
- Refund.RefundWithinPriceByRates: between its two conditions lies a band of rounding, half a paisa a seat and one for the discount, in which the exact figures decide.
- Manifest.ParseManifest: the text of a refusal is not modelled, only its code; number conversion is a parameter with one law.
- Base32.Decode: upper-casing is ASCII; Unicode case folding and surrogate pairs are not modelled.
- Occupancy.SoldExactly: ranks are real numbers given per seat, so floating-point rounding, `seatDesirability` itself and the locale's collation of tied ids (code-unit order here) are not modelled.
- Durable.LedgerSurvivesFaults: callers check on durable tables; a read that runs inside somebody else's open transaction on the handle may see rows that are then rolled back, and such a check is not covered.
- Recovery.TransactionEndsClosed: a refused ROLLBACK leaves the transaction open on the server, as in the source, where the error is dropped and the next BEGIN is refused.
- Serving.RunIsDurable: each action reads the tables its predecessors left; actions that overlap in time are covered by the theorems of `Durable.dfy`, not by this one.
- Connection.TransactionIsAtomic: about a body alone on its handle; `Foreign.AtomicExactly` covers other callers' reads. Bare writes of other callers are not modelled, since the source puts every write in a transaction. A lost COMMIT acknowledgement stays ambiguous, as in the source.
- Manifest.DecimalIsLawful: fractions, exponents and radix prefixes, which `Number` also reads, are not modelled; none of them is free of digits.
