# NightShift slot reservation, modelled in Dafny

NightShift lets residents register (name, house number, block, mobile
number) and then pick a night-duty slot: a date together with a shift. At
most two residents may hold one slot, and picking a new slot drops the
resident's earliest pick. This project models the two Express handlers of
`backend/server.js` that do this, `/api/register` and `/api/select-date`,
over the `User` collection, and proves what they guarantee when each request
is served as one atomic step.

Files:

- `Schema.dfy` (module `Schema`): the `User` record and its `selectedDates`
  array; the `findIndex` duplicate test (`FindSelection`), the `reduce` that
  picks the earliest selection (`EarliestIndex`), the `pull` of that element
  (`RemoveAt`), the pull-then-push `Transfer`, the capacity query without
  `$elemMatch` (`MatchesQuery`, `Occupants`, `Occupancy`) and the slot's
  real holders (`Holders`).
- `Handlers.dfy` (module `Handlers`): the handlers' outcomes and their
  effect on the collection as functions: `NameTaken`, `AfterRegister`,
  `Verdict` (which answer `/api/select-date` gives) and `AfterSelect`.
- `Invariants.dfy` (module `Invariants`): the properties. Each user holds at
  most one selection (`SingleSelection`). Each slot has at most two holders
  (`WithinCapacity`). No two users share a name and house number
  (`UniqueNames`). `ReplayKeepsConsistent`, `ReplayKeepsUniqueNames` and
  `ReplayFromEmpty` show they hold after any sequence of requests.
- `Store.dfy` (module `Server`): class `Store`, whose `users` map and
  `nextId` counter the methods `Register` and `SelectDate` update in place,
  step by step as the handlers do.

Modelling decisions:

- Dates are integer day numbers. This assumes dates normalised to one
  instant per day. The duplicate test compares calendar days with
  `toDateString()` (backend/server.js:66), while the capacity query compares
  exact `Date` values (backend/server.js:81). For normalised dates both
  are equality of day numbers.
- The capacity query has no `$elemMatch` (backend/server.js:80-83). A user
  matches when some element has the date and some element, possibly a
  different one, has the shift. `MatchesQuery` models this literally.
  `OccupantsAreHolders` proves that, while every user holds at most one
  selection, the query returns exactly the slot's holders.
  `MatchesQueryWithoutHolding` shows that with two selections it does not.
- `pull(earliestDate)` removes a subdocument by its own `_id`. So exactly the
  element that the `reduce` returns is removed, even if another element has
  the same date and shift.
- Document ids are natural numbers. `Store.nextId` stands in for Mongo's id
  generator: `Store.Valid()` (`Invariants.FreshIds`) says no record uses
  `nextId` or a larger id.
- An unknown `userId` makes `findById` return null, and the handler then
  fails at backend/server.js:64 with a 500. This is the outcome `NotFound`,
  with no change to the collection.
- The code has no transaction or lock: it reads, checks and then saves, so
  each request is modelled as one atomic step (`Invariants.Serve`). The
  duplicate check (backend/server.js:63-77) comes before the capacity check
  (79-92), and `Verdict` follows that order.

## Model

| member | source | states |
|---|---|---|
| Schema.FindSelection | backend/server.js:63-70 | -1 exactly when the (date, shift) pair is not in the array; otherwise the index of its first occurrence |
| Schema.EarliestIndex | backend/server.js:96-99 | the reduce over a non-empty array yields an element of minimal date, and no element before it has that date (strict `<` keeps the earlier one on ties) |
| Schema.RemoveAt | backend/server.js:100 | pulling one element keeps every other element in its order and shortens the array by one |
| Schema.Transfer | backend/server.js:94-104 | the result has max(1, n) elements, the new pair is last, before it stands the array with its earliest element pulled, and every element was in the array before or is the new pair |
| Schema.NewUser | backend/server.js:48 | a new user carries the given name, house number, block and mobile number, and an empty `selectedDates` (the schema's default, lines 27-30) |
| Schema.MatchesQuery | backend/server.js:80-83 | a user who holds the slot matches the query; a user with no selections matches no query |
| Schema.Occupants | backend/server.js:80-83 | the users `User.find` returns are registered users, and include every holder of the slot |
| Schema.Occupancy | backend/server.js:85 | the count the handler compares with 2 is at most the number of users and at least the number of holders of the slot |
| Handlers.AfterRegister | backend/server.js:40-49 | a taken name and house number leave the collection unchanged; otherwise exactly one user is added under a fresh id, with the given fields and no selections; every existing user is untouched; afterwards the name and house number are taken |
| Handlers.Verdict | backend/server.js:60-92 | the answer is NotFound exactly for an unknown user, AlreadyChosen exactly when the user holds that day and shift, SlotFull exactly when the user does not and the query finds two or more users, and Selected only when the query finds fewer than two |
| Handlers.AfterSelect | backend/server.js:94-105 | every rejection leaves the collection unchanged; a success changes only the requester's `selectedDates`, to the earliest-removed, new-appended array; no user is added or removed |
| Invariants.RemoveAtTakesOne | backend/server.js:100 | the pull removes exactly one copy of the pulled element, as multisets |
| Invariants.TransferReplacesEarliest | backend/server.js:94-104 | from an empty array the result is the new pair alone; otherwise the length is kept, the new pair is last, and the earliest element is exchanged for the new pair (as multisets) |
| Invariants.TransferSingle | backend/server.js:94-104 | with at most one selection before, a success leaves exactly the new pair |
| Invariants.MatchesQueryIffHolds | backend/server.js:80-83 | for a user with at most one selection, the query matches exactly when the user holds the slot |
| Invariants.MatchesQueryWithoutHolding | backend/server.js:80-83 | a user with two selections differing in both date and shift matches the query for a slot it does not hold |
| Invariants.OccupantsAreHolders | backend/server.js:79-85 | when every user holds at most one selection, the users the capacity query finds are exactly the slot's holders |
| Invariants.SelectLengths | backend/server.js:95-104 | on success the requester's list length becomes max(1, old length); every other list keeps its length |
| Invariants.SelectKeepsSingleSelection | backend/server.js:94-105 | if every user holds at most one selection before a request, that still holds after it |
| Invariants.SelectedHoldsOnlyNewSlot | backend/server.js:94-104 | a requester who held at most one selection holds exactly the requested pair after a success |
| Invariants.HoldersAfterSelect | backend/server.js:94-105 | while every user holds at most one selection: after a success the requester is a holder of the requested slot and of no other slot; all other holders are unchanged |
| Invariants.SelectKeepsCapacity | backend/server.js:79-105 | if every slot has at most two holders before a select request, every slot has at most two holders after it (no bound on selections per user is needed) |
| Invariants.SelectKeepsConsistent | backend/server.js:63-105 | a select request preserves both invariants together |
| Invariants.SelectMovesOneHolder | backend/server.js:94-105 | a user moving from slot A to slot B takes one holder from A and adds one to B; every other slot's holders are unchanged |
| Invariants.RepeatedSelectRejected | backend/server.js:63-77 | repeating a request that succeeded is answered AlreadyChosen and changes nothing |
| Invariants.ThirdRequestFindsSlotFull | backend/server.js:79-92 | while every user holds at most one selection: three users without selections request the same empty slot in turn: the first two succeed, the third gets SlotFull and changes nothing, and the slot's holders are exactly the first two |
| Invariants.RegisterKeepsConsistent | backend/server.js:47-49 | registering adds a user with no selections, so both invariants are preserved |
| Invariants.RegisterKeepsUniqueNames | backend/server.js:40-49 | the duplicate test (`findOne({ name, houseNo })`, lines 41-45) admits a user only under a name and house number no record has, so if no two records shared a name and house number before a register request, none do after it |
| Invariants.SelectKeepsUniqueNames | backend/server.js:94-105 | a select request changes no name or house number, so uniqueness of name and house number is preserved |
| Invariants.Serve | backend/server.js:36-112 | one request as one atomic step: ids stay fresh, no user or id is lost, a select request adds no user, and every user other than the requester is unchanged |
| Invariants.Replay | backend/server.js:36-112 | a sequence of requests served one at a time keeps ids fresh, loses no user, and uses at most one new id per request |
| Invariants.ReplayKeepsConsistent | backend/server.js:36-112 | any sequence of register and select requests, served one at a time, preserves both invariants |
| Invariants.ReplayKeepsUniqueNames | backend/server.js:36-112 | any sequence of register and select requests, served one at a time, keeps name and house number unique across records |
| Invariants.ReplayFromEmpty | backend/server.js:36-112 | from the empty collection, after any sequence of requests, every user holds at most one selection, every slot has at most two holders, and no two users share a name and house number |
| Server.Store.constructor | backend/server.js:22-33 | the collection starts empty, so every invariant, unique name and house number included, holds |
| Server.Store.Register | backend/server.js:36-55 | Conflict exactly when a user with that name and house number exists, with nothing changed; otherwise the new collection is AfterRegister under the counter's id, which was not in use, and the counter advances by one; the new state is `Serve` of the old one on this request, so `ReplayFromEmpty` covers every run of a `Store`; the invariants, including unique name and house number, are preserved |
| Server.Store.SelectDate | backend/server.js:58-112 | the answer is Verdict and the new collection is AfterSelect of the old one; the id counter is unchanged; the new state is `Serve` of the old one on this request; the invariants are preserved |

## Left out

- HTTP: Express setup, middleware, routing, request bodies, status codes and
  JSON messages (backend/server.js:2-13, 36, 58, 71-76, 86-91, 107, 115-117).
  Outcomes are the datatypes `RegisterOutcome` and `SelectOutcome`.
- Mongo: the connection, `dotenv`, and the mechanics of `findOne`, `find`,
  `findById` and `save` (backend/server.js:5, 15-19, 33). They are reads and
  writes of the `users` map.
- Concurrency: the gap between the read at backend/server.js:80 and the write
  at backend/server.js:105 lets two requests both see one holder and both
  save. Interleavings are not modelled; each request is one atomic step.
- Uniqueness of name and house number relies on each request being one
  atomic step: `findOne` (backend/server.js:41) and `save`
  (backend/server.js:49) are separate awaits, and the schema
  (backend/server.js:22-31) declares no unique index, so two concurrent
  registrations with the same name and house number can both be saved.
- JavaScript `Date` parsing, time zones and `toDateString()` formatting:
  dates are integer day numbers.
- `console.error` and the catch-all 500 path (backend/server.js:51-54,
  108-111). Only the unknown-user case is modelled, as `NotFound` with no
  change. A failed `save` or a malformed id is not modelled.
- Missing or non-string request fields (for example an absent `name`) are
  not modelled: every field is a string.
