/** The `User` collection of backend/server.js (lines 22-33) and the pure
    pieces of the two handlers that read it: the `findIndex` duplicate
    test, the `reduce` that picks the earliest selection, the
    pull-then-push transfer and the capacity query. */
module Schema {

  /** A Mongo ObjectId; fresh ones are handed out by the store. */
  type UserId = nat

  /** A calendar day as a day number. Dates are assumed normalised to
      midnight, so comparing by `toDateString()` and comparing exact
      `Date` values agree. */
  type Day = int

  type Shift = string

  /** Capacity of one (date, shift) slot: the handler refuses once the
      capacity query finds two users, which may include users that match
      the query without holding the slot. */
  const Capacity: nat := 2

  /** One element of a user's `selectedDates` array. */
  datatype Selection = Selection(date: Day, shift: Shift)

  datatype User = User(
    name: string,
    houseNo: string,
    block: string,
    mobileNo: string,
    selectedDates: seq<Selection>)

  /** A freshly registered user: the schema's array defaults to empty. */
  function NewUser(name: string, houseNo: string, block: string, mobileNo: string): (u: User)
    ensures u.name == name && u.houseNo == houseNo
    ensures u.block == block && u.mobileNo == mobileNo
    ensures u.selectedDates == []
  {
    User(name, houseNo, block, mobileNo, [])
  }

  /** `selectedDates.findIndex(...)`: the index of the first element with
      this day and shift, or -1 when there is none. */
  function FindSelection(dates: seq<Selection>, date: Day, shift: Shift): (r: int)
    ensures -1 <= r < |dates|
    ensures r == -1 <==> Selection(date, shift) !in dates
    ensures r != -1 ==> dates[r] == Selection(date, shift)
    ensures forall i :: 0 <= i < r ==> dates[i] != Selection(date, shift)
  {
    if |dates| == 0 then -1
    else if dates[0].date == date && dates[0].shift == shift then 0
    else
      var k := FindSelection(dates[1..], date, shift);
      if k == -1 then -1 else k + 1
  }

  /** The index of the element that `reduce((earliest, current) =>
      current.date < earliest.date ? current : earliest)` returns: the
      fold runs left to right over a non-empty array and only a strictly
      earlier date replaces the accumulator, so it is the first element
      of minimal date. */
  function EarliestIndex(dates: seq<Selection>): (k: nat)
    requires |dates| > 0
    ensures k < |dates|
    ensures forall i :: 0 <= i < |dates| ==> dates[k].date <= dates[i].date
    ensures forall i :: 0 <= i < k ==> dates[k].date < dates[i].date
  {
    if |dates| == 1 then 0
    else
      var k := EarliestIndex(dates[..|dates| - 1]);
      if dates[|dates| - 1].date < dates[k].date then |dates| - 1 else k
  }

  /** `dates` without its element at index `k`, the rest kept in order. */
  function RemoveAt(dates: seq<Selection>, k: nat): (r: seq<Selection>)
    requires k < |dates|
    ensures |r| == |dates| - 1
    ensures forall i :: 0 <= i < k ==> r[i] == dates[i]
    ensures forall i :: k <= i < |r| ==> r[i] == dates[i + 1]
  {
    dates[..k] + dates[k + 1..]
  }

  /** What a successful selection does to the array: `pull` the earliest
      element (a subdocument is pulled by its own _id, so exactly that one
      element goes), then `push` the new pair. */
  function Transfer(dates: seq<Selection>, s: Selection): (r: seq<Selection>)
    ensures |r| == if |dates| == 0 then 1 else |dates|
    ensures r[|r| - 1] == s
    ensures |dates| > 0 ==> r[..|r| - 1] == RemoveAt(dates, EarliestIndex(dates))
    ensures forall x :: x in r ==> x in dates || x == s
  {
    (if |dates| > 0 then RemoveAt(dates, EarliestIndex(dates)) else dates) + [s]
  }

  /** Does `u` hold exactly this (date, shift) pair? */
  predicate Holds(u: User, date: Day, shift: Shift)
  {
    Selection(date, shift) in u.selectedDates
  }

  /** The filter `{"selectedDates.date": date, "selectedDates.shift": shift}`.
      Without `$elemMatch` each condition may be met by a different
      element of the array. */
  predicate MatchesQuery(u: User, date: Day, shift: Shift)
    ensures Holds(u, date, shift) ==> MatchesQuery(u, date, shift)
    ensures |u.selectedDates| == 0 ==> !MatchesQuery(u, date, shift)
  {
    && (exists e :: e in u.selectedDates && e.date == date)
    && (exists e :: e in u.selectedDates && e.shift == shift)
  }

  /** The users `User.find` returns for the capacity query. */
  function Occupants(users: map<UserId, User>, date: Day, shift: Shift): (r: set<UserId>)
    ensures r <= users.Keys
    ensures Holders(users, date, shift) <= r
  {
    set id | id in users && MatchesQuery(users[id], date, shift)
  }

  /** `usersWithSameDateAndShift.length`. */
  function Occupancy(users: map<UserId, User>, date: Day, shift: Shift): (n: nat)
    ensures n <= |users|
    ensures |Holders(users, date, shift)| <= n
  {
    var found := Occupants(users, date, shift);
    SubsetCardinality(found, users.Keys);
    SubsetCardinality(Holders(users, date, shift), found);
    |found|
  }

  /** A subset is no larger than its superset. */
  lemma {:induction false} SubsetCardinality(a: set<UserId>, b: set<UserId>)
    requires a <= b
    ensures |a| <= |b|
    decreases |b|
  {
    if a != {} {
      var x :| x in a;
      SubsetCardinality(a - {x}, b - {x});
    }
  }

  /** The users that really hold the slot, element by element. */
  function Holders(users: map<UserId, User>, date: Day, shift: Shift): set<UserId>
  {
    set id | id in users && Holds(users[id], date, shift)
  }
}
