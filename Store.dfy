/** The two route handlers of backend/server.js over the `User` collection,
    held in place by a `Store` object. Each handler runs as one atomic step:
    reading a record, checking, then writing it back. */
module Server {
  import opened Schema
  import opened Handlers
  import opened Invariants

  class Store {
    /** The `User` collection, by document id. */
    var users: map<UserId, User>
    /** Stands in for Mongo's id generator: no record uses this id or a
        larger one. */
    var nextId: UserId

    ghost predicate Valid()
      reads this
    {
      FreshIds(Collection(users, nextId))
    }

    /** Every user holds at most one selection, no slot has more than two
        holders, and no two users share a name and house number. */
    ghost predicate Sound()
      reads this
    {
      Consistent(users) && UniqueNames(users)
    }

    constructor ()
      ensures Valid() && Sound()
      ensures users == map[] && nextId == 0
    {
      users := map[];
      nextId := 0;
      new;
      forall d, s ensures |Holders(users, d, s)| <= Capacity {
        assert Holders(users, d, s) == {};
      }
    }

    /** `/api/register`: refuse when a user with this name and house
        number exists, otherwise insert a user with no selections. */
    method Register(name: string, houseNo: string, block: string, mobileNo: string)
      returns (r: RegisterOutcome)
      requires Valid()
      modifies this
      ensures Valid()
      ensures r == Conflict <==> NameTaken(old(users), name, houseNo)
      ensures r == Conflict ==> users == old(users) && nextId == old(nextId)
      ensures r.Registered? ==>
                && r.id == old(nextId) && r.id !in old(users)
                && users == AfterRegister(old(users), r.id, name, houseNo, block, mobileNo)
                && nextId == old(nextId) + 1
      ensures Collection(users, nextId) ==
                Serve(Collection(old(users), old(nextId)),
                      RegisterRequest(name, houseNo, block, mobileNo))
      ensures old(Sound()) ==> Sound()
    {
      if NameTaken(users, name, houseNo) {
        return Conflict;
      }
      var id := nextId;
      var user := NewUser(name, houseNo, block, mobileNo);
      if Sound() {
        RegisterKeepsConsistent(users, id, name, houseNo, block, mobileNo);
        RegisterKeepsUniqueNames(users, id, name, houseNo, block, mobileNo);
      }
      users := users[id := user];
      nextId := nextId + 1;
      r := Registered(id);
    }

    /** `/api/select-date`: refuse an unknown user, a day and shift the user
        already chose, or a slot two users already hold; otherwise drop the
        user's earliest selection, if any, and append the new one. */
    method SelectDate(uid: UserId, date: Day, shift: Shift) returns (r: SelectOutcome)
      requires Valid()
      modifies this
      ensures Valid() && nextId == old(nextId)
      ensures r == Verdict(old(users), uid, date, shift)
      ensures users == AfterSelect(old(users), uid, date, shift)
      ensures Collection(users, nextId) ==
                Serve(Collection(old(users), old(nextId)), SelectRequest(uid, date, shift))
      ensures old(Sound()) ==> Sound()
    {
      if uid !in users {
        return NotFound;
      }
      var user := users[uid];
      if FindSelection(user.selectedDates, date, shift) != -1 {
        return AlreadyChosen;
      }
      var matching := Occupants(users, date, shift);
      if |matching| >= Capacity {
        return SlotFull;
      }
      if Sound() {
        SelectKeepsConsistent(users, uid, date, shift);
        SelectKeepsUniqueNames(users, uid, date, shift);
      }
      var dates := user.selectedDates;
      if |dates| > 0 {
        var earliest := EarliestIndex(dates);
        dates := RemoveAt(dates, earliest);
      }
      dates := dates + [Selection(date, shift)];
      users := users[uid := user.(selectedDates := dates)];
      r := Selected;
    }
  }
}
