/** The decisions of the two handlers of backend/server.js, stated over the
    collection as a map from user id to record. `Server.Store` performs
    them in place; the lemmas of `Invariants` are stated about them. */
module Handlers {
  import opened Schema

  /** Outcome of `/api/register`. */
  datatype RegisterOutcome = Registered(id: UserId) | Conflict

  /** Outcome of `/api/select-date`: success, the two 400 rejections, and
      the unknown user whose null record makes the handler fail. */
  datatype SelectOutcome = Selected | AlreadyChosen | SlotFull | NotFound

  /** `User.findOne({ name, houseNo })` finds a record. */
  predicate NameTaken(users: map<UserId, User>, name: string, houseNo: string)
  {
    exists id :: id in users && users[id].name == name && users[id].houseNo == houseNo
  }

  /** The collection after registering under the fresh id `id`. */
  function AfterRegister(users: map<UserId, User>, id: UserId,
                         name: string, houseNo: string, block: string, mobileNo: string)
    : (m: map<UserId, User>)
    requires id !in users
    ensures NameTaken(users, name, houseNo) ==> m == users
    ensures !NameTaken(users, name, houseNo) ==>
              && m.Keys == users.Keys + {id}
              && m[id].name == name && m[id].houseNo == houseNo
              && m[id].block == block && m[id].mobileNo == mobileNo
              && m[id].selectedDates == []
    ensures forall other :: other in users ==> other in m && m[other] == users[other]
    ensures NameTaken(m, name, houseNo)
  {
    if NameTaken(users, name, houseNo) then users
    else users[id := NewUser(name, houseNo, block, mobileNo)]
  }

  /** Which answer `/api/select-date` gives, in the order the handler tests:
      unknown user, same day and shift already chosen, slot full. */
  function Verdict(users: map<UserId, User>, uid: UserId, date: Day, shift: Shift)
    : (r: SelectOutcome)
    ensures r == NotFound <==> uid !in users
    ensures r == AlreadyChosen <==> uid in users && Holds(users[uid], date, shift)
    ensures r == SlotFull <==>
              && uid in users && !Holds(users[uid], date, shift)
              && Occupancy(users, date, shift) >= Capacity
    ensures r == Selected ==> Occupancy(users, date, shift) < Capacity
  {
    if uid !in users then NotFound
    else if FindSelection(users[uid].selectedDates, date, shift) != -1 then AlreadyChosen
    else if Occupancy(users, date, shift) >= Capacity then SlotFull
    else Selected
  }

  /** The collection after `/api/select-date`: unchanged on every
      rejection; on success only the requester's array changes. */
  function AfterSelect(users: map<UserId, User>, uid: UserId, date: Day, shift: Shift)
    : (m: map<UserId, User>)
    ensures m.Keys == users.Keys
    ensures forall id :: id in users && id != uid ==> m[id] == users[id]
    ensures Verdict(users, uid, date, shift) != Selected ==> m == users
    ensures Verdict(users, uid, date, shift) == Selected ==>
              && m[uid].name == users[uid].name && m[uid].houseNo == users[uid].houseNo
              && m[uid].block == users[uid].block && m[uid].mobileNo == users[uid].mobileNo
              && m[uid].selectedDates == Transfer(users[uid].selectedDates, Selection(date, shift))
  {
    if Verdict(users, uid, date, shift) == Selected then
      users[uid := users[uid].(selectedDates := Transfer(users[uid].selectedDates, Selection(date, shift)))]
    else
      users
  }
}
