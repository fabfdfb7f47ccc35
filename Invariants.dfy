/** What the two handlers of backend/server.js guarantee when each request
    runs as one atomic step: every user holds at most one selection, every
    (date, shift) slot has at most two holders, and rejections change
    nothing. */
module Invariants {
  import opened Schema
  import opened Handlers

  /** Every user holds at most one (date, shift) pair. */
  ghost predicate SingleSelection(users: map<UserId, User>)
  {
    forall id :: id in users ==> |users[id].selectedDates| <= 1
  }

  /** No slot has more than `Capacity` holders. */
  ghost predicate WithinCapacity(users: map<UserId, User>)
  {
    forall date, shift :: |Holders(users, date, shift)| <= Capacity
  }

  ghost predicate Consistent(users: map<UserId, User>)
  {
    SingleSelection(users) && WithinCapacity(users)
  }

  /** No two records share both a name and a house number. */
  ghost predicate UniqueNames(users: map<UserId, User>)
  {
    forall a, b :: a in users && b in users && a != b ==>
      users[a].name != users[b].name || users[a].houseNo != users[b].houseNo
  }

  // ---------------------------------------------------------------------
  // The transfer of one selection

  /** Removing the element at `k` takes exactly that one element out. */
  lemma RemoveAtTakesOne(dates: seq<Selection>, k: nat)
    requires k < |dates|
    ensures multiset(RemoveAt(dates, k)) + multiset{dates[k]} == multiset(dates)
  {
    assert dates == dates[..k] + [dates[k]] + dates[k + 1..];
  }

  /** A successful selection leaves `max(1, n)` elements, the new pair last,
      and exchanges the earliest element for the new pair. */
  lemma TransferReplacesEarliest(dates: seq<Selection>, s: Selection)
    ensures |dates| == 0 ==> Transfer(dates, s) == [s]
    ensures |dates| > 0 ==>
              && |Transfer(dates, s)| == |dates|
              && Transfer(dates, s)[|dates| - 1] == s
              && multiset(Transfer(dates, s)) + multiset{dates[EarliestIndex(dates)]}
                 == multiset(dates) + multiset{s}
  {
    if |dates| > 0 {
      var k := EarliestIndex(dates);
      var kept := RemoveAt(dates, k);
      RemoveAtTakesOne(dates, k);
      assert Transfer(dates, s) == kept + [s];
      assert multiset(kept + [s]) == multiset(kept) + multiset{s};
    }
  }

  /** With at most one element before, a successful selection leaves
      exactly the new pair. */
  lemma TransferSingle(dates: seq<Selection>, s: Selection)
    requires |dates| <= 1
    ensures Transfer(dates, s) == [s]
  {
    if |dates| == 1 {
      assert EarliestIndex(dates) == 0;
      assert RemoveAt(dates, 0) == [];
    }
  }

  // ---------------------------------------------------------------------
  // The capacity query

  /** For a user with at most one selection the query without `$elemMatch`
      matches exactly when the user holds the slot. */
  lemma MatchesQueryIffHolds(u: User, date: Day, shift: Shift)
    requires |u.selectedDates| <= 1
    ensures MatchesQuery(u, date, shift) <==> Holds(u, date, shift)
  {
    if MatchesQuery(u, date, shift) {
      var e :| e in u.selectedDates && e.date == date;
      var f :| f in u.selectedDates && f.shift == shift;
      assert e == u.selectedDates[0] == f;
    }
  }

  /** With two selections the query can match a user that holds neither
      the date's shift nor the shift's date. */
  lemma MatchesQueryWithoutHolding(u: User, a: Selection, b: Selection)
    requires u.selectedDates == [a, b]
    requires a.date != b.date && a.shift != b.shift
    ensures MatchesQuery(u, a.date, b.shift)
    ensures !Holds(u, a.date, b.shift)
  {
    assert a in u.selectedDates && b in u.selectedDates;
  }

  /** When every user holds at most one selection, the users the capacity
      query returns are exactly the slot's holders. */
  lemma OccupantsAreHolders(users: map<UserId, User>, date: Day, shift: Shift)
    requires SingleSelection(users)
    ensures Occupants(users, date, shift) == Holders(users, date, shift)
    ensures Occupancy(users, date, shift) == |Holders(users, date, shift)|
  {
    forall id | id in users
      ensures MatchesQuery(users[id], date, shift) <==> Holds(users[id], date, shift)
    {
      MatchesQueryIffHolds(users[id], date, shift);
    }
  }

  // ---------------------------------------------------------------------
  // /api/select-date

  /** A successful selection turns a list of `n` elements into one of
      `max(1, n)`; every other user's list keeps its length. */
  lemma SelectLengths(users: map<UserId, User>, uid: UserId, date: Day, shift: Shift)
    ensures var m := AfterSelect(users, uid, date, shift);
            forall id :: id in m ==>
              |m[id].selectedDates| ==
                if id == uid && Verdict(users, uid, date, shift) == Selected
                then (if |users[id].selectedDates| == 0 then 1 else |users[id].selectedDates|)
                else |users[id].selectedDates|
  {
    if Verdict(users, uid, date, shift) == Selected {
      TransferReplacesEarliest(users[uid].selectedDates, Selection(date, shift));
    }
  }

  lemma SelectKeepsSingleSelection(users: map<UserId, User>, uid: UserId, date: Day, shift: Shift)
    requires SingleSelection(users)
    ensures SingleSelection(AfterSelect(users, uid, date, shift))
  {
    SelectLengths(users, uid, date, shift);
  }

  /** After a successful selection by a user holding at most one pair,
      the requester holds exactly the new slot. */
  lemma SelectedHoldsOnlyNewSlot(users: map<UserId, User>, uid: UserId, date: Day, shift: Shift)
    requires uid in users && |users[uid].selectedDates| <= 1
    requires Verdict(users, uid, date, shift) == Selected
    ensures AfterSelect(users, uid, date, shift)[uid].selectedDates == [Selection(date, shift)]
  {
    TransferSingle(users[uid].selectedDates, Selection(date, shift));
  }

  /** The holders of a slot after a successful selection: the requester
      leaves every other slot and joins the requested one. */
  lemma HoldersAfterSelect(users: map<UserId, User>, uid: UserId, date: Day, shift: Shift,
                           d: Day, s: Shift)
    requires SingleSelection(users)
    requires Verdict(users, uid, date, shift) == Selected
    ensures Holders(AfterSelect(users, uid, date, shift), d, s) ==
              if d == date && s == shift then Holders(users, d, s) + {uid}
              else Holders(users, d, s) - {uid}
  {
    var m := AfterSelect(users, uid, date, shift);
    SelectedHoldsOnlyNewSlot(users, uid, date, shift);
    assert Holds(m[uid], d, s) <==> d == date && s == shift;
  }

  /** A selection never pushes a slot over capacity: it only adds a holder
      to a slot the query found below capacity, and every holder matches
      the query. This needs no bound on the number of selections. */
  lemma SelectKeepsCapacity(users: map<UserId, User>, uid: UserId, date: Day, shift: Shift)
    requires WithinCapacity(users)
    ensures WithinCapacity(AfterSelect(users, uid, date, shift))
  {
    var m := AfterSelect(users, uid, date, shift);
    if Verdict(users, uid, date, shift) == Selected {
      forall d, s ensures |Holders(m, d, s)| <= Capacity {
        var before := Holders(users, d, s);
        assert |before| <= Capacity;
        if d == date && s == shift {
          assert |before| < Capacity;
          assert Holders(m, d, s) <= before + {uid};
          SubsetCardinality(Holders(m, d, s), before + {uid});
        } else {
          assert Holders(m, d, s) <= before;
          SubsetCardinality(Holders(m, d, s), before);
        }
      }
    }
  }

  lemma SelectKeepsConsistent(users: map<UserId, User>, uid: UserId, date: Day, shift: Shift)
    requires Consistent(users)
    ensures Consistent(AfterSelect(users, uid, date, shift))
  {
    SelectKeepsSingleSelection(users, uid, date, shift);
    SelectKeepsCapacity(users, uid, date, shift);
  }

  /** Moving from slot `a` to the requested slot takes one holder from `a`,
      adds one to the requested slot and leaves every other slot alone. */
  lemma SelectMovesOneHolder(users: map<UserId, User>, uid: UserId, a: Selection,
                             date: Day, shift: Shift)
    requires SingleSelection(users)
    requires uid in users && users[uid].selectedDates == [a]
    requires Verdict(users, uid, date, shift) == Selected
    ensures var m := AfterSelect(users, uid, date, shift);
            && |Holders(m, a.date, a.shift)| == |Holders(users, a.date, a.shift)| - 1
            && |Holders(m, date, shift)| == |Holders(users, date, shift)| + 1
            && forall d, s :: Selection(d, s) != a && Selection(d, s) != Selection(date, shift) ==>
                 Holders(m, d, s) == Holders(users, d, s)
  {
    var m := AfterSelect(users, uid, date, shift);
    assert a != Selection(date, shift);
    HoldersAfterSelect(users, uid, date, shift, a.date, a.shift);
    assert uid in Holders(users, a.date, a.shift);
    HoldersAfterSelect(users, uid, date, shift, date, shift);
    assert uid !in Holders(users, date, shift);
    forall d, s | Selection(d, s) != a && Selection(d, s) != Selection(date, shift)
      ensures Holders(m, d, s) == Holders(users, d, s)
    {
      HoldersAfterSelect(users, uid, date, shift, d, s);
      assert uid !in Holders(users, d, s);
    }
  }

  /** Repeating a request that succeeded is answered "already chosen" and
      changes nothing. */
  lemma RepeatedSelectRejected(users: map<UserId, User>, uid: UserId, date: Day, shift: Shift)
    requires Verdict(users, uid, date, shift) == Selected
    ensures var m := AfterSelect(users, uid, date, shift);
            && Verdict(m, uid, date, shift) == AlreadyChosen
            && AfterSelect(m, uid, date, shift) == m
  {
    var m := AfterSelect(users, uid, date, shift);
    TransferReplacesEarliest(users[uid].selectedDates, Selection(date, shift));
    var t := m[uid].selectedDates;
    assert t[|t| - 1] == Selection(date, shift);
  }

  /** Three users without selections ask for the same empty slot in turn:
      the first two get it, the third is told the slot is full, and the
      slot ends with exactly the first two as holders. */
  lemma ThirdRequestFindsSlotFull(users: map<UserId, User>, u1: UserId, u2: UserId, u3: UserId,
                                  date: Day, shift: Shift)
    requires SingleSelection(users)
    requires u1 in users && u2 in users && u3 in users
    requires u1 != u2 && u2 != u3 && u1 != u3
    requires users[u1].selectedDates == [] && users[u2].selectedDates == []
    requires users[u3].selectedDates == []
    requires Holders(users, date, shift) == {}
    ensures var m1 := AfterSelect(users, u1, date, shift);
            var m2 := AfterSelect(m1, u2, date, shift);
            && Verdict(users, u1, date, shift) == Selected
            && Verdict(m1, u2, date, shift) == Selected
            && Verdict(m2, u3, date, shift) == SlotFull
            && AfterSelect(m2, u3, date, shift) == m2
            && Holders(m2, date, shift) == {u1, u2}
  {
    OccupantsAreHolders(users, date, shift);
    assert Verdict(users, u1, date, shift) == Selected;
    var m1 := AfterSelect(users, u1, date, shift);
    HoldersAfterSelect(users, u1, date, shift, date, shift);
    SelectKeepsSingleSelection(users, u1, date, shift);
    OccupantsAreHolders(m1, date, shift);
    assert Holders(m1, date, shift) == {u1};
    assert Verdict(m1, u2, date, shift) == Selected;
    var m2 := AfterSelect(m1, u2, date, shift);
    HoldersAfterSelect(m1, u2, date, shift, date, shift);
    SelectKeepsSingleSelection(m1, u2, date, shift);
    OccupantsAreHolders(m2, date, shift);
    assert Holders(m2, date, shift) == {u1, u2};
    assert m2[u3] == users[u3];
    assert Verdict(m2, u3, date, shift) == SlotFull;
  }

  // ---------------------------------------------------------------------
  // /api/register

  /** Registration adds a user holding nothing, so no slot gains a holder. */
  lemma RegisterKeepsConsistent(users: map<UserId, User>, id: UserId,
                                name: string, houseNo: string, block: string, mobileNo: string)
    requires id !in users
    requires Consistent(users)
    ensures Consistent(AfterRegister(users, id, name, houseNo, block, mobileNo))
  {
    var m := AfterRegister(users, id, name, houseNo, block, mobileNo);
    forall d, s ensures Holders(m, d, s) == Holders(users, d, s) {
    }
  }

  /** The duplicate test admits a record only under a name and house
      number no record has yet, so names and house numbers stay unique. */
  lemma RegisterKeepsUniqueNames(users: map<UserId, User>, id: UserId,
                                 name: string, houseNo: string, block: string, mobileNo: string)
    requires id !in users
    requires UniqueNames(users)
    ensures UniqueNames(AfterRegister(users, id, name, houseNo, block, mobileNo))
  {
  }

  /** A select request changes no name or house number. */
  lemma SelectKeepsUniqueNames(users: map<UserId, User>, uid: UserId, date: Day, shift: Shift)
    requires UniqueNames(users)
    ensures UniqueNames(AfterSelect(users, uid, date, shift))
  {
  }

  // ---------------------------------------------------------------------
  // Any sequence of requests, served one at a time

  datatype Request =
    | RegisterRequest(name: string, houseNo: string, block: string, mobileNo: string)
    | SelectRequest(uid: UserId, date: Day, shift: Shift)

  /** The collection together with the next unused id. */
  datatype Collection = Collection(users: map<UserId, User>, nextId: UserId)

  ghost predicate FreshIds(c: Collection)
  {
    forall id :: id in c.users ==> id < c.nextId
  }

  /** One request served as one atomic step. */
  function Serve(c: Collection, req: Request): (c': Collection)
    requires FreshIds(c)
    ensures FreshIds(c')
    ensures c.users.Keys <= c'.users.Keys && c.nextId <= c'.nextId
    ensures req.SelectRequest? ==> c'.users.Keys == c.users.Keys && c'.nextId == c.nextId
    ensures forall id :: id in c.users && (req.RegisterRequest? || id != req.uid) ==>
              c'.users[id] == c.users[id]
  {
    match req
    case RegisterRequest(name, houseNo, block, mobileNo) =>
      if NameTaken(c.users, name, houseNo) then c
      else Collection(AfterRegister(c.users, c.nextId, name, houseNo, block, mobileNo), c.nextId + 1)
    case SelectRequest(uid, date, shift) =>
      Collection(AfterSelect(c.users, uid, date, shift), c.nextId)
  }

  function Replay(c: Collection, reqs: seq<Request>): (c': Collection)
    requires FreshIds(c)
    ensures FreshIds(c')
    ensures c.users.Keys <= c'.users.Keys && c.nextId <= c'.nextId
    ensures c'.nextId - c.nextId <= |reqs|
    decreases |reqs|
  {
    if |reqs| == 0 then c else Replay(Serve(c, reqs[0]), reqs[1..])
  }

  lemma {:induction false} ReplayKeepsConsistent(c: Collection, reqs: seq<Request>)
    requires FreshIds(c) && Consistent(c.users)
    ensures Consistent(Replay(c, reqs).users)
    decreases |reqs|
  {
    if |reqs| > 0 {
      match reqs[0] {
        case RegisterRequest(name, houseNo, block, mobileNo) =>
          if !NameTaken(c.users, name, houseNo) {
            RegisterKeepsConsistent(c.users, c.nextId, name, houseNo, block, mobileNo);
          }
        case SelectRequest(uid, date, shift) =>
          SelectKeepsConsistent(c.users, uid, date, shift);
      }
      ReplayKeepsConsistent(Serve(c, reqs[0]), reqs[1..]);
    }
  }

  lemma {:induction false} ReplayKeepsUniqueNames(c: Collection, reqs: seq<Request>)
    requires FreshIds(c) && UniqueNames(c.users)
    ensures UniqueNames(Replay(c, reqs).users)
    decreases |reqs|
  {
    if |reqs| > 0 {
      match reqs[0] {
        case RegisterRequest(name, houseNo, block, mobileNo) =>
          RegisterKeepsUniqueNames(c.users, c.nextId, name, houseNo, block, mobileNo);
        case SelectRequest(uid, date, shift) =>
          SelectKeepsUniqueNames(c.users, uid, date, shift);
      }
      ReplayKeepsUniqueNames(Serve(c, reqs[0]), reqs[1..]);
    }
  }

  /** From the empty collection, every sequence of requests leaves each
      user with at most one selection, each slot with at most two holders,
      and no two users with the same name and house number. */
  lemma ReplayFromEmpty(reqs: seq<Request>)
    ensures Consistent(Replay(Collection(map[], 0), reqs).users)
    ensures UniqueNames(Replay(Collection(map[], 0), reqs).users)
  {
    var c := Collection(map[], 0);
    forall d, s ensures |Holders(c.users, d, s)| <= Capacity {
      assert Holders(c.users, d, s) == {};
    }
    ReplayKeepsConsistent(c, reqs);
    ReplayKeepsUniqueNames(c, reqs);
  }
}
