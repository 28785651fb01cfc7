/** The user handlers: updating a profile, deleting an account (which also
    takes the user out of every wait list), and the counts a user's home
    page shows. Password hashing and checking are outside the model: their
    results arrive as parameters. */
module UserHandlers {
  import opened Base
  import opened Entities
  import opened WaitQueue
  import opened UserRules
  import opened CopyHandlers
  import opened Store

  // ---- updateUserHandler ----

  /** The request body: `role` and `isBlocked` may be absent, and so may the
      two passwords. */
  datatype UserUpdate = UserUpdate(
    id: UserId,
    name: string,
    email: string,
    phone: string,
    oldPassword: Option<string>,
    newPassword: Option<string>,
    role: Option<Role>,
    isBlocked: Option<bool>)

  /** Only an administrator may edit someone else, or set a role or the
      blocked flag. */
  predicate UpdateForbidden(caller: Caller, req: UserUpdate) {
    (req.id != caller.id || req.role.Some? || req.isBlocked.Some?) && caller.role != ADMIN
  }

  /** `oldPassword && newPassword`: both present and non-empty. */
  predicate ChangesPassword(req: UserUpdate) {
    req.oldPassword.Some? && req.oldPassword.value != "" && req.newPassword.Some? && req.newPassword.value != ""
  }

  /** `updateUserHandler`. `passwordMatches` is what checking the old
      password against the stored hash answers, `newHash` the hash of the
      new one. With a password change the stored phone is the formatted one;
      without, it is the phone as sent, although the duplicate check looked
      at the formatted one. An absent role or blocked flag is left as it was. */
  method UpdateUser(db: Database, caller: Caller, req: UserUpdate, passwordMatches: bool, newHash: string)
    returns (o: Outcome<User>)
    requires db.Valid()
    modifies db
    ensures db.Valid()
    ensures o.Fail? ==> db.State() == old(db.State())
    ensures o == Fail(Forbidden) <==> UpdateForbidden(caller, req)
    ensures o == Fail(NotFound) <==> !UpdateForbidden(caller, req) && UserIndex(old(db.users), req.id).None?
    ensures o.Fail? && o.failure.Rejected? ==>
      && !UpdateForbidden(caller, req) && UserIndex(old(db.users), req.id).Some?
      && var clash := UpdateUserValidation(old(db.users), req.id, req.name, req.email, FormatPhone(req.phone));
         if clash.Some? then o.failure.reason == clash.value
         else o.failure.reason == WrongPassword && ChangesPassword(req) && !passwordMatches
    ensures o.Fail? ==> o.failure.NotFound? || o.failure.Forbidden? || o.failure.Rejected?
    ensures o.Ok? ==>
      && !UpdateForbidden(caller, req) && UserIndex(old(db.users), req.id).Some?
      && UpdateUserValidation(old(db.users), req.id, req.name, req.email, FormatPhone(req.phone)).None?
      && (ChangesPassword(req) ==> passwordMatches)
      && var ui := UserIndex(old(db.users), req.id).value;
         var u := old(db.users)[ui];
         && o.value == u.(
              name := req.name,
              email := req.email,
              phone := if ChangesPassword(req) then FormatPhone(req.phone) else req.phone,
              password := if ChangesPassword(req) then newHash else u.password,
              role := if req.role.Some? then req.role.value else u.role,
              isBlocked := if req.isBlocked.Some? then req.isBlocked.value else u.isBlocked)
         && db.State() == old(db.State()).(users := old(db.users)[ui := o.value])
    ensures o.Ok? && caller.role != ADMIN ==>
      var u := old(db.users)[UserIndex(old(db.users), req.id).value];
      o.value.id == caller.id && o.value.role == u.role && o.value.isBlocked == u.isBlocked
  {
    if UpdateForbidden(caller, req) {
      return Fail(Forbidden);
    }
    var ui := UserIndex(db.users, req.id);
    if ui.None? {
      return Fail(NotFound);
    }
    var user := db.users[ui.value];
    var formattedPhone := FormatPhone(req.phone);
    var err := UpdateUserValidation(db.users, req.id, req.name, req.email, formattedPhone);
    if err.Some? {
      return Fail(Rejected(err.value));
    }
    var updated;
    if ChangesPassword(req) {
      if !passwordMatches {
        return Fail(Rejected(WrongPassword));
      }
      updated := user.(name := req.name, email := req.email, phone := formattedPhone, password := newHash);
    } else {
      updated := user.(name := req.name, email := req.email, phone := req.phone);
    }
    if req.role.Some? {
      updated := updated.(role := req.role.value);
    }
    if req.isBlocked.Some? {
      updated := updated.(isBlocked := req.isBlocked.value);
    }
    db.users := db.users[ui.value := updated];
    o := Ok(updated);
  }

  // ---- deleteUserHandler ----

  function OfUser(uid: UserId): WaitEntry -> bool {
    (e: WaitEntry) => e.userId == uid
  }

  /** `waitList.findMany({ where: { userId } })`: the user's entries, read
      once before the loop. */
  function Snapshot(w: seq<WaitEntry>, uid: UserId): (es: seq<WaitEntry>)
    ensures |es| == Count(w, OfUser(uid))
    ensures forall k :: 0 <= k < |es| ==> es[k] in w && es[k].userId == uid
  {
    var es := Filter(w, OfUser(uid));
    assert forall k :: 0 <= k < |es| ==> es[k] in es;
    es
  }

  /** The snapshot takes the user's entries from increasing rows of the
      table; with its length, that is every entry of the user, in table order. */
  lemma SnapshotInTableOrder(w: seq<WaitEntry>, uid: UserId)
    ensures exists idx :: OrderedPositions(idx, w, OfUser(uid)) && |idx| == |Snapshot(w, uid)|
                          && forall k :: 0 <= k < |idx| ==> Snapshot(w, uid)[k] == w[idx[k]]
  {
    var idx := FilterPositions(w, OfUser(uid));
    assert Snapshot(w, uid) == Filter(w, OfUser(uid));
  }

  /** One turn of the loop: delete the row with the entry's id, then move up
      the entries of its book behind the position the entry was read with.
      (On a well-formed table the row is always there; see `LeaveStep`.) */
  function ExitEntry(w: seq<WaitEntry>, e: WaitEntry): seq<WaitEntry> {
    match EntryIndex(w, e.id)
    case None => w
    case Some(i) => ShiftAfter(Removed(w, i), e.bookId, e.position)
  }

  /** The wait list after the loop has handled the entries `es` in order. */
  function WithoutEntries(w: seq<WaitEntry>, es: seq<WaitEntry>): seq<WaitEntry>
    decreases |es|
  {
    if |es| == 0 then w else ExitEntry(WithoutEntries(w, es[..|es| - 1]), es[|es| - 1])
  }

  /** The snapshot holds entries of one user, so of pairwise different books. */
  ghost predicate SnapshotOk(es: seq<WaitEntry>, uid: UserId) {
    && (forall k :: 0 <= k < |es| ==> es[k].userId == uid)
    && (forall a, b :: 0 <= a < b < |es| ==> es[a].bookId != es[b].bookId)
  }

  /** Before turn j: the entries not handled yet are still in the table as
      read, and they are the user's only entries left. */
  ghost predicate Pending(w: seq<WaitEntry>, es: seq<WaitEntry>, j: nat, uid: UserId)
    requires j <= |es|
  {
    && (forall k :: j <= k < |es| ==> es[k] in w)
    && (forall x :: x in w && x.userId == uid ==> x in es[j..])
  }

  lemma SnapshotStart(w: seq<WaitEntry>, next: nat, uid: UserId)
    requires WellFormed(w, next)
    ensures SnapshotOk(Snapshot(w, uid), uid) && Pending(w, Snapshot(w, uid), 0, uid)
  {
    var es := Snapshot(w, uid);
    forall x | x in w && x.userId == uid
      ensures x in es[0..]
    {
      FilterComplete(w, OfUser(uid), x);
      assert es[0..] == es;
    }
    FilterNoDup(w, OfUser(uid));
    forall a, b | 0 <= a < b < |es|
      ensures es[a].bookId != es[b].bookId
    {
      var ia :| 0 <= ia < |w| && w[ia] == es[a];
      var ib :| 0 <= ib < |w| && w[ib] == es[b];
      assert ia != ib;
    }
  }

  /** The entry handled in turn j is found under its id, unchanged. */
  lemma LeaveFind(w: seq<WaitEntry>, next: nat, es: seq<WaitEntry>, j: nat, uid: UserId) returns (i: nat)
    requires WellFormed(w, next) && j < |es| && Pending(w, es, j, uid)
    ensures i < |w| && w[i] == es[j] && EntryIndex(w, es[j].id) == Some(i)
  {
    assert es[j] in w;
    var k :| 0 <= k < |w| && w[k] == es[j];
    i := EntryIndex(w, es[j].id).value;
  }

  /** The entries still to handle are of other books, so they stay put. */
  lemma LeaveKeepsPending(w: seq<WaitEntry>, es: seq<WaitEntry>, j: nat, uid: UserId, i: nat)
    requires SnapshotOk(es, uid) && j < |es| && Pending(w, es, j, uid) && i < |w| && w[i] == es[j]
    ensures forall k :: j + 1 <= k < |es| ==> es[k] in Exit(w, i)
  {
    forall k | j + 1 <= k < |es|
      ensures es[k] in Exit(w, i)
    {
      var m :| 0 <= m < |w| && w[m] == es[k];
      ExitKeepsOtherBooks(w, i, m);
    }
  }

  /** After the turn, the user's entries left are the ones still to handle. */
  lemma LeaveLeavesOnlyPending(w: seq<WaitEntry>, next: nat, es: seq<WaitEntry>, j: nat, uid: UserId, i: nat)
    requires WellFormed(w, next) && SnapshotOk(es, uid) && j < |es| && Pending(w, es, j, uid)
    requires i < |w| && w[i] == es[j]
    ensures forall x :: x in Exit(w, i) && x.userId == uid ==> x in es[j + 1..]
  {
    var r := Exit(w, i);
    forall x | x in r && x.userId == uid
      ensures x in es[j + 1..]
    {
      var q :| 0 <= q < |r| && r[q] == x;
      var m := ExitSource(w, i, q);
      assert w[m] in es[j..];
      var k :| j <= k < |es| && es[k] == w[m];
      assert k != j;
      assert es[k] == es[j + 1..][k - j - 1];
    }
  }

  /** One turn keeps the table well formed and the loop's bookkeeping true;
      the entry is found under its id with the position it was read with. */
  lemma LeaveStep(w: seq<WaitEntry>, next: nat, es: seq<WaitEntry>, j: nat, uid: UserId) returns (i: nat)
    requires WellFormed(w, next) && SnapshotOk(es, uid) && j < |es| && Pending(w, es, j, uid)
    ensures i < |w| && w[i] == es[j] && EntryIndex(w, es[j].id) == Some(i)
    ensures ExitEntry(w, es[j]) == Exit(w, i)
    ensures WellFormed(Exit(w, i), next) && Pending(Exit(w, i), es, j + 1, uid)
  {
    i := LeaveFind(w, next, es, j, uid);
    ExitKeepsWellFormed(w, i, next);
    LeaveKeepsPending(w, es, j, uid, i);
    LeaveLeavesOnlyPending(w, next, es, j, uid, i);
  }

  /** One turn of the loop: `waitList.delete` by id, then `updateMany`. */
  method LeaveQueue(db: Database, e: WaitEntry)
    requires EntryIndex(db.waitList, e.id).Some?
    modifies db
    ensures db.State() == old(db.State()).(waitList := ExitEntry(old(db.waitList), e))
  {
    var found := EntryIndex(db.waitList, e.id);
    db.waitList := Removed(db.waitList, found.value);
    db.ShiftPositions(e.bookId, e.position);
  }

  /** The loop of `deleteUserHandler` over the user's entries. */
  method LeaveAllQueues(db: Database, uid: UserId)
    requires db.Valid()
    modifies db
    ensures db.Valid()
    ensures db.State() == old(db.State()).(waitList := WithoutEntries(old(db.waitList), Snapshot(old(db.waitList), uid)))
    ensures forall k :: 0 <= k < |db.waitList| ==> db.waitList[k].userId != uid
    ensures |db.waitList| == |old(db.waitList)| - Count(old(db.waitList), OfUser(uid))
  {
    var entries := Snapshot(db.waitList, uid);
    SnapshotStart(db.waitList, db.nextEntryId, uid);
    ghost var w0 := db.waitList;
    assert entries[..0] == [];
    var j := 0;
    while j < |entries|
      invariant 0 <= j <= |entries|
      invariant WellFormed(db.waitList, db.nextEntryId)
      invariant db.State() == old(db.State()).(waitList := db.waitList)
      invariant db.waitList == WithoutEntries(w0, entries[..j])
      invariant Pending(db.waitList, entries, j, uid)
      invariant |db.waitList| == |w0| - j
    {
      var i := LeaveStep(db.waitList, db.nextEntryId, entries, j, uid);
      WithoutEntriesSnoc(w0, entries, j);
      LeaveQueue(db, entries[j]);
      j := j + 1;
    }
    assert entries[..j] == entries;
    NoneLeft(db.waitList, entries, uid);
  }

  lemma WithoutEntriesSnoc(w: seq<WaitEntry>, es: seq<WaitEntry>, j: nat)
    requires j < |es|
    ensures WithoutEntries(w, es[..j + 1]) == ExitEntry(WithoutEntries(w, es[..j]), es[j])
  {
    assert es[..j + 1][..j] == es[..j];
  }

  /** With every entry handled, none of the user's is left. */
  lemma NoneLeft(w: seq<WaitEntry>, es: seq<WaitEntry>, uid: UserId)
    requires Pending(w, es, |es|, uid)
    ensures forall k :: 0 <= k < |w| ==> w[k].userId != uid
  {
    forall k | 0 <= k < |w|
      ensures w[k].userId != uid
    {
      assert w[k] in w;
    }
  }

  /** `deleteUserHandler`. The user's wait-list entries are removed one by
      one, each closing the gap in its book's queue, then the user row. */
  method DeleteUser(db: Database, caller: Caller, id: UserId) returns (o: Outcome<()>)
    requires db.Valid()
    modifies db
    ensures db.Valid()
    ensures o.Fail? ==> db.State() == old(db.State())
    ensures o == Fail(Forbidden) <==> id != caller.id && caller.role != ADMIN
    ensures o == Fail(NotFound) <==> !(id != caller.id && caller.role != ADMIN) && UserIndex(old(db.users), id).None?
    ensures o == Fail(Rejected(HasActiveLoans)) <==>
      !(id != caller.id && caller.role != ADMIN) && UserIndex(old(db.users), id).Some?
      && DeleteUserValidation(old(db.loans), id).Some?
    ensures o.Fail? ==> o.failure in {Forbidden, NotFound, Rejected(HasActiveLoans)}
    ensures o.Ok? ==>
      && UserIndex(old(db.users), id).Some?
      && var ui := UserIndex(old(db.users), id).value;
         db.State() == old(db.State()).(
           users := old(db.users)[..ui] + old(db.users)[ui + 1..],
           waitList := WithoutEntries(old(db.waitList), Snapshot(old(db.waitList), id)))
    ensures o.Ok? ==> forall k :: 0 <= k < |db.waitList| ==> db.waitList[k].userId != id
    ensures o.Ok? ==> |db.waitList| == |old(db.waitList)| - Count(old(db.waitList), OfUser(id))
  {
    if id != caller.id && caller.role != ADMIN {
      return Fail(Forbidden);
    }
    var ui := UserIndex(db.users, id);
    if ui.None? {
      return Fail(NotFound);
    }
    var err := DeleteUserValidation(db.loans, id);
    if err.Some? {
      return Fail(Rejected(err.value));
    }
    LeaveAllQueues(db, id);
    RemoveUserRow(db, ui.value);
    o := Ok(());
  }

  /** `user.delete`: row ui of the users table goes; nothing else changes. */
  method RemoveUserRow(db: Database, ui: nat)
    requires db.Valid() && ui < |db.users|
    modifies db
    ensures db.Valid()
    ensures db.State() == old(db.State()).(users := old(db.users)[..ui] + old(db.users)[ui + 1..])
  {
    db.users := db.users[..ui] + db.users[ui + 1..];
  }

  // ---- getDataHandler ----

  datatype UserData = UserData(copies: nat, availableCopies: nat, loanedCopies: int, userCopies: seq<Loan>)

  function Free(): Copy -> bool {
    (c: Copy) => !c.isLoaned
  }

  function LoansOf(uid: UserId): Loan -> bool {
    (l: Loan) => l.userId == Some(uid)
  }

  /** `getDataHandler`: every copy, the free ones, their difference, and
      the caller's loans. The difference is the number of copies on loan. */
  function GetData(db: Database, caller: Caller): (r: UserData)
    reads db
    ensures r.copies == |db.copies| && r.availableCopies == Count(db.copies, Free())
    ensures r.loanedCopies == LoanedCopies(db.copies) && r.loanedCopies >= 0
    ensures forall l :: l in r.userCopies ==> l in db.loans && l.userId == Some(caller.id)
    ensures forall l :: l in db.loans && l.userId == Some(caller.id) ==> l in r.userCopies
  {
    CountComplement(db.copies, OnLoan(), Free());
    var mine := Filter(db.loans, LoansOf(caller.id));
    assert forall l :: l in db.loans && l.userId == Some(caller.id) ==> l in mine by {
      forall l | l in db.loans && l.userId == Some(caller.id)
        ensures l in mine
      {
        FilterComplete(db.loans, LoansOf(caller.id), l);
      }
    }
    var available := Count(db.copies, Free());
    UserData(|db.copies|, available, |db.copies| - available, mine)
  }
}
