/** The loan handlers, each one atomic step on the database. A handler that
    fails changes nothing: its checks all run before its first write, which
    is how the source's transactions behave when a write inside them throws
    (`RolledBack`). Email notifications sent after a step are not modelled. */
module LoanHandlers {
  import opened Base
  import opened Chars
  import opened Calendar
  import opened Entities
  import opened WaitQueue
  import opened LoanRules
  import opened CopyRules
  import opened Store

  /** The audit row every loan transition appends. */
  function LoanLog(caller: Caller, action: Action, id: nat, now: Instant): AdminLog {
    AdminLog(caller.id, caller.name, action, LOAN, NatToString(id), "Empréstimo N.º " + NatToString(id), now)
  }

  /** A loan closed by return or termination: archived, dated, and cut loose
      from its user, book and copy. */
  function Closed(l: Loan, status: LoanStatus, now: Instant): (r: Loan)
    ensures r.id == l.id && r.status == status && r.archived && r.returnDate == Some(now)
    ensures r.userId.None? && r.bookId.None? && r.copyId.None?
    ensures r.userName == l.userName && r.bookTitle == l.bookTitle && r.isbn == l.isbn
    ensures r.loanDate == l.loanDate && r.expirationDate == l.expirationDate && r.postponed == l.postponed
  {
    l.(status := status, archived := true, returnDate := Some(now), userId := None, bookId := None, copyId := None)
  }

  /** A loan of this user on this book exists in the table. */
  function OwnLoanIndex(loans: seq<Loan>, id: nat, uid: UserId): Option<nat> {
    FindFirst(loans, (l: Loan) => l.id == id && l.userId == Some(uid))
  }

  function FreeCopyIndex(copies: seq<Copy>, bid: nat): Option<nat> {
    FindFirst(copies, FreeCopyOf(bid))
  }

  /** A loan request: the loan is appended with the next id and copy ci is
      marked loaned. */
  function Requesting(t: Tables, loan: Loan, ci: nat): Tables
    requires ci < |t.copies|
  {
    t.(loans := t.loans + [loan],
       copies := t.copies[ci := t.copies[ci].(isLoaned := true)],
       nextLoanId := t.nextLoanId + 1)
  }

  lemma RequestingKeepsValid(t: Tables, loan: Loan, ci: nat)
    requires TablesValid(t) && ci < |t.copies| && loan.id == t.nextLoanId
    ensures TablesValid(Requesting(t, loan, ci))
  {
    LoanIdsAppend(t.loans, loan, t.nextLoanId);
    CopyIdsUpdate(t.copies, ci, t.copies[ci].(isLoaned := true), t.nextCopyId);
  }

  method ApplyRequest(db: Database, loan: Loan, ci: nat)
    requires ci < |db.copies|
    modifies db
    ensures db.State() == Requesting(old(db.State()), loan, ci)
  {
    var copy := db.copies[ci];
    db.loans := db.loans + [loan];
    db.nextLoanId := db.nextLoanId + 1;
    db.copies := db.copies[ci := copy.(isLoaned := true)];
  }

  /** `createLoanHandler`. The copy is the first free copy of any book (the
      source does not filter by book); the request expires at the end of the
      third weekday after the (weekend-adjusted) request time. */
  method CreateLoan(db: Database, caller: Caller, bookId: nat, now: Instant) returns (o: Outcome<Loan>)
    requires db.Valid()
    modifies db
    ensures db.Valid()
    ensures o.Fail? ==> db.State() == old(db.State())
    ensures o == Fail(NotFound) <==>
      UserIndex(old(db.users), caller.id).None? || BookIndex(old(db.books), bookId).None? || CopyForLoan(old(db.copies)).None?
    ensures o.Fail? && o != Fail(NotFound) ==>
      var u := old(db.users)[UserIndex(old(db.users), caller.id).value];
      var b := old(db.books)[BookIndex(old(db.books), bookId).value];
      CreateLoanValidation(u, b, old(db.loans), now).Some?
      && o == Fail(Rejected(CreateLoanValidation(u, b, old(db.loans), now).value))
    ensures o.Ok? ==>
      && UserIndex(old(db.users), caller.id).Some? && BookIndex(old(db.books), bookId).Some? && CopyForLoan(old(db.copies)).Some?
      && var u := old(db.users)[UserIndex(old(db.users), caller.id).value];
         var b := old(db.books)[BookIndex(old(db.books), bookId).value];
         var ci := CopyForLoan(old(db.copies)).value;
         var c := old(db.copies)[ci];
         && CreateLoanValidation(u, b, old(db.loans), now).None?
         && o.value.(expirationDate := None) ==
              Loan(old(db.nextLoanId), u.name, Some(caller.id), b.title, Some(bookId), c.isbn, Some(c.id),
                   None, None, None, REQUESTED, false, false)
         && db.State() == Requesting(old(db.State()), o.value, ci)
    ensures o.Ok? ==>
      && o.value.expirationDate.Some?
      && var e := o.value.expirationDate.value;
         && e == EndOfDay(DayOf(e)) && !IsWeekend(DayOf(e))
         && WeekdaysBetween(DayOf(ShiftOffWeekend(now)), DayOf(e)) == 3
  {
    var ui := UserIndex(db.users, caller.id);
    var bi := BookIndex(db.books, bookId);
    var ci := CopyForLoan(db.copies);
    if ui.None? || bi.None? || ci.None? {
      return Fail(NotFound);
    }
    var user, book, copy := db.users[ui.value], db.books[bi.value], db.copies[ci.value];
    var err := CreateLoanValidation(user, book, db.loans, now);
    if err.Some? {
      return Fail(Rejected(err.value));
    }
    var due := AdjustExpirationDate(now, 3);
    var expiration := EndOfDay(DayOf(due));
    DayOfEndOfDay(DayOf(due));
    var loan := Loan(db.nextLoanId, user.name, Some(caller.id), book.title, Some(bookId), copy.isbn, Some(copy.id),
                     None, Some(expiration), None, REQUESTED, false, false);
    RequestingKeepsValid(db.State(), loan, ci.value);
    ApplyRequest(db, loan, ci.value);
    o := Ok(loan);
  }

  /** A started loan: lent now, due at the end of the seventh day from now. */
  function Started(l: Loan, now: Instant): Loan {
    l.(loanDate := Some(now), expirationDate := Some(EndOfDay(DayOf(now) + 7)), status := ONGOING)
  }

  /** Start: loan li is started, book bi loses one available copy, and a
      START log is appended. */
  function Starting(t: Tables, li: nat, bi: nat, caller: Caller, now: Instant): Tables
    requires li < |t.loans| && bi < |t.books|
  {
    var b := t.books[bi];
    t.(loans := t.loans[li := Started(t.loans[li], now)],
       books := t.books[bi := b.(copiesAvailable := b.copiesAvailable - 1)],
       logs := t.logs + [LoanLog(caller, START, t.loans[li].id, now)])
  }

  lemma StartingKeepsValid(t: Tables, li: nat, bi: nat, caller: Caller, now: Instant)
    requires TablesValid(t) && li < |t.loans| && bi < |t.books|
    ensures TablesValid(Starting(t, li, bi, caller, now))
  {
    LoanIdsUpdate(t.loans, li, Started(t.loans[li], now), t.nextLoanId);
  }

  method ApplyStart(db: Database, li: nat, bi: nat, caller: Caller, now: Instant)
    requires li < |db.loans| && bi < |db.books|
    modifies db
    ensures db.State() == Starting(old(db.State()), li, bi, caller, now)
  {
    var book := db.books[bi];
    var loan := db.loans[li];
    db.loans := db.loans[li := Started(loan, now)];
    db.books := db.books[bi := book.(copiesAvailable := book.copiesAvailable - 1)];
    db.logs := db.logs + [LoanLog(caller, START, loan.id, now)];
  }

  /** How a committed start ended. `Unnotified`: the loan has no user, or
      its user row is gone, so looking up the recipient of the notice throws
      after the commit and the client gets a server error. */
  datatype StartReport = Notified(loan: Loan) | Unnotified

  /** `startLoanHandler`. Any loan can be started, whatever its status; the
      book whose title the loan carries loses one available copy. */
  method StartLoan(db: Database, caller: Caller, id: nat, now: Instant) returns (o: Outcome<StartReport>)
    requires db.Valid()
    modifies db
    ensures db.Valid()
    ensures o.Fail? ==> db.State() == old(db.State())
    ensures o == Fail(NotFound) <==> LoanIndex(old(db.loans), id).None?
    ensures o == Fail(RolledBack) <==>
      LoanIndex(old(db.loans), id).Some?
      && BookIndexByTitle(old(db.books), old(db.loans)[LoanIndex(old(db.loans), id).value].bookTitle).None?
    ensures o.Fail? ==> o == Fail(NotFound) || o == Fail(RolledBack)
    ensures o.Ok? ==>
      && LoanIndex(old(db.loans), id).Some?
      && var li := LoanIndex(old(db.loans), id).value;
         var l := old(db.loans)[li];
         && BookIndexByTitle(old(db.books), l.bookTitle).Some?
         && var bi := BookIndexByTitle(old(db.books), l.bookTitle).value;
            var b := old(db.books)[bi];
            && (o.value.Notified? <==> l.userId.Some? && UserIndex(old(db.users), l.userId.value).Some?)
            && (o.value.Notified? ==>
                  o.value.loan == l.(loanDate := Some(now), expirationDate := Some(EndOfDay(DayOf(now) + 7)), status := ONGOING))
            && db.State() == Starting(old(db.State()), li, bi, caller, now)
  {
    var li := LoanIndex(db.loans, id);
    if li.None? {
      return Fail(NotFound);
    }
    var loan := db.loans[li.value];
    var bi := BookIndexByTitle(db.books, loan.bookTitle);
    if bi.None? {
      return Fail(RolledBack);
    }
    StartingKeepsValid(db.State(), li.value, bi.value, caller, now);
    ApplyStart(db, li.value, bi.value, caller, now);
    if loan.userId.None? || UserIndex(db.users, loan.userId.value).None? {
      return Ok(Unnotified);
    }
    o := Ok(Notified(Started(loan, now)));
  }

  /** `postponeLoanHandler`: only the caller's own loan; seven more calendar
      days at the same time of day. A loan without an expiration date gets
      no answer and no change. */
  method PostponeLoan(db: Database, caller: Caller, id: nat) returns (o: Outcome<Loan>)
    requires db.Valid()
    modifies db
    ensures db.Valid()
    ensures o.Fail? ==> db.State() == old(db.State())
    ensures o == Fail(NotFound) <==> OwnLoanIndex(old(db.loans), id, caller.id).None?
    ensures OwnLoanIndex(old(db.loans), id, caller.id).Some? ==>
      var l := old(db.loans)[OwnLoanIndex(old(db.loans), id, caller.id).value];
      && (PostponeLoanValidation(l, old(db.waitList)).Some? <==> o.Fail? && o.failure.Rejected?)
      && (PostponeLoanValidation(l, old(db.waitList)).Some? ==> o == Fail(Rejected(PostponeLoanValidation(l, old(db.waitList)).value)))
      && (PostponeLoanValidation(l, old(db.waitList)).None? && l.expirationDate.None? <==> o == Fail(NoReply))
      && (PostponeLoanValidation(l, old(db.waitList)).None? && l.expirationDate.Some? <==> o.Ok?)
    ensures o.Ok? ==>
      && OwnLoanIndex(old(db.loans), id, caller.id).Some?
      && var li := OwnLoanIndex(old(db.loans), id, caller.id).value;
         var l := old(db.loans)[li];
         && l.expirationDate.Some? && !l.postponed
         && o.value == l.(expirationDate := Some(AddDays(l.expirationDate.value, 7)), postponed := true)
         && db.State() == old(db.State()).(loans := old(db.loans)[li := o.value])
  {
    var li := OwnLoanIndex(db.loans, id, caller.id);
    if li.None? {
      return Fail(NotFound);
    }
    var loan := db.loans[li.value];
    var err := PostponeLoanValidation(loan, db.waitList);
    if err.Some? {
      return Fail(Rejected(err.value));
    }
    if loan.expirationDate.None? {
      return Fail(NoReply);
    }
    var postponed := loan.(expirationDate := Some(AddDays(loan.expirationDate.value, 7)), postponed := true);
    LoanIdsUpdate(db.loans, li.value, postponed, db.nextLoanId);
    db.loans := db.loans[li.value := postponed];
    o := Ok(postponed);
  }

  /** How a return ended. `PromotionSkipped`: somebody waits but no copy of
      the book is free; the client is told "not found" although the return
      itself is committed. */
  datatype ReturnReport = Returned | Promoted(loan: Loan) | PromotionSkipped

  /** The return proper: the book (row bi) gains an available copy, the copy
      with the loan's ISBN (row ci) is freed, the loan (row li) is closed as
      RETURNED, and a RETURN log is appended. */
  function Returning(t: Tables, li: nat, bi: nat, ci: nat, caller: Caller, now: Instant): Tables
    requires li < |t.loans| && bi < |t.books| && ci < |t.copies|
  {
    var b := t.books[bi];
    t.(books := t.books[bi := b.(copiesAvailable := b.copiesAvailable + 1)],
       copies := t.copies[ci := t.copies[ci].(isLoaned := false)],
       loans := t.loans[li := Closed(t.loans[li], RETURNED, now)],
       logs := t.logs + [LoanLog(caller, RETURN, t.loans[li].id, now)])
  }

  /** The loan the head of the queue (entry e) receives on copy c. */
  function PromotedLoan(t: Tables, e: WaitEntry, l: Loan, c: Copy, now: Instant, status: LoanStatus): Loan {
    Loan(t.nextLoanId, e.userName, Some(e.userId), l.bookTitle, l.bookId, c.isbn, Some(c.id),
         None, Some(AddDays(now, 3)), None, status, false, false)
  }

  /** Promotion: the new loan is appended, copy fi is marked loaned, entry
      `head` leaves the queue and the rest of its book's queue moves up. */
  function Promoting(t: Tables, head: nat, fi: nat, promoted: Loan): Tables
    requires head < |t.waitList| && fi < |t.copies|
  {
    t.(loans := t.loans + [promoted],
       copies := t.copies[fi := t.copies[fi].(isLoaned := true)],
       waitList := Promote(t.waitList, head),
       nextLoanId := t.nextLoanId + 1)
  }

  lemma ReturningKeepsValid(t: Tables, li: nat, bi: nat, ci: nat, caller: Caller, now: Instant)
    requires TablesValid(t) && li < |t.loans| && bi < |t.books| && ci < |t.copies|
    ensures TablesValid(Returning(t, li, bi, ci, caller, now))
  {
    LoanIdsUpdate(t.loans, li, Closed(t.loans[li], RETURNED, now), t.nextLoanId);
    CopyIdsUpdate(t.copies, ci, t.copies[ci].(isLoaned := false), t.nextCopyId);
  }

  lemma PromotingKeepsValid(t: Tables, b: nat, fi: nat, promoted: Loan)
    requires TablesValid(t) && HeadIndex(t.waitList, b).Some? && fi < |t.copies| && promoted.id == t.nextLoanId
    ensures TablesValid(Promoting(t, HeadIndex(t.waitList, b).value, fi, promoted))
  {
    LoanIdsAppend(t.loans, promoted, t.nextLoanId);
    CopyIdsUpdate(t.copies, fi, t.copies[fi].(isLoaned := true), t.nextCopyId);
    PromoteKeepsWellFormed(t.waitList, b, t.nextEntryId);
  }

  method ApplyReturn(db: Database, li: nat, bi: nat, ci: nat, caller: Caller, now: Instant)
    requires li < |db.loans| && bi < |db.books| && ci < |db.copies|
    modifies db
    ensures db.State() == Returning(old(db.State()), li, bi, ci, caller, now)
  {
    var book := db.books[bi];
    var loan := db.loans[li];
    db.books := db.books[bi := book.(copiesAvailable := book.copiesAvailable + 1)];
    db.copies := db.copies[ci := db.copies[ci].(isLoaned := false)];
    db.loans := db.loans[li := Closed(loan, RETURNED, now)];
    db.logs := db.logs + [LoanLog(caller, RETURN, loan.id, now)];
  }

  method ApplyPromotion(db: Database, head: nat, fi: nat, promoted: Loan)
    requires head < |db.waitList| && fi < |db.copies|
    modifies db
    ensures db.State() == Promoting(old(db.State()), head, fi, promoted)
  {
    var b := db.waitList[head].bookId;
    var copy := db.copies[fi];
    db.loans := db.loans + [promoted];
    db.nextLoanId := db.nextLoanId + 1;
    db.copies := db.copies[fi := copy.(isLoaned := true)];
    db.waitList := Removed(db.waitList, head);
    db.ShiftPositions(b, 1);
  }

  /** A return of loan row li that the database undoes: the book or the
      copy with the loan's ISBN is missing, or the head of the book's queue
      would be promoted but has no user row. */
  predicate ReturnRollsBack(t: Tables, li: nat)
    requires li < |t.loans|
  {
    var l := t.loans[li];
    l.bookId.Some? &&
    var bi := BookIndex(t.books, l.bookId.value);
    var ci := CopyIndexByIsbn(t.copies, l.isbn);
    || bi.None?
    || ci.None?
    || var freed := t.copies[ci.value := t.copies[ci.value].(isLoaned := false)];
       var head := HeadIndex(t.waitList, l.bookId.value);
       && head.Some?
       && FreeCopyIndex(freed, l.bookId.value).Some?
       && UserIndex(t.users, t.waitList[head.value].userId).None?
  }

  /** `returnLoanHandler`. No status check: any loan with a book can be
      returned. If somebody waits for the book, the head of its queue gets a
      new loan on the first free copy of the book (looked up after the
      returned copy is freed), expiring three calendar days from now, and
      leaves the queue. The new loan's status is the database default,
      `promotedStatus` here. A waiter whose user row is missing makes the
      whole transaction roll back. */
  method ReturnLoan(db: Database, caller: Caller, id: nat, now: Instant, promotedStatus: LoanStatus)
    returns (o: Outcome<ReturnReport>)
    requires db.Valid()
    modifies db
    ensures db.Valid()
    ensures o.Fail? ==> db.State() == old(db.State())
    ensures o == Fail(NotFound) <==>
      LoanIndex(old(db.loans), id).None? || old(db.loans)[LoanIndex(old(db.loans), id).value].bookId.None?
    ensures o.Fail? ==> o == Fail(NotFound) || o == Fail(RolledBack)
    ensures o == Fail(RolledBack) <==>
      LoanIndex(old(db.loans), id).Some? && ReturnRollsBack(old(db.State()), LoanIndex(old(db.loans), id).value)
    ensures o.Ok? ==>
      && LoanIndex(old(db.loans), id).Some?
      && var li := LoanIndex(old(db.loans), id).value;
         var l := old(db.loans)[li];
         && l.bookId.Some?
         && BookIndex(old(db.books), l.bookId.value).Some?
         && CopyIndexByIsbn(old(db.copies), l.isbn).Some?
         && var t1 := Returning(old(db.State()), li, BookIndex(old(db.books), l.bookId.value).value,
                                CopyIndexByIsbn(old(db.copies), l.isbn).value, caller, now);
            var head := HeadIndex(old(db.waitList), l.bookId.value);
            var fi := FreeCopyIndex(t1.copies, l.bookId.value);
            && (head.None? ==> o.value == Returned && db.State() == t1)
            && (head.Some? && fi.None? ==> o.value == PromotionSkipped && db.State() == t1)
            && (head.Some? && fi.Some? ==>
                  var e := old(db.waitList)[head.value];
                  && UserIndex(old(db.users), e.userId).Some?
                  && o.value == Promoted(PromotedLoan(t1, e, l, t1.copies[fi.value], now, promotedStatus))
                  && db.State() == Promoting(t1, head.value, fi.value, o.value.loan))
  {
    var li := LoanIndex(db.loans, id);
    if li.None? {
      return Fail(NotFound);
    }
    var loan := db.loans[li.value];
    if loan.bookId.None? {
      return Fail(NotFound);
    }
    var bookId := loan.bookId.value;
    var bi := BookIndex(db.books, bookId);
    var ci := CopyIndexByIsbn(db.copies, loan.isbn);
    if bi.None? || ci.None? {
      return Fail(RolledBack);
    }
    ghost var t0 := db.State();
    var t1 := Returning(db.State(), li.value, bi.value, ci.value, caller, now);
    var head := HeadIndex(db.waitList, bookId);
    var fi := FreeCopyIndex(t1.copies, bookId);
    // A missing waiter undoes the whole transaction, so it is checked
    // before the first write.
    if head.Some? && fi.Some? && UserIndex(db.users, db.waitList[head.value].userId).None? {
      return Fail(RolledBack);
    }
    ReturningKeepsValid(t0, li.value, bi.value, ci.value, caller, now);
    ApplyReturn(db, li.value, bi.value, ci.value, caller, now);
    if head.None? {
      return Ok(Returned);
    }
    if fi.None? {
      return Ok(PromotionSkipped);
    }
    var promoted := PromotedLoan(t1, db.waitList[head.value], loan, db.copies[fi.value], now, promotedStatus);
    PromotingKeepsValid(t1, bookId, fi.value, promoted);
    ApplyPromotion(db, head.value, fi.value, promoted);
    o := Ok(Promoted(promoted));
  }

  /** Termination: the book (row bi) loses one copy in `copies`, the copy
      (row ci) is deleted, the loan (row li) is closed as TERMINATED, and a
      TERMINATE log is appended. `copiesAvailable` is left as it was. */
  function Terminating(t: Tables, li: nat, bi: nat, ci: nat, caller: Caller, now: Instant): Tables
    requires li < |t.loans| && bi < |t.books| && ci < |t.copies|
  {
    var b := t.books[bi];
    t.(books := t.books[bi := b.(copies := b.copies - 1)],
       copies := t.copies[..ci] + t.copies[ci + 1..],
       loans := t.loans[li := Closed(t.loans[li], TERMINATED, now)],
       logs := t.logs + [LoanLog(caller, TERMINATE, t.loans[li].id, now)])
  }

  lemma TerminatingKeepsValid(t: Tables, li: nat, bi: nat, ci: nat, caller: Caller, now: Instant)
    requires TablesValid(t) && li < |t.loans| && bi < |t.books| && ci < |t.copies|
    ensures TablesValid(Terminating(t, li, bi, ci, caller, now))
  {
    CopyIdsRemove(t.copies, ci, t.nextCopyId);
    LoanIdsUpdate(t.loans, li, Closed(t.loans[li], TERMINATED, now), t.nextLoanId);
  }

  method ApplyTermination(db: Database, li: nat, bi: nat, ci: nat, caller: Caller, now: Instant)
    requires li < |db.loans| && bi < |db.books| && ci < |db.copies|
    modifies db
    ensures db.State() == Terminating(old(db.State()), li, bi, ci, caller, now)
  {
    var book := db.books[bi];
    var loan := db.loans[li];
    db.books := db.books[bi := book.(copies := book.copies - 1)];
    db.copies := db.copies[..ci] + db.copies[ci + 1..];
    db.loans := db.loans[li := Closed(loan, TERMINATED, now)];
    db.logs := db.logs + [LoanLog(caller, TERMINATE, loan.id, now)];
  }

  /** `terminateLoanHandler`: only an unfinished loan with a book and a copy
      can be terminated. */
  method TerminateLoan(db: Database, caller: Caller, id: nat, now: Instant) returns (o: Outcome<Loan>)
    requires db.Valid()
    modifies db
    ensures db.Valid()
    ensures o.Fail? ==> db.State() == old(db.State())
    ensures LoanIndex(old(db.loans), id).None? ==> o == Fail(NotFound)
    ensures LoanIndex(old(db.loans), id).Some? ==>
      var l := old(db.loans)[LoanIndex(old(db.loans), id).value];
      && (Finished(l) <==> o == Fail(Rejected(AlreadyFinished)))
      && (!Finished(l) && (l.bookId.None? || l.copyId.None?) <==> o == Fail(NotFound))
      && (!Finished(l) && l.bookId.Some? && l.copyId.Some? ==>
            (o == Fail(RolledBack) <==>
               BookIndex(old(db.books), l.bookId.value).None? || CopyIndex(old(db.copies), l.copyId.value).None?))
    ensures o.Fail? ==> o == Fail(NotFound) || o == Fail(Rejected(AlreadyFinished)) || o == Fail(RolledBack)
    ensures o.Ok? ==>
      && LoanIndex(old(db.loans), id).Some?
      && var li := LoanIndex(old(db.loans), id).value;
         var l := old(db.loans)[li];
         && !Finished(l) && l.bookId.Some? && l.copyId.Some?
         && BookIndex(old(db.books), l.bookId.value).Some? && CopyIndex(old(db.copies), l.copyId.value).Some?
         && o.value == Closed(l, TERMINATED, now)
         && db.State() == Terminating(old(db.State()), li, BookIndex(old(db.books), l.bookId.value).value,
                                      CopyIndex(old(db.copies), l.copyId.value).value, caller, now)
  {
    var li := LoanIndex(db.loans, id);
    if li.None? {
      return Fail(NotFound);
    }
    var loan := db.loans[li.value];
    var err := TerminateLoanValidation(loan);
    if err.Some? {
      return Fail(Rejected(err.value));
    }
    if loan.bookId.None? || loan.copyId.None? {
      return Fail(NotFound);
    }
    var bi := BookIndex(db.books, loan.bookId.value);
    var ci := CopyIndex(db.copies, loan.copyId.value);
    if bi.None? || ci.None? {
      return Fail(RolledBack);
    }
    TerminatingKeepsValid(db.State(), li.value, bi.value, ci.value, caller, now);
    ApplyTermination(db, li.value, bi.value, ci.value, caller, now);
    o := Ok(Closed(loan, TERMINATED, now));
  }

  /** `enterWaitListHandler`: the caller joins the end of the book's queue
      and is told their position. */
  method EnterWaitList(db: Database, caller: Caller, bookId: nat) returns (o: Outcome<int>)
    requires db.Valid()
    modifies db
    ensures db.Valid()
    ensures o.Fail? ==> db.State() == old(db.State())
    ensures o == Fail(NotFound) <==> BookIndex(old(db.books), bookId).None? || UserIndex(old(db.users), caller.id).None?
    ensures o.Fail? && o != Fail(NotFound) ==>
      EnterWaitListValidation(old(db.copies), old(db.waitList), bookId, caller.id).Some?
      && o == Fail(Rejected(EnterWaitListValidation(old(db.copies), old(db.waitList), bookId, caller.id).value))
    ensures o.Ok? ==>
      && BookIndex(old(db.books), bookId).Some? && UserIndex(old(db.users), caller.id).Some?
      && EnterWaitListValidation(old(db.copies), old(db.waitList), bookId, caller.id).None?
      && o.value == CountFor(old(db.waitList), bookId) + 1
      && var u := old(db.users)[UserIndex(old(db.users), caller.id).value];
         var b := old(db.books)[BookIndex(old(db.books), bookId).value];
         db.State() == old(db.State()).(
           waitList := old(db.waitList) + [WaitEntry(old(db.nextEntryId), u.name, caller.id, b.title, bookId, o.value)],
           nextEntryId := old(db.nextEntryId) + 1)
  {
    var bi := BookIndex(db.books, bookId);
    var ui := UserIndex(db.users, caller.id);
    if bi.None? || ui.None? {
      return Fail(NotFound);
    }
    var err := EnterWaitListValidation(db.copies, db.waitList, bookId, caller.id);
    if err.Some? {
      return Fail(Rejected(err.value));
    }
    var position := CountFor(db.waitList, bookId) + 1;
    var entry := WaitEntry(db.nextEntryId, db.users[ui.value].name, caller.id, db.books[bi.value].title, bookId, position);
    EnterKeepsWellFormed(db.waitList, entry, db.nextEntryId);
    db.waitList := db.waitList + [entry];
    db.nextEntryId := db.nextEntryId + 1;
    o := Ok(position);
  }

  /** `exitWaitListHandler`: the caller's entry for the book is deleted and
      everybody behind it moves up one place. */
  method ExitWaitList(db: Database, caller: Caller, bookId: nat) returns (o: Outcome<()>)
    requires db.Valid()
    modifies db
    ensures db.Valid()
    ensures o.Fail? ==> o == Fail(NotFound) && db.State() == old(db.State())
    ensures o.Fail? <==> FindWaitEntry(old(db.waitList), bookId, caller.id).None?
    ensures o.Ok? ==>
      && FindWaitEntry(old(db.waitList), bookId, caller.id).Some?
      && db.State() == old(db.State()).(waitList := Exit(old(db.waitList), FindWaitEntry(old(db.waitList), bookId, caller.id).value))
  {
    var ei := FindWaitEntry(db.waitList, bookId, caller.id);
    if ei.None? {
      return Fail(NotFound);
    }
    var entry := db.waitList[ei.value];
    ExitKeepsWellFormed(db.waitList, ei.value, db.nextEntryId);
    db.waitList := Removed(db.waitList, ei.value);
    db.ShiftPositions(bookId, entry.position);
    o := Ok(());
  }
}
