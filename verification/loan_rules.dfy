/** The loan and wait-list business rules: the business-day deadline and the
    four validations the loan handlers run before they write anything. */
module LoanRules {
  import opened Base
  import opened Calendar
  import opened Entities
  import opened WaitQueue

  /** Most loans a user may have in status ONGOING. */
  const MaxActiveLoans := 3

  /** Most wait lists a user may be on. */
  const MaxWaitLists := 3

  predicate OnWeekend(t: Instant) {
    IsWeekend(DayOf(t))
  }

  /** The first step of `adjustExpirationDate`: a Saturday start moves two
      days on, a Sunday start one, both to the Monday at the same time of day. */
  function ShiftOffWeekend(t: Instant): (r: Instant)
    ensures !OnWeekend(r)
    ensures DayOf(t) <= DayOf(r) <= DayOf(t) + 2
    ensures !OnWeekend(t) ==> r == t
  {
    if Weekday(DayOf(t)) == 6 then AddDays(t, 2)
    else if Weekday(DayOf(t)) == 0 then AddDays(t, 1)
    else t
  }

  /** Days left in a run of weekend days: the measure that makes the
      day-by-day loop below terminate. */
  function WeekendRun(day: int): nat {
    if Weekday(day) == 6 then 1 else if Weekday(day) == 0 then 0 else 2
  }

  /** `adjustExpirationDate`: the start moved off the weekend, then advanced a
      day at a time until `daysToAdd` weekdays have been passed. The result
      keeps the time of day, is itself a weekday, and is the `daysToAdd`-th
      weekday after the adjusted start. */
  method AdjustExpirationDate(start: Instant, daysToAdd: int) returns (r: Instant)
    ensures !OnWeekend(r)
    ensures DayOf(ShiftOffWeekend(start)) <= DayOf(r)
    ensures r == AddDays(ShiftOffWeekend(start), DayOf(r) - DayOf(ShiftOffWeekend(start)))
    ensures daysToAdd <= 0 ==> r == ShiftOffWeekend(start)
    ensures daysToAdd >= 0 ==> WeekdaysBetween(DayOf(ShiftOffWeekend(start)), DayOf(r)) == daysToAdd
  {
    r := ShiftOffWeekend(start);
    ghost var s := r;
    ghost var base := DayOf(s);
    var added := 0;
    while added < daysToAdd
      invariant 0 <= added && (daysToAdd >= 0 ==> added <= daysToAdd)
      invariant base <= DayOf(r) && r == AddDays(s, DayOf(r) - base)
      invariant added == WeekdaysBetween(base, DayOf(r))
      invariant added == daysToAdd ==> !OnWeekend(r)
      invariant daysToAdd <= 0 ==> r == s
      decreases daysToAdd - added, WeekendRun(DayOf(r))
    {
      WeekdayNext(DayOf(r));
      r := AddDays(r, 1);
      if !OnWeekend(r) {
        added := added + 1;
      }
    }
  }

  /** A day with n weekdays behind it that is itself a weekday is the n-th
      weekday: one fewer weekday lies before it. So the deadline above is
      the earliest instant with those properties. */
  lemma DeadlineIsEarliest(base: int, day: int, d: int)
    requires !IsWeekend(day) && base < day && base <= d < day
    ensures WeekdaysBetween(base, d) < WeekdaysBetween(base, day)
  {
    WeekdaysBetweenMonotone(base, d, day - 1);
  }

  // ---- createLoanValidation ----

  function OverdueOf(uid: UserId, now: Instant): Loan -> bool {
    (l: Loan) => l.userId == Some(uid) && l.returnDate.Some? && l.returnDate.value <= now && l.status == ONGOING
  }

  function ActiveOf(uid: UserId): Loan -> bool {
    (l: Loan) => l.userId == Some(uid) && l.status == ONGOING
  }

  function HeldBy(uid: UserId, bid: nat): Loan -> bool {
    (l: Loan) => l.userId == Some(uid) && l.bookId == Some(bid)
  }

  function RecentOf(uid: UserId, bid: nat, now: Instant): Loan -> bool {
    (l: Loan) => l.userId == Some(uid) && l.bookId == Some(bid) && l.returnDate.Some? && l.returnDate.value >= AddDays(now, -7)
  }

  ghost predicate HasOverdue(loans: seq<Loan>, uid: UserId, now: Instant) {
    exists i :: 0 <= i < |loans| && loans[i].userId == Some(uid) && loans[i].status == ONGOING
      && loans[i].returnDate.Some? && loans[i].returnDate.value <= now
  }

  ghost predicate HoldsBook(loans: seq<Loan>, uid: UserId, bid: nat) {
    exists i :: 0 <= i < |loans| && loans[i].userId == Some(uid) && loans[i].bookId == Some(bid)
  }

  function ActiveLoans(loans: seq<Loan>, uid: UserId): nat {
    Count(loans, ActiveOf(uid))
  }

  /** `createLoanValidation`: the first rule the request breaks, in the
      source's order, or None. The last rule (a loan of the same book
      returned in the past 7 days) can never be the one reported: a loan
      that matches it also matches the rule before it. */
  function CreateLoanValidation(user: User, book: Book, loans: seq<Loan>, now: Instant): (r: Option<Reason>)
    ensures r == Some(UserBlocked) <==> user.isBlocked
    ensures r == Some(HasOverdueLoans) <==> !user.isBlocked && HasOverdue(loans, user.id, now)
    ensures r == Some(NoCopiesAvailable) <==>
      !user.isBlocked && !HasOverdue(loans, user.id, now) && book.copiesAvailable <= 0
    ensures r == Some(LoanLimitReached) <==>
      !user.isBlocked && !HasOverdue(loans, user.id, now) && book.copiesAvailable > 0
      && ActiveLoans(loans, user.id) >= MaxActiveLoans
    ensures r == Some(AlreadyHasLoan) <==>
      !user.isBlocked && !HasOverdue(loans, user.id, now) && book.copiesAvailable > 0
      && ActiveLoans(loans, user.id) < MaxActiveLoans && HoldsBook(loans, user.id, book.id)
    ensures r != Some(RecentLoan)
    ensures r.None? <==>
      !user.isBlocked && !HasOverdue(loans, user.id, now) && book.copiesAvailable > 0
      && ActiveLoans(loans, user.id) < MaxActiveLoans && !HoldsBook(loans, user.id, book.id)
  {
    CountPositive(loans, OverdueOf(user.id, now));
    if user.isBlocked then Some(UserBlocked)
    else if Count(loans, OverdueOf(user.id, now)) > 0 then Some(HasOverdueLoans)
    else if book.copiesAvailable <= 0 then Some(NoCopiesAvailable)
    else if ActiveLoans(loans, user.id) >= MaxActiveLoans then Some(LoanLimitReached)
    else if FindFirst(loans, HeldBy(user.id, book.id)).Some? then Some(AlreadyHasLoan)
    else if FindFirst(loans, RecentOf(user.id, book.id, now)).Some? then Some(RecentLoan)
    else None
  }

  /** Once a user's request for a book is recorded, the same user cannot
      request the same book again while that loan keeps its links. */
  lemma NoSecondLoanOfSameBook(user: User, book: Book, loans: seq<Loan>, l: Loan, now: Instant)
    requires l.userId == Some(user.id) && l.bookId == Some(book.id)
    ensures CreateLoanValidation(user, book, loans + [l], now).Some?
  {
    assert (loans + [l])[|loans|] == l;
    assert HoldsBook(loans + [l], user.id, book.id);
  }

  /** Requests (status REQUESTED) do not count towards the limit of active loans. */
  lemma {:induction false} RequestsDoNotCount(loans: seq<Loan>, uid: UserId)
    requires forall i :: 0 <= i < |loans| ==> loans[i].status != ONGOING
    ensures ActiveLoans(loans, uid) == 0
  {
    if |loans| > 0 {
      RequestsDoNotCount(loans[..|loans| - 1], uid);
    }
  }

  // ---- postponeLoanValidation and terminateLoanValidation ----

  predicate Finished(l: Loan) {
    l.status == RETURNED || l.status == TERMINATED
  }

  ghost predicate SomebodyWaitsFor(w: seq<WaitEntry>, b: nat) {
    exists i :: 0 <= i < |w| && w[i].bookId == b
  }

  /** `postponeLoanValidation`: a loan may be postponed once, after it has
      started, while it is still open, and only while nobody waits for its book. */
  function PostponeLoanValidation(loan: Loan, waitList: seq<WaitEntry>): (r: Option<Reason>)
    ensures r == Some(AlreadyPostponed) <==> loan.postponed
    ensures r == Some(NotStarted) <==> !loan.postponed && loan.loanDate.None?
    ensures r == Some(AlreadyFinished) <==> !loan.postponed && loan.loanDate.Some? && Finished(loan)
    ensures r == Some(SomebodyWaiting) <==>
      !loan.postponed && loan.loanDate.Some? && !Finished(loan)
      && loan.bookId.Some? && SomebodyWaitsFor(waitList, loan.bookId.value)
    ensures r.None? <==>
      !loan.postponed && loan.loanDate.Some? && !Finished(loan)
      && (loan.bookId.Some? ==> !SomebodyWaitsFor(waitList, loan.bookId.value))
  {
    if loan.postponed then Some(AlreadyPostponed)
    else if loan.loanDate.None? then Some(NotStarted)
    else if Finished(loan) then Some(AlreadyFinished)
    else if loan.bookId.Some? && FindFirst(waitList, OfBook(loan.bookId.value)).Some? then Some(SomebodyWaiting)
    else None
  }

  /** `terminateLoanValidation`: only a loan that is not yet returned or terminated. */
  function TerminateLoanValidation(loan: Loan): (r: Option<Reason>)
    ensures r.None? <==> !Finished(loan)
    ensures r.Some? ==> r.value == AlreadyFinished
  {
    if Finished(loan) then Some(AlreadyFinished) else None
  }

  // ---- enterWaitListValidation ----

  function FreeCopyOf(bid: nat): Copy -> bool {
    (c: Copy) => c.bookId == bid && !c.isLoaned
  }

  function WaiterOf(bid: nat, uid: UserId): WaitEntry -> bool {
    (e: WaitEntry) => e.bookId == bid && e.userId == uid
  }

  ghost predicate HasFreeCopy(copies: seq<Copy>, bid: nat) {
    exists i :: 0 <= i < |copies| && copies[i].bookId == bid && !copies[i].isLoaned
  }

  ghost predicate IsWaiting(w: seq<WaitEntry>, bid: nat, uid: UserId) {
    exists i :: 0 <= i < |w| && w[i].bookId == bid && w[i].userId == uid
  }

  /** `enterWaitListValidation`: joining is refused while a copy of the book
      is free and when the user already waits for it. The third rule (at most
      three entries of this user for this same book) is never the one
      reported: with one entry the rule before it already refuses. */
  function EnterWaitListValidation(copies: seq<Copy>, waitList: seq<WaitEntry>, bid: nat, uid: UserId): (r: Option<Reason>)
    ensures r == Some(CopiesAvailable) <==> HasFreeCopy(copies, bid)
    ensures r == Some(AlreadyWaiting) <==> !HasFreeCopy(copies, bid) && IsWaiting(waitList, bid, uid)
    ensures r != Some(WaitListLimit)
    ensures r.None? <==> !HasFreeCopy(copies, bid) && !IsWaiting(waitList, bid, uid)
  {
    CountPositive(copies, FreeCopyOf(bid));
    CountPositive(waitList, WaiterOf(bid, uid));
    if Count(copies, FreeCopyOf(bid)) > 0 then Some(CopiesAvailable)
    else if FindFirst(waitList, WaiterOf(bid, uid)).Some? then Some(AlreadyWaiting)
    else if Count(waitList, WaiterOf(bid, uid)) >= MaxWaitLists then Some(WaitListLimit)
    else None
  }
}
