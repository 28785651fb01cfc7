/** The book counters against the loans that explain them. A book's
    `copies - copiesAvailable` is meant to be the number of its copies out
    on loan, that is, its loans that have been started and are not yet
    finished. This module states that agreement, shows which loan
    transitions keep it, and shows on small tables where the handlers break
    it or the bound `0 <= copiesAvailable <= copies`, and where the copies'
    `isLoaned` flags stop matching the open loans. */
module Counters {
  import opened Base
  import opened Calendar
  import opened Entities
  import opened Store
  import opened LoanRules
  import opened LoanHandlers
  import opened Tasks

  /** A loan whose copy is out of the library: started and not finished. */
  predicate Lent(l: Loan) {
    l.status == ONGOING || l.status == OVERDUE
  }

  function OutOn(bid: nat): Loan -> bool {
    (l: Loan) => l.bookId == Some(bid) && Lent(l)
  }

  /** Book row bi counts as on loan exactly its lent loans. */
  predicate OnLoanAgrees(t: Tables, bi: nat) {
    bi < |t.books| && t.books[bi].copies - t.books[bi].copiesAvailable == Count(t.loans, OutOn(t.books[bi].id))
  }

  /** Every book has between none and all of its copies available. */
  predicate CountersBounded(books: seq<Book>) {
    forall i :: 0 <= i < |books| ==> 0 <= books[i].copiesAvailable <= books[i].copies
  }

  /** A copy is flagged loaned exactly when an unfinished loan names it. */
  ghost predicate LoanedMatchesOpenLoans(t: Tables) {
    forall i :: 0 <= i < |t.copies| ==>
      (t.copies[i].isLoaned <==>
         exists j :: 0 <= j < |t.loans| && t.loans[j].copyId == Some(t.copies[i].id) && !Finished(t.loans[j]))
  }

  /** A request appends a loan that is not lent and leaves the books alone,
      so every book's counters keep agreeing. */
  lemma RequestingKeepsOnLoan(t: Tables, loan: Loan, ci: nat, bi: nat)
    requires ci < |t.copies| && OnLoanAgrees(t, bi) && loan.status == REQUESTED
    ensures OnLoanAgrees(Requesting(t, loan, ci), bi)
  {
    CountAppend(t.loans, [loan], OutOn(t.books[bi].id));
    assert [loan][..0] == [];
  }

  /** Starting a loan of the book takes one available copy. That is right
      exactly when the loan was not lent already. */
  lemma StartingKeepsOnLoanIff(t: Tables, li: nat, bi: nat, caller: Caller, now: Instant)
    requires li < |t.loans| && bi < |t.books| && OnLoanAgrees(t, bi)
    requires t.loans[li].bookId == Some(t.books[bi].id)
    ensures OnLoanAgrees(Starting(t, li, bi, caller, now), bi) <==> !Lent(t.loans[li])
  {
    CountReplace(t.loans, li, Started(t.loans[li], now), OutOn(t.books[bi].id));
  }

  /** Returning a loan of the book gives one copy back. That is right
      exactly when the loan was lent. */
  lemma ReturningKeepsOnLoanIff(t: Tables, li: nat, bi: nat, ci: nat, caller: Caller, now: Instant)
    requires li < |t.loans| && bi < |t.books| && ci < |t.copies| && OnLoanAgrees(t, bi)
    requires t.loans[li].bookId == Some(t.books[bi].id)
    ensures OnLoanAgrees(Returning(t, li, bi, ci, caller, now), bi) <==> Lent(t.loans[li])
  {
    CountReplace(t.loans, li, Closed(t.loans[li], RETURNED, now), OutOn(t.books[bi].id));
  }

  /** As written, terminating a loan of the book removes a copy from
      `copies` only, which is right exactly when the loan was lent: the
      copy of a loan that was only requested was still counted available. */
  lemma TerminatingKeepsOnLoanIff(t: Tables, li: nat, bi: nat, ci: nat, caller: Caller, now: Instant)
    requires li < |t.loans| && bi < |t.books| && ci < |t.copies| && OnLoanAgrees(t, bi)
    requires t.loans[li].bookId == Some(t.books[bi].id)
    ensures OnLoanAgrees(Terminating(t, li, bi, ci, caller, now), bi) <==> Lent(t.loans[li])
  {
    CountReplace(t.loans, li, Closed(t.loans[li], TERMINATED, now), OutOn(t.books[bi].id));
  }

  /** Termination as evidently intended: when the loan was never lent, its
      copy also leaves the available count. */
  function TerminatingCorrected(t: Tables, li: nat, bi: nat, ci: nat, caller: Caller, now: Instant): Tables
    requires li < |t.loans| && bi < |t.books| && ci < |t.copies|
  {
    var t1 := Terminating(t, li, bi, ci, caller, now);
    if Lent(t.loans[li]) then t1
    else t1.(books := t1.books[bi := t1.books[bi].(copiesAvailable := t1.books[bi].copiesAvailable - 1)])
  }

  /** The corrected termination keeps the book's counters in agreement with
      its lent loans whatever the loan's status, so `copiesAvailable` never
      exceeds `copies`. */
  lemma TerminatingCorrectedKeepsOnLoan(t: Tables, li: nat, bi: nat, ci: nat, caller: Caller, now: Instant)
    requires li < |t.loans| && bi < |t.books| && ci < |t.copies| && OnLoanAgrees(t, bi)
    requires t.loans[li].bookId == Some(t.books[bi].id)
    ensures OnLoanAgrees(TerminatingCorrected(t, li, bi, ci, caller, now), bi)
    ensures TerminatingCorrected(t, li, bi, ci, caller, now).books[bi].copiesAvailable
         <= TerminatingCorrected(t, li, bi, ci, caller, now).books[bi].copies
  {
    CountReplace(t.loans, li, Closed(t.loans[li], TERMINATED, now), OutOn(t.books[bi].id));
  }

  // ---- small tables ----

  const Title := "Dom Casmurro"

  /** Loan 1 of user u1 on book 1 and copy 1, due at `due`. */
  function SampleLoan(status: LoanStatus, due: Instant): Loan {
    Loan(1, "Ana", Some("u1"), Title, Some(1), "9788535910663", Some(1), None, Some(due), None, status, false, false)
  }

  /** One user, one book with one copy of which `available` are counted
      available, that copy on loan, and the one loan `l`. */
  function SampleTables(available: int, l: Loan): Tables {
    Tables([User("u1", "Ana", "ana@example.com", "52998224725", "(11) 91234-5678", "", Role.USER, false)],
           [Book(1, Title, None, 1, available)],
           [Copy(1, 1, Title, "9788535910663", GOOD, true)],
           [l], [], [], [], 2, 2, 1)
  }

  /** A request leaves `copiesAvailable` at 1. Terminating it deletes the
      only copy, so the book has no copy but one available. */
  lemma TerminatingRequestedOverflows(caller: Caller, now: Instant)
    ensures var t := SampleTables(1, SampleLoan(REQUESTED, now));
      && TablesValid(t) && CountersBounded(t.books) && OnLoanAgrees(t, 0)
      && LoanIndex(t.loans, 1) == Some(0) && !Finished(t.loans[0])
      && BookIndex(t.books, 1) == Some(0) && CopyIndex(t.copies, 1) == Some(0)
      && !CountersBounded(Terminating(t, 0, 0, 0, caller, now).books)
      && CountersBounded(TerminatingCorrected(t, 0, 0, 0, caller, now).books)
  {
    var t := SampleTables(1, SampleLoan(REQUESTED, now));
    assert Count(t.loans, OutOn(1)) == 0 by { assert t.loans[..0] == []; }
    var after := Terminating(t, 0, 0, 0, caller, now).books;
    assert after[0].copies == 0 && after[0].copiesAvailable == 1;
  }

  /** Nothing stops a loan from being started twice: the first start takes
      the only available copy, the second drives the count below zero. */
  lemma StartingTwiceGoesNegative(caller: Caller, now: Instant)
    ensures var t := SampleTables(1, SampleLoan(REQUESTED, now));
      var t1 := Starting(t, 0, 0, caller, now);
      && TablesValid(t) && CountersBounded(t.books)
      && BookIndexByTitle(t.books, Title) == Some(0)
      && CountersBounded(t1.books) && t1.loans[0].status == ONGOING
      && LoanIndex(t1.loans, 1) == Some(0) && BookIndexByTitle(t1.books, t1.loans[0].bookTitle) == Some(0)
      && t1.books[0].copiesAvailable == 0
      && !CountersBounded(Starting(t1, 0, 0, caller, now).books)
  {
    var t := SampleTables(1, SampleLoan(REQUESTED, now));
    var t1 := Starting(t, 0, 0, caller, now);
    assert t1.books == [Book(1, Title, None, 1, 0)];
    assert Starting(t1, 0, 0, caller, now).books[0].copiesAvailable == -1;
  }

  /** The cancelling task closes a due request but never frees its copy,
      which stays flagged loaned with no open loan naming it. */
  lemma CancelLeavesCopyLoaned(now: Instant)
    ensures var t := SampleTables(1, SampleLoan(REQUESTED, now));
      && LoanedMatchesOpenLoans(t)
      && !LoanedMatchesOpenLoans(t.(loans := CancelSweep(t.loans, now)))
  {
    var t := SampleTables(1, SampleLoan(REQUESTED, now));
    assert t.loans[0].copyId == Some(t.copies[0].id) && !Finished(t.loans[0]);
    var after := CancelSweep(t.loans, now);
    assert after[0].status == TERMINATED;
  }
}
