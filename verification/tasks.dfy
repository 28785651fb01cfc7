/** The three scheduled tasks: cancelling requests that were never picked
    up, marking late loans overdue and blocking their users, and emailing
    the users with overdue loans. Each works on the database rows in place;
    the schedule itself is not modelled, `now` is a parameter. */
module Tasks {
  import opened Base
  import opened Calendar
  import opened Entities
  import opened Store
  import opened EmailManager

  /** Prisma's `expirationDate: { lte: now }`: a loan without a date never matches. */
  predicate DueBy(l: Loan, now: Instant) {
    l.expirationDate.Some? && l.expirationDate.value <= now
  }

  // ---- cancelRequestedLoans ----

  function DueRequest(now: Instant): Loan -> bool {
    (l: Loan) => l.status == REQUESTED && DueBy(l, now)
  }

  /** One row of the REQUESTED → TERMINATED sweep. */
  function Cancelled(l: Loan, now: Instant): (r: Loan)
    ensures DueRequest(now)(l) ==> r == l.(status := TERMINATED, archived := true)
    ensures !DueRequest(now)(l) ==> r == l
  {
    if DueRequest(now)(l) then l.(status := TERMINATED, archived := true) else l
  }

  function CancelSweep(loans: seq<Loan>, now: Instant): (r: seq<Loan>)
    ensures |r| == |loans|
  {
    seq(|loans|, k requires 0 <= k < |loans| => Cancelled(loans[k], now))
  }

  /** After the sweep no due request is left; a second sweep at the same
      instant changes nothing; ids and every field but status and archived
      stay as they were. */
  lemma CancelSweepFacts(loans: seq<Loan>, now: Instant)
    ensures forall k :: 0 <= k < |loans| ==> !DueRequest(now)(CancelSweep(loans, now)[k])
    ensures CancelSweep(CancelSweep(loans, now), now) == CancelSweep(loans, now)
    ensures forall k :: 0 <= k < |loans| ==>
      CancelSweep(loans, now)[k] == loans[k].(status := CancelSweep(loans, now)[k].status,
                                              archived := CancelSweep(loans, now)[k].archived)
  {
  }

  /** The loop of `cancelRequestedLoans` (`loan.updateMany`); the count is
      what the source logs. Copies stay marked as on loan. */
  method CancelRequestedLoans(db: Database, now: Instant) returns (count: nat)
    requires db.Valid()
    modifies db
    ensures db.Valid()
    ensures db.State() == old(db.State()).(loans := CancelSweep(old(db.loans), now))
    ensures count == Count(old(db.loans), DueRequest(now))
  {
    var loans;
    loans, count := CancelRows(db.loans, now);
    LoanIdsKept(db.loans, loans, db.nextLoanId);
    db.loans := loans;
  }

  /** The rows of the sweep, one by one, and how many were due requests. */
  method CancelRows(loans: seq<Loan>, now: Instant) returns (r: seq<Loan>, count: nat)
    ensures r == CancelSweep(loans, now)
    ensures count == Count(loans, DueRequest(now))
  {
    r := loans;
    var k := 0;
    count := 0;
    while k < |r|
      invariant 0 <= k <= |r| == |loans|
      invariant forall j :: 0 <= j < k ==> r[j] == Cancelled(loans[j], now)
      invariant forall j :: k <= j < |r| ==> r[j] == loans[j]
      invariant count == Count(loans[..k], DueRequest(now))
    {
      CountPrefix(loans, k, DueRequest(now));
      if DueRequest(now)(r[k]) {
        r := r[k := r[k].(status := TERMINATED, archived := true)];
        count := count + 1;
      }
      k := k + 1;
    }
    assert loans[..k] == loans;
  }

  /** Rewriting rows without touching their ids keeps the primary keys valid. */
  lemma LoanIdsKept(a: seq<Loan>, b: seq<Loan>, next: nat)
    requires LoanIdsOk(a, next) && |a| == |b| && forall k :: 0 <= k < |a| ==> b[k].id == a[k].id
    ensures LoanIdsOk(b, next)
  {
  }

  // ---- verifyOverdueLoans ----

  function DueOngoing(now: Instant): Loan -> bool {
    (l: Loan) => l.status == ONGOING && DueBy(l, now)
  }

  function MarkedOverdue(l: Loan, now: Instant): (r: Loan)
    ensures DueOngoing(now)(l) ==> r == l.(status := OVERDUE)
    ensures !DueOngoing(now)(l) ==> r == l
  {
    if DueOngoing(now)(l) then l.(status := OVERDUE) else l
  }

  function OverdueSweep(loans: seq<Loan>, now: Instant): (r: seq<Loan>)
    ensures |r| == |loans|
  {
    seq(|loans|, k requires 0 <= k < |loans| => MarkedOverdue(loans[k], now))
  }

  function OverdueLoanOf(uid: UserId): Loan -> bool {
    (l: Loan) => l.userId == Some(uid) && l.status == OVERDUE
  }

  /** `user.updateMany({ where: { loans: { some: { status: 'OVERDUE' } } } })`. */
  function Blocked(u: User, loans: seq<Loan>): (r: User)
    ensures r.isBlocked <==> u.isBlocked || exists j :: 0 <= j < |loans| && OverdueLoanOf(u.id)(loans[j])
    ensures r == u.(isBlocked := r.isBlocked)
  {
    if FindFirst(loans, OverdueLoanOf(u.id)).Some? then u.(isBlocked := true) else u
  }

  function BlockSweep(users: seq<User>, loans: seq<Loan>): (r: seq<User>)
    ensures |r| == |users|
  {
    seq(|users|, k requires 0 <= k < |users| => Blocked(users[k], loans))
  }

  /** What one run of `verifyOverdueLoans` leaves: users are only looked at
      when some loan changed in this run. */
  function AfterVerify(t: Tables, now: Instant): Tables {
    var loans := OverdueSweep(t.loans, now);
    if Count(t.loans, DueOngoing(now)) == 0 then t.(loans := loans)
    else t.(loans := loans, users := BlockSweep(t.users, loans))
  }

  /** The sweep never unblocks anyone, never archives, and leaves no due
      ongoing loan; a second run at the same instant changes nothing at all. */
  lemma {:induction false} VerifyFacts(t: Tables, now: Instant)
    ensures |AfterVerify(t, now).users| == |t.users|
    ensures forall k :: 0 <= k < |t.users| && t.users[k].isBlocked ==> AfterVerify(t, now).users[k].isBlocked
    ensures forall k :: 0 <= k < |t.loans| ==> AfterVerify(t, now).loans[k].archived == t.loans[k].archived
    ensures forall k :: 0 <= k < |t.loans| ==> !DueOngoing(now)(AfterVerify(t, now).loans[k])
    ensures AfterVerify(AfterVerify(t, now), now) == AfterVerify(t, now)
  {
    var loans := OverdueSweep(t.loans, now);
    assert OverdueSweep(loans, now) == loans;
    CountPositive(loans, DueOngoing(now));
  }

  /** Every OVERDUE loan has a deadline, which the notice prints. */
  predicate OverdueDated(loans: seq<Loan>) {
    forall k :: 0 <= k < |loans| && loans[k].status == OVERDUE ==> loans[k].expirationDate.Some?
  }

  /** The sweep marks only loans past a deadline, so it never makes an
      OVERDUE loan without one. */
  lemma SweepKeepsOverdueDated(t: Tables, now: Instant)
    requires OverdueDated(t.loans)
    ensures OverdueDated(AfterVerify(t, now).loans)
  {
    var loans := OverdueSweep(t.loans, now);
    forall k | 0 <= k < |loans| && loans[k].status == OVERDUE
      ensures loans[k].expirationDate.Some?
    {
      assert loans[k] == MarkedOverdue(t.loans[k], now);
    }
  }

  /** When nothing became overdue in this run, no user is blocked, even one
      who already had an overdue loan. */
  lemma OldOverdueLoansBlockNobody(u: User, l: Loan, now: Instant)
    requires l.userId == Some(u.id) && l.status == OVERDUE && !u.isBlocked
    ensures AfterVerify(Tables([u], [], [], [l], [], [], [], 1, 1, 1), now).users == [u]
  {
    assert !DueOngoing(now)(l);
    assert [l][..0] == [];
  }

  /** `verifyOverdueLoans`: mark due ongoing loans overdue; if there were
      any, block every user with an overdue loan. */
  method VerifyOverdueLoans(db: Database, now: Instant) returns (changed: nat)
    requires db.Valid()
    modifies db
    ensures db.Valid()
    ensures db.State() == AfterVerify(old(db.State()), now)
    ensures changed == Count(old(db.loans), DueOngoing(now))
  {
    changed := MarkOverdue(db, now);
    if changed == 0 {
      return;
    }
    BlockUsers(db);
  }

  /** The first bulk update of `verifyOverdueLoans`, row by row. */
  method MarkOverdue(db: Database, now: Instant) returns (changed: nat)
    requires db.Valid()
    modifies db
    ensures db.Valid()
    ensures db.State() == old(db.State()).(loans := OverdueSweep(old(db.loans), now))
    ensures changed == Count(old(db.loans), DueOngoing(now))
  {
    var loans;
    loans, changed := OverdueRows(db.loans, now);
    LoanIdsKept(db.loans, loans, db.nextLoanId);
    db.loans := loans;
  }

  /** The rows of the first update, one by one, and how many changed. */
  method OverdueRows(loans: seq<Loan>, now: Instant) returns (r: seq<Loan>, changed: nat)
    ensures r == OverdueSweep(loans, now)
    ensures changed == Count(loans, DueOngoing(now))
  {
    r := loans;
    var k := 0;
    changed := 0;
    while k < |r|
      invariant 0 <= k <= |r| == |loans|
      invariant forall j :: 0 <= j < k ==> r[j] == MarkedOverdue(loans[j], now)
      invariant forall j :: k <= j < |r| ==> r[j] == loans[j]
      invariant changed == Count(loans[..k], DueOngoing(now))
    {
      CountPrefix(loans, k, DueOngoing(now));
      if DueOngoing(now)(r[k]) {
        r := r[k := r[k].(status := OVERDUE)];
        changed := changed + 1;
      }
      k := k + 1;
    }
    assert loans[..k] == loans;
  }

  /** The second bulk update of `verifyOverdueLoans`, row by row. */
  method BlockUsers(db: Database)
    modifies db
    ensures db.State() == old(db.State()).(users := BlockSweep(old(db.users), old(db.loans)))
  {
    var k := 0;
    while k < |db.users|
      invariant 0 <= k <= |db.users| == |old(db.users)|
      invariant forall j :: 0 <= j < k ==> db.users[j] == Blocked(old(db.users)[j], old(db.loans))
      invariant forall j :: k <= j < |db.users| ==> db.users[j] == old(db.users)[j]
      invariant db.State() == old(db.State()).(users := db.users)
    {
      if FindFirst(db.loans, OverdueLoanOf(db.users[k].id)).Some? {
        db.users := db.users[k := db.users[k].(isBlocked := true)];
      }
      k := k + 1;
    }
  }

  // ---- notifyOverdueUsers ----

  /** One email: the address, the name, and each overdue loan's title and
      expiration date. */
  datatype Notice = Notice(to: string, name: string, loans: seq<(string, Option<Instant>)>)

  function HasOverdueLoan(loans: seq<Loan>): User -> bool {
    (u: User) => FindFirst(loans, OverdueLoanOf(u.id)).Some?
  }

  /** `user.findMany({ where: { loans: { some: { status: 'OVERDUE' } } } })`:
      each user row with an overdue loan, once, in table order. */
  function OverdueUsers(users: seq<User>, loans: seq<Loan>): (r: seq<User>)
    ensures forall u :: u in r ==> u in users && exists j :: 0 <= j < |loans| && OverdueLoanOf(u.id)(loans[j])
    ensures forall u :: u in users && (exists j :: 0 <= j < |loans| && OverdueLoanOf(u.id)(loans[j])) ==> u in r
    ensures |r| == Count(users, HasOverdueLoan(loans))
    ensures exists idx :: OrderedPositions(idx, users, HasOverdueLoan(loans)) && |idx| == |r|
                          && forall k :: 0 <= k < |r| ==> r[k] == users[idx[k]]
  {
    var r := Filter(users, HasOverdueLoan(loans));
    forall u | u in users && (exists j :: 0 <= j < |loans| && OverdueLoanOf(u.id)(loans[j]))
      ensures u in r
    {
      FilterComplete(users, HasOverdueLoan(loans), u);
    }
    assert exists idx :: OrderedPositions(idx, users, HasOverdueLoan(loans)) && |idx| == |r|
                         && forall k :: 0 <= k < |r| ==> r[k] == users[idx[k]] by {
      var idx := FilterPositions(users, HasOverdueLoan(loans));
    }
    r
  }

  function Line(l: Loan): (string, Option<Instant>) {
    (l.bookTitle, l.expirationDate)
  }

  /** The notice for one user: their overdue loans in table order. */
  function NoticeFor(u: User, loans: seq<Loan>): (n: Notice)
    ensures n.to == u.email && n.name == u.name
    ensures |n.loans| == Count(loans, OverdueLoanOf(u.id))
    ensures forall x :: x in n.loans ==> exists l :: l in loans && OverdueLoanOf(u.id)(l) && x == Line(l)
  {
    var mine := Filter(loans, OverdueLoanOf(u.id));
    var lines := seq(|mine|, k requires 0 <= k < |mine| => Line(mine[k]));
    assert forall x :: x in lines ==> exists k :: 0 <= k < |mine| && x == Line(mine[k]);
    assert forall k :: 0 <= k < |mine| ==> mine[k] in mine;
    Notice(u.email, u.name, lines)
  }

  /** A notice lists every overdue loan of its user, and line k comes from
      the k-th of them in table order. */
  lemma NoticeListsEveryOverdueLoan(u: User, loans: seq<Loan>)
    ensures forall l :: l in loans && OverdueLoanOf(u.id)(l) ==> Line(l) in NoticeFor(u, loans).loans
    ensures exists idx :: OrderedPositions(idx, loans, OverdueLoanOf(u.id)) && |idx| == |NoticeFor(u, loans).loans|
                          && forall k :: 0 <= k < |idx| ==> NoticeFor(u, loans).loans[k] == Line(loans[idx[k]])
  {
    var mine := Filter(loans, OverdueLoanOf(u.id));
    var lines := NoticeFor(u, loans).loans;
    assert |lines| == |mine|;
    assert forall k :: 0 <= k < |mine| ==> lines[k] == Line(mine[k]);
    forall l | l in loans && OverdueLoanOf(u.id)(l)
      ensures Line(l) in lines
    {
      FilterComplete(loans, OverdueLoanOf(u.id), l);
      var k :| 0 <= k < |mine| && mine[k] == l;
      assert lines[k] == Line(l);
    }
    var idx := FilterPositions(loans, OverdueLoanOf(u.id));
    assert forall k :: 0 <= k < |idx| ==> lines[k] == Line(loans[idx[k]]);
  }

  datatype NotifyResult = Skipped | NoOverdueUsers | NotEnoughEmails | Sent | Failed

  /** `notifyOverdueUsers`. `readFails` stands for the user query throwing.
      Past the gate, every path records the outcome of the run exactly once. The
      emails themselves are handed to `sendEmail`, which is not part of this
      model; `sent` lists them in order. */
  method NotifyOverdueUsers(db: Database, mgr: Manager, now: Instant, readFails: bool)
    returns (r: NotifyResult, sent: seq<Notice>)
    modifies mgr
    ensures !old(mgr.ShouldNotifyUsers(now)) ==> r == Skipped && sent == [] && mgr.Data() == old(mgr.Data())
    ensures old(mgr.ShouldNotifyUsers(now)) ==>
      r != Skipped && mgr.Data() == WithTaskStatus(old(mgr.Data()), DayOf(now), r == Sent)
    ensures r == Failed <==> old(mgr.ShouldNotifyUsers(now)) && readFails
    ensures r == NoOverdueUsers <==>
      old(mgr.ShouldNotifyUsers(now)) && !readFails && |OverdueUsers(db.users, db.loans)| == 0
    ensures r == NotEnoughEmails <==>
      && old(mgr.ShouldNotifyUsers(now)) && !readFails && |OverdueUsers(db.users, db.loans)| > 0
      && |OverdueUsers(db.users, db.loans)| >= old(mgr.GetRemainingEmails())
    ensures r != Sent ==> sent == []
    ensures r == Sent ==>
      var users := OverdueUsers(db.users, db.loans);
      && 0 < |users| < old(mgr.GetRemainingEmails())
      && |sent| == |users|
      && forall k :: 0 <= k < |users| ==> sent[k] == NoticeFor(users[k], db.loans)
  {
    sent := [];
    if !mgr.ShouldNotifyUsers(now) {
      return Skipped, sent;
    }
    if readFails {
      mgr.UpdateTaskStatus(now, false);
      return Failed, sent;
    }
    var users := OverdueUsers(db.users, db.loans);
    if |users| == 0 {
      mgr.UpdateTaskStatus(now, false);
      return NoOverdueUsers, sent;
    }
    if |users| >= mgr.GetRemainingEmails() {
      mgr.UpdateTaskStatus(now, false);
      return NotEnoughEmails, sent;
    }
    sent := Notices(users, db.loans);
    mgr.UpdateTaskStatus(now, true);
    r := Sent;
  }

  /** The loop over the overdue users: one notice each, in order. */
  method Notices(users: seq<User>, loans: seq<Loan>) returns (sent: seq<Notice>)
    ensures |sent| == |users|
    ensures forall k :: 0 <= k < |users| ==> sent[k] == NoticeFor(users[k], loans)
  {
    sent := [];
    for i := 0 to |users|
      invariant |sent| == i
      invariant forall k :: 0 <= k < i ==> sent[k] == NoticeFor(users[k], loans)
    {
      sent := sent + [NoticeFor(users[i], loans)];
    }
  }
}
