/** The database as one mutable object holding its tables, each a sequence
    of rows in table order, plus the next value of each auto-increment id. */
module Store {
  import opened Base
  import opened Entities
  import opened WaitQueue

  /** A snapshot of every table, so that a handler can state its whole new
      state as an update of the old one. */
  datatype Tables = Tables(
    users: seq<User>,
    books: seq<Book>,
    copies: seq<Copy>,
    loans: seq<Loan>,
    waitList: seq<WaitEntry>,
    categories: seq<Category>,
    logs: seq<AdminLog>,
    nextLoanId: nat,
    nextCopyId: nat,
    nextEntryId: nat)

  ghost predicate LoanIdsOk(loans: seq<Loan>, next: nat) {
    && (forall i :: 0 <= i < |loans| ==> loans[i].id < next)
    && (forall i, j :: 0 <= i < |loans| && 0 <= j < |loans| && i != j ==> loans[i].id != loans[j].id)
  }

  ghost predicate CopyIdsOk(copies: seq<Copy>, next: nat) {
    && (forall i :: 0 <= i < |copies| ==> copies[i].id < next)
    && (forall i, j :: 0 <= i < |copies| && 0 <= j < |copies| && i != j ==> copies[i].id != copies[j].id)
  }

  /** What every handler keeps: dense wait-list positions (see `WaitQueue`)
      and primary keys that are distinct and below the next value to hand out. */
  ghost predicate TablesValid(t: Tables) {
    WellFormed(t.waitList, t.nextEntryId) && LoanIdsOk(t.loans, t.nextLoanId) && CopyIdsOk(t.copies, t.nextCopyId)
  }

  class Database {
    var users: seq<User>
    var books: seq<Book>
    var copies: seq<Copy>
    var loans: seq<Loan>
    var waitList: seq<WaitEntry>
    var categories: seq<Category>
    var logs: seq<AdminLog>
    var nextLoanId: nat
    var nextCopyId: nat
    var nextEntryId: nat

    function State(): Tables
      reads this
    {
      Tables(users, books, copies, loans, waitList, categories, logs, nextLoanId, nextCopyId, nextEntryId)
    }

    ghost predicate Valid()
      reads this
    {
      TablesValid(State())
    }

    /** An empty database; auto-increment ids start at 1. */
    constructor ()
      ensures Valid()
      ensures State() == Tables([], [], [], [], [], [], [], 1, 1, 1)
    {
      users, books, copies, loans, waitList, categories, logs := [], [], [], [], [], [], [];
      nextLoanId, nextCopyId, nextEntryId := 1, 1, 1;
    }

    /** `waitList.updateMany` decrementing the positions of book b above p,
        row by row. */
    method ShiftPositions(b: nat, p: int)
      modifies this
      ensures State() == old(State()).(waitList := ShiftAfter(old(waitList), b, p))
    {
      var k := 0;
      while k < |waitList|
        invariant 0 <= k <= |waitList| == |old(waitList)|
        invariant forall j :: 0 <= j < k ==> waitList[j] == Shifted(old(waitList)[j], b, p)
        invariant forall j :: k <= j < |waitList| ==> waitList[j] == old(waitList)[j]
        invariant State() == old(State()).(waitList := waitList)
      {
        if waitList[k].bookId == b && waitList[k].position > p {
          waitList := waitList[k := waitList[k].(position := waitList[k].position - 1)];
        }
        k := k + 1;
      }
    }
  }

  // ---- row lookups (`findUnique` / `findFirst` by key) ----

  function UserIndex(users: seq<User>, id: UserId): Option<nat> {
    FindFirst(users, (u: User) => u.id == id)
  }

  function BookIndex(books: seq<Book>, id: nat): Option<nat> {
    FindFirst(books, (b: Book) => b.id == id)
  }

  function BookIndexByTitle(books: seq<Book>, title: string): Option<nat> {
    FindFirst(books, (b: Book) => b.title == title)
  }

  function CopyIndex(copies: seq<Copy>, id: nat): Option<nat> {
    FindFirst(copies, (c: Copy) => c.id == id)
  }

  function CopyIndexByIsbn(copies: seq<Copy>, isbn: string): Option<nat> {
    FindFirst(copies, (c: Copy) => c.isbn == isbn)
  }

  function LoanIndex(loans: seq<Loan>, id: nat): Option<nat> {
    FindFirst(loans, (l: Loan) => l.id == id)
  }

  function EntryIndex(w: seq<WaitEntry>, id: nat): Option<nat> {
    FindFirst(w, (e: WaitEntry) => e.id == id)
  }

  /** `findWaitListByIds`: the first entry of this user for this book. */
  function FindWaitEntry(w: seq<WaitEntry>, bookId: nat, userId: UserId): (r: Option<nat>)
    ensures r.Some? ==> r.value < |w| && w[r.value].bookId == bookId && w[r.value].userId == userId
    ensures r.None? <==> forall j :: 0 <= j < |w| ==> !(w[j].bookId == bookId && w[j].userId == userId)
  {
    FindFirst(w, (e: WaitEntry) => e.bookId == bookId && e.userId == userId)
  }

  /** A dense wait list has one entry per (book, user): the entry found is the only one. */
  lemma FindWaitEntryUnique(w: seq<WaitEntry>, next: nat, bookId: nat, userId: UserId)
    requires WellFormed(w, next) && FindWaitEntry(w, bookId, userId).Some?
    ensures forall j :: 0 <= j < |w| && w[j].bookId == bookId && w[j].userId == userId ==>
      j == FindWaitEntry(w, bookId, userId).value
  {
  }

  // ---- keeping the primary keys valid ----

  lemma LoanIdsAppend(loans: seq<Loan>, l: Loan, next: nat)
    requires LoanIdsOk(loans, next) && l.id == next
    ensures LoanIdsOk(loans + [l], next + 1)
  {
  }

  lemma CopyIdsAppend(copies: seq<Copy>, c: Copy, next: nat)
    requires CopyIdsOk(copies, next) && c.id == next
    ensures CopyIdsOk(copies + [c], next + 1)
  {
  }

  lemma LoanIdsUpdate(loans: seq<Loan>, i: nat, l: Loan, next: nat)
    requires LoanIdsOk(loans, next) && i < |loans| && l.id == loans[i].id
    ensures LoanIdsOk(loans[i := l], next)
  {
  }

  lemma CopyIdsUpdate(copies: seq<Copy>, i: nat, c: Copy, next: nat)
    requires CopyIdsOk(copies, next) && i < |copies| && c.id == copies[i].id
    ensures CopyIdsOk(copies[i := c], next)
  {
  }

  lemma CopyIdsRemove(copies: seq<Copy>, i: nat, next: nat)
    requires CopyIdsOk(copies, next) && i < |copies|
    ensures CopyIdsOk(copies[..i] + copies[i + 1..], next)
  {
    var r := copies[..i] + copies[i + 1..];
    forall a, b | 0 <= a < |r| && 0 <= b < |r| && a != b
      ensures r[a].id != r[b].id
    {
      var ma := if a < i then a else a + 1;
      var mb := if b < i then b else b + 1;
      assert r[a] == copies[ma] && r[b] == copies[mb];
    }
  }
}
