/** The administration dashboard's aggregates: per-category totals, the five
    categories with the most loans and the email counters; and the two
    before-hooks that pin the loan list to active or archived loans. */
module Dashboard {
  import opened Base
  import opened Entities
  import opened EmailManager

  /** A book as the category query loads it: its counters and how many loan
      rows still point at it. */
  datatype BookStat = BookStat(copies: int, copiesAvailable: int, loans: nat)

  /** A category with its books, as `category.findMany` returns it. */
  datatype CategoryView = CategoryView(name: string, books: seq<BookStat>)

  datatype CategorySummary = CategorySummary(
    categoryName: string,
    bookCount: nat,
    totalCopies: int,
    availableCopies: int,
    totalLoans: int)

  function InCategory(id: nat): Book -> bool {
    (b: Book) => b.categoryId == Some(id)
  }

  function LinkedTo(id: nat): Loan -> bool {
    (l: Loan) => l.bookId == Some(id)
  }

  /** The nested select: the category's books in table order, each with the
      loans linked to it. Closing a loan unlinks it from its book, so only
      loans that are still open or expired requests are counted. */
  function Load(c: Category, books: seq<Book>, loans: seq<Loan>): (v: CategoryView)
    ensures v.name == c.name && |v.books| == Count(books, InCategory(c.id))
  {
    var bs := Filter(books, InCategory(c.id));
    CategoryView(c.name, seq(|bs|, i requires 0 <= i < |bs| =>
      BookStat(bs[i].copies, bs[i].copiesAvailable, Count(loans, LinkedTo(bs[i].id)))))
  }

  function CopiesOf(): BookStat -> int { (b: BookStat) => b.copies }
  function AvailableOf(): BookStat -> int { (b: BookStat) => b.copiesAvailable }
  function LoansOf(): BookStat -> int { (b: BookStat) => b.loans }

  /** The sum of f over the books, added up from the first. */
  function Total(bs: seq<BookStat>, f: BookStat -> int): int {
    if |bs| == 0 then 0 else Total(bs[..|bs| - 1], f) + f(bs[|bs| - 1])
  }

  /** The row the dashboard shows for a category; a category without books
      shows zeros. */
  function Summary(c: CategoryView): CategorySummary {
    CategorySummary(c.name, |c.books|, Total(c.books, CopiesOf()), Total(c.books, AvailableOf()), Total(c.books, LoansOf()))
  }

  /** Totals of two runs of books add up. */
  lemma {:induction false} TotalAppend(a: seq<BookStat>, b: seq<BookStat>, f: BookStat -> int)
    ensures Total(a + b, f) == Total(a, f) + Total(b, f)
  {
    if |b| == 0 {
      assert a + b == a;
    } else {
      assert (a + b)[..|a + b| - 1] == a + b[..|b| - 1];
      TotalAppend(a, b[..|b| - 1], f);
    }
  }

  /** When every book has between none and all of its copies available, so
      does the category. */
  lemma {:induction false} AvailableWithinCopies(bs: seq<BookStat>)
    requires forall i :: 0 <= i < |bs| ==> 0 <= bs[i].copiesAvailable <= bs[i].copies
    ensures 0 <= Total(bs, AvailableOf()) <= Total(bs, CopiesOf())
  {
    if |bs| > 0 {
      AvailableWithinCopies(bs[..|bs| - 1]);
    }
  }

  /** One category's row: the forEach over its books adding up copies,
      available copies and loans. */
  method Summarize(c: CategoryView) returns (s: CategorySummary)
    ensures s == Summary(c)
  {
    var totalCopiesCount, availableCopiesCount, totalLoansCount := 0, 0, 0;
    for i := 0 to |c.books|
      invariant totalCopiesCount == Total(c.books[..i], CopiesOf())
      invariant availableCopiesCount == Total(c.books[..i], AvailableOf())
      invariant totalLoansCount == Total(c.books[..i], LoansOf())
    {
      assert c.books[..i + 1][..i] == c.books[..i];
      var book := c.books[i];
      totalCopiesCount := totalCopiesCount + book.copies;
      availableCopiesCount := availableCopiesCount + book.copiesAvailable;
      totalLoansCount := totalLoansCount + book.loans;
    }
    assert c.books[..|c.books|] == c.books;
    s := CategorySummary(c.name, |c.books|, totalCopiesCount, availableCopiesCount, totalLoansCount);
  }

  /** Every category's row, in the order of the category table. */
  method CategoryTotals(categories: seq<Category>, books: seq<Book>, loans: seq<Loan>) returns (r: seq<CategorySummary>)
    ensures |r| == |categories|
    ensures forall i :: 0 <= i < |r| ==> r[i] == Summary(Load(categories[i], books, loans))
    ensures forall i :: 0 <= i < |r| ==>
      r[i].categoryName == categories[i].name && r[i].bookCount == Count(books, InCategory(categories[i].id))
  {
    r := [];
    for i := 0 to |categories|
      invariant |r| == i
      invariant forall j :: 0 <= j < i ==> r[j] == Summary(Load(categories[j], books, loans))
    {
      var s := Summarize(Load(categories[i], books, loans));
      r := r + [s];
    }
  }

  // ----- The top five -----

  ghost predicate NonIncreasing(s: seq<CategorySummary>) {
    forall i, j :: 0 <= i < j < |s| ==> s[i].totalLoans >= s[j].totalLoans
  }

  /** Puts x after every entry with at least as many loans: x came later in
      the input, so ties keep their input order, as a stable sort does. */
  function InsertByLoans(sorted: seq<CategorySummary>, x: CategorySummary): (r: seq<CategorySummary>)
    ensures multiset(r) == multiset(sorted) + multiset{x} && |r| == |sorted| + 1
  {
    if |sorted| == 0 then [x]
    else if sorted[0].totalLoans >= x.totalLoans then
      assert sorted == [sorted[0]] + sorted[1..];
      [sorted[0]] + InsertByLoans(sorted[1..], x)
    else [x] + sorted
  }

  lemma {:induction false} InsertKeepsOrder(sorted: seq<CategorySummary>, x: CategorySummary)
    requires NonIncreasing(sorted)
    ensures NonIncreasing(InsertByLoans(sorted, x))
  {
    if |sorted| > 0 && sorted[0].totalLoans >= x.totalLoans {
      var rest := InsertByLoans(sorted[1..], x);
      InsertKeepsOrder(sorted[1..], x);
      forall k | 0 <= k < |rest|
        ensures sorted[0].totalLoans >= rest[k].totalLoans
      {
        assert rest[k] in multiset(rest);
        assert rest[k] in multiset(sorted[1..]) + multiset{x};
        if rest[k] != x {
          assert rest[k] in sorted[1..];
        }
      }
    }
  }

  /** `sort((a, b) => b.totalLoans - a.totalLoans)`: a stable sort by loans,
      most first. */
  function SortByLoans(s: seq<CategorySummary>): (r: seq<CategorySummary>)
    ensures multiset(r) == multiset(s) && |r| == |s|
  {
    if |s| == 0 then []
    else
      assert s == s[..|s| - 1] + [s[|s| - 1]];
      InsertByLoans(SortByLoans(s[..|s| - 1]), s[|s| - 1])
  }

  lemma {:induction false} SortByLoansSorted(s: seq<CategorySummary>)
    ensures NonIncreasing(SortByLoans(s))
  {
    if |s| > 0 {
      SortByLoansSorted(s[..|s| - 1]);
      InsertKeepsOrder(SortByLoans(s[..|s| - 1]), s[|s| - 1]);
    }
  }

  /** `.slice(0, 5)` of the sorted rows: at most five, most loans first,
      each one of the rows, and no row left out has more loans than one
      kept. */
  function TopCategories(categories: seq<CategorySummary>): (r: seq<CategorySummary>)
    ensures |r| == if |categories| < 5 then |categories| else 5
    ensures NonIncreasing(r)
    ensures forall x :: x in r ==> x in categories
    ensures forall x, y :: x in categories && x !in r && y in r ==> y.totalLoans >= x.totalLoans
  {
    var s := SortByLoans(categories);
    var n := if |s| < 5 then |s| else 5;
    SortByLoansSorted(categories);
    TopFacts(categories, s, n);
    s[..n]
  }

  lemma TopFacts(categories: seq<CategorySummary>, s: seq<CategorySummary>, n: nat)
    requires s == SortByLoans(categories) && NonIncreasing(s) && n <= |s|
    ensures forall x :: x in s[..n] ==> x in categories
    ensures forall x, y :: x in categories && x !in s[..n] && y in s[..n] ==> y.totalLoans >= x.totalLoans
  {
    forall x | x in s[..n]
      ensures x in categories
    {
      assert x in multiset(s);
    }
    forall x, y | x in categories && x !in s[..n] && y in s[..n]
      ensures y.totalLoans >= x.totalLoans
    {
      assert x in multiset(categories);
      var k :| 0 <= k < |s| && s[k] == x;
      var j :| 0 <= j < n && s[..n][j] == y;
      assert k >= n;
    }
  }

  // ----- Email counters -----

  datatype EmailTotals = EmailTotals(totalSent: int, remaining: int)

  /** The email card: the sent count is taken from a fixed 99, not from the
      configured limit, so it shows the day's count only while the limit is 99. */
  function EmailSummary(mgr: Manager): (r: EmailTotals)
    reads mgr
    ensures r.totalSent + r.remaining == 99
    ensures r.remaining + mgr.emailCount == mgr.config.dailyEmailLimit
    ensures r.totalSent == mgr.emailCount <==> mgr.config.dailyEmailLimit == 99
  {
    EmailTotals(99 - mgr.GetRemainingEmails(), mgr.GetRemainingEmails())
  }

  // ----- The settings page -----

  /** The settings page: a read (no payload) answers the configuration; a
      save (a payload) merges it first. Either way the email block is left
      as it was. */
  method SettingsPage(mgr: Manager, payload: Option<ConfigPatch>) returns (config: Config)
    modifies mgr
    ensures config == mgr.GetConfig() && mgr.Data().email == old(mgr.Data().email)
    ensures payload.None? ==> mgr.Data() == old(mgr.Data())
    ensures payload.Some? ==> config == Merge(old(mgr.GetConfig()), payload.value)
  {
    if payload.Some? {
      mgr.SetConfig(payload.value);
    }
    config := mgr.GetConfig();
  }

  // ----- The loan-list hooks -----

  datatype FilterValue = Text(text: string) | Flag(flag: bool)

  /** A list request's query: its filters, when any, and its other
      parameters (page, sort order, …). */
  datatype Query = Query(filters: Option<map<string, FilterValue>>, params: map<string, string>)

  class ActionRequest {
    var query: Option<Query>

    constructor (query: Option<Query>)
      ensures this.query == query
    {
      this.query := query;
    }
  }

  /** The query after `filters = { ...filters, archived }`, a missing query
      first replaced by an empty one. */
  function WithArchived(q: Option<Query>, archived: bool): (r: Query)
    ensures r.filters.Some? && "archived" in r.filters.value && r.filters.value["archived"] == Flag(archived)
    ensures q.Some? && q.value.filters.Some? ==>
      forall k :: k in q.value.filters.value && k != "archived" ==>
        k in r.filters.value && r.filters.value[k] == q.value.filters.value[k]
    ensures forall k :: k in r.filters.value && k != "archived" ==>
      q.Some? && q.value.filters.Some? && k in q.value.filters.value
    ensures r.params == if q.Some? then q.value.params else map[]
  {
    var base := if q.Some? then q.value else Query(None, map[]);
    var current := if base.filters.Some? then base.filters.value else map[];
    base.(filters := Some(current["archived" := Flag(archived)]))
  }

  /** A later hook overrides an earlier one, and running one twice is
      running it once. */
  lemma LastHookWins(q: Option<Query>, a: bool, b: bool)
    ensures WithArchived(Some(WithArchived(q, a)), b) == WithArchived(q, b)
  {
    var r1 := WithArchived(Some(WithArchived(q, a)), b);
    var r2 := WithArchived(q, b);
    assert r1.filters.value == r2.filters.value;
  }

  /** Whether a loan row passes the archived filter of a list request. */
  predicate PassesArchived(f: map<string, FilterValue>, l: Loan) {
    "archived" in f && f["archived"].Flag? ==> l.archived == f["archived"].flag
  }

  /** After a hook, the list shows exactly the loans with the hook's flag. */
  lemma HookSelectsByFlag(q: Option<Query>, archived: bool, l: Loan)
    ensures PassesArchived(WithArchived(q, archived).filters.value, l) <==> l.archived == archived
  {
  }

  /** `activeLoansBeforeHook`. */
  method ActiveLoansBeforeHook(request: ActionRequest)
    modifies request
    ensures request.query == Some(WithArchived(old(request.query), false))
  {
    if request.query.None? {
      request.query := Some(Query(None, map[]));
    }
    var q := request.query.value;
    var filters := if q.filters.Some? then q.filters.value else map[];
    request.query := Some(q.(filters := Some(filters["archived" := Flag(false)])));
  }

  /** `archivedLoansBeforeHook`. */
  method ArchivedLoansBeforeHook(request: ActionRequest)
    modifies request
    ensures request.query == Some(WithArchived(old(request.query), true))
  {
    if request.query.None? {
      request.query := Some(Query(None, map[]));
    }
    var q := request.query.value;
    var filters := if q.filters.Some? then q.filters.value else map[];
    request.query := Some(q.(filters := Some(filters["archived" := Flag(true)])));
  }
}
