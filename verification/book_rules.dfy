/** The book and category validations. */
module BookRules {
  import opened Base
  import opened Chars
  import opened Entities

  ghost predicate TitleUsed(books: seq<Book>, title: string) {
    exists i :: 0 <= i < |books| && SameIgnoringCase(books[i].title, title)
  }

  ghost predicate TitleUsedByOther(books: seq<Book>, id: nat, title: string) {
    exists i :: 0 <= i < |books| && books[i].id != id && SameIgnoringCase(books[i].title, title)
  }

  /** `registerBookValidation`: refused when some book has this title, ignoring case. */
  function RegisterBookValidation(books: seq<Book>, title: string): (r: Option<Reason>)
    ensures r.None? <==> !TitleUsed(books, title)
    ensures r.Some? ==> r.value == TitleTaken
  {
    if FindFirst(books, (b: Book) => SameIgnoringCase(b.title, title)).Some? then Some(TitleTaken) else None
  }

  /** `updateBookValidation`: as registration, over the other books. */
  function UpdateBookValidation(books: seq<Book>, id: nat, title: string): (r: Option<Reason>)
    ensures r.None? <==> !TitleUsedByOther(books, id, title)
    ensures r.Some? ==> r.value == TitleTaken
  {
    if FindFirst(books, (b: Book) => b.id != id && SameIgnoringCase(b.title, title)).Some? then Some(TitleTaken) else None
  }

  /** A title free for registration is free for any update; a book keeping
      its own title conflicts with nobody when titles were distinct. */
  lemma UpdateIsLaxerThanRegister(books: seq<Book>, id: nat, title: string)
    ensures RegisterBookValidation(books, title).None? ==> UpdateBookValidation(books, id, title).None?
    ensures (forall i :: 0 <= i < |books| && books[i].id != id ==> !SameIgnoringCase(books[i].title, title)) ==>
      UpdateBookValidation(books, id, title).None?
  {
  }

  function ActiveOnTitle(title: string): Loan -> bool {
    (l: Loan) => l.bookTitle == title && l.status == ONGOING
  }

  /** `deleteBookValidation`: refused while a loan carrying the book's title
      (exactly) is ONGOING. Requested and overdue loans do not block it. */
  function DeleteBookValidation(loans: seq<Loan>, title: string): (r: Option<Reason>)
    ensures r.None? <==> forall i :: 0 <= i < |loans| ==> !(loans[i].bookTitle == title && loans[i].status == ONGOING)
    ensures r.Some? ==> r.value == BookHasActiveLoans
  {
    CountPositive(loans, ActiveOnTitle(title));
    if Count(loans, ActiveOnTitle(title)) > 0 then Some(BookHasActiveLoans) else None
  }

  /** Only ONGOING loans matter: adding a loan in any other status, an
      overdue one included, never changes whether a book may be deleted. */
  lemma OverdueDoesNotBlockDelete(loans: seq<Loan>, l: Loan, title: string)
    requires l.status != ONGOING
    ensures DeleteBookValidation(loans + [l], title) == DeleteBookValidation(loans, title)
  {
    var all := loans + [l];
    assert forall i :: 0 <= i < |loans| ==> all[i] == loans[i];
    assert all[|loans|] == l;
  }

  /** `createCategoryValidation`: refused when a category has this name, ignoring case. */
  function CreateCategoryValidation(categories: seq<Category>, name: string): (r: Option<Reason>)
    ensures r.None? <==> forall i :: 0 <= i < |categories| ==> !SameIgnoringCase(categories[i].name, name)
    ensures r.Some? ==> r.value == CategoryTaken
  {
    if FindFirst(categories, (c: Category) => SameIgnoringCase(c.name, name)).Some? then Some(CategoryTaken) else None
  }
}
