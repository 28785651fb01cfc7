/** The copy handlers: adding a copy of a book, editing one, deleting one.
    Each keeps the book's count of copies on loan (`copies - copiesAvailable`)
    and, when no two copies shared an ISBN up to case before, none do after. */
module CopyHandlers {
  import opened Base
  import opened Chars
  import opened Entities
  import opened CopyRules
  import opened Store

  /** No two copies carry the same ISBN, compared ignoring case. */
  ghost predicate IsbnsDistinct(copies: seq<Copy>) {
    forall i, j :: 0 <= i < |copies| && 0 <= j < |copies| && i != j ==>
      !SameIgnoringCase(copies[i].isbn, copies[j].isbn)
  }

  function OnLoan(): Copy -> bool {
    (c: Copy) => c.isLoaned
  }

  /** How many copies are out on loan. */
  function LoanedCopies(copies: seq<Copy>): nat {
    Count(copies, OnLoan())
  }

  /** The audit row of a copy change: the book's id and the copy's ISBN. */
  function CopyLog(caller: Caller, action: Action, bookId: nat, isbn: string, now: int): AdminLog {
    AdminLog(caller.id, caller.name, action, COPY, NatToString(bookId), isbn, now)
  }

  /** `createCopyHandler`: the ISBN is checked and stored in its formatted
      form; the book gains one copy, available. */
  method CreateCopy(db: Database, caller: Caller, bookId: nat, isbn: string, condition: Condition, now: int)
    returns (o: Outcome<Copy>)
    requires db.Valid()
    modifies db
    ensures db.Valid()
    ensures o.Fail? ==> db.State() == old(db.State())
    ensures o == Fail(NotFound) <==> BookIndex(old(db.books), bookId).None?
    ensures o == Fail(Rejected(IsbnInvalid)) <==> BookIndex(old(db.books), bookId).Some? && IsbnSpec(isbn).None?
    ensures o == Fail(Rejected(IsbnTaken)) <==>
      BookIndex(old(db.books), bookId).Some? && IsbnSpec(isbn).Some? && IsbnUsed(old(db.copies), IsbnSpec(isbn).value)
    ensures o.Fail? ==> o.failure in {NotFound, Rejected(IsbnInvalid), Rejected(IsbnTaken)}
    ensures o.Ok? ==>
      && BookIndex(old(db.books), bookId).Some? && IsbnSpec(isbn).Some?
      && var bi := BookIndex(old(db.books), bookId).value;
         var b := old(db.books)[bi];
         && o.value == Copy(old(db.nextCopyId), bookId, b.title, IsbnSpec(isbn).value, condition, false)
         && db.State() == old(db.State()).(
              copies := old(db.copies) + [o.value],
              books := old(db.books)[bi := b.(copies := b.copies + 1, copiesAvailable := b.copiesAvailable + 1)],
              logs := old(db.logs) + [CopyLog(caller, CREATE, bookId, o.value.isbn, now)],
              nextCopyId := old(db.nextCopyId) + 1)
    ensures IsbnsDistinct(old(db.copies)) ==> IsbnsDistinct(db.copies)
    ensures LoanedCopies(db.copies) == LoanedCopies(old(db.copies))
  {
    var bi := BookIndex(db.books, bookId);
    if bi.None? {
      return Fail(NotFound);
    }
    var formatted := ValidateIsbn(isbn);
    if formatted.None? {
      return Fail(Rejected(IsbnInvalid));
    }
    var err := CreateCopyValidation(db.copies, formatted.value);
    if err.Some? {
      return Fail(Rejected(err.value));
    }
    var book := db.books[bi.value];
    var copy := Copy(db.nextCopyId, bookId, book.title, formatted.value, condition, false);
    AppendKeepsDistinct(db.copies, copy);
    AddCopy(db, bi.value, copy, CopyLog(caller, CREATE, bookId, copy.isbn, now));
    o := Ok(copy);
  }

  /** The writes of `createCopyHandler`'s transaction. */
  method AddCopy(db: Database, bi: nat, copy: Copy, log: AdminLog)
    requires db.Valid() && bi < |db.books| && copy.id == db.nextCopyId && !copy.isLoaned
    modifies db
    ensures db.Valid()
    ensures db.State() == old(db.State()).(
      copies := old(db.copies) + [copy],
      books := old(db.books)[bi := old(db.books)[bi].(copies := old(db.books)[bi].copies + 1,
                                                      copiesAvailable := old(db.books)[bi].copiesAvailable + 1)],
      logs := old(db.logs) + [log],
      nextCopyId := old(db.nextCopyId) + 1)
    ensures LoanedCopies(db.copies) == LoanedCopies(old(db.copies))
  {
    var book := db.books[bi];
    CopyIdsAppend(db.copies, copy, db.nextCopyId);
    CountAppend(db.copies, [copy], OnLoan());
    assert Count([copy], OnLoan()) == 0 by { assert [copy][..0] == []; }
    db.copies := db.copies + [copy];
    db.nextCopyId := db.nextCopyId + 1;
    db.books := db.books[bi := book.(copies := book.copies + 1, copiesAvailable := book.copiesAvailable + 1)];
    db.logs := db.logs + [log];
  }

  /** `editCopyHandler`: the new ISBN is stored as given, neither checked nor
      formatted; the audit row names the ISBN the copy had before. */
  method EditCopy(db: Database, caller: Caller, id: nat, isbn: string, condition: Condition, now: int)
    returns (o: Outcome<Copy>)
    requires db.Valid()
    modifies db
    ensures db.Valid()
    ensures o.Fail? ==> db.State() == old(db.State())
    ensures o == Fail(NotFound) <==> CopyIndex(old(db.copies), id).None?
    ensures o == Fail(Rejected(IsbnTaken)) <==>
      CopyIndex(old(db.copies), id).Some? && IsbnUsedByOther(old(db.copies), id, isbn)
    ensures o.Fail? ==> o.failure in {NotFound, Rejected(IsbnTaken)}
    ensures o.Ok? ==>
      && CopyIndex(old(db.copies), id).Some?
      && var ci := CopyIndex(old(db.copies), id).value;
         var c := old(db.copies)[ci];
         && o.value == c.(isbn := isbn, condition := condition)
         && db.State() == old(db.State()).(
              copies := old(db.copies)[ci := o.value],
              logs := old(db.logs) + [CopyLog(caller, UPDATE, c.bookId, c.isbn, now)])
    ensures IsbnsDistinct(old(db.copies)) ==> IsbnsDistinct(db.copies)
    ensures LoanedCopies(db.copies) == LoanedCopies(old(db.copies))
  {
    var ci := CopyIndex(db.copies, id);
    if ci.None? {
      return Fail(NotFound);
    }
    var copy := db.copies[ci.value];
    var err := EditCopyValidation(db.copies, copy.id, isbn);
    if err.Some? {
      return Fail(Rejected(err.value));
    }
    var edited := copy.(isbn := isbn, condition := condition);
    CopyIdsUpdate(db.copies, ci.value, edited, db.nextCopyId);
    CountUpdate(db.copies, ci.value, edited, OnLoan());
    UpdateKeepsDistinct(db.copies, ci.value, edited);
    db.copies := db.copies[ci.value := edited];
    db.logs := db.logs + [CopyLog(caller, UPDATE, copy.bookId, copy.isbn, now)];
    o := Ok(edited);
  }

  /** `deleteCopyHandler`: refused for a copy on loan; the book carrying the
      copy's title loses one copy and one available copy. When no book has
      that title the update throws and nothing is deleted. */
  method DeleteCopy(db: Database, caller: Caller, id: nat, now: int) returns (o: Outcome<()>)
    requires db.Valid()
    modifies db
    ensures db.Valid()
    ensures o.Fail? ==> db.State() == old(db.State())
    ensures o == Fail(NotFound) <==> CopyIndex(old(db.copies), id).None?
    ensures o == Fail(Rejected(CopyLoaned)) <==>
      CopyIndex(old(db.copies), id).Some? && old(db.copies)[CopyIndex(old(db.copies), id).value].isLoaned
    ensures o == Fail(RolledBack) <==>
      && CopyIndex(old(db.copies), id).Some?
      && var c := old(db.copies)[CopyIndex(old(db.copies), id).value];
         !c.isLoaned && BookIndexByTitle(old(db.books), c.bookTitle).None?
    ensures o.Fail? ==> o.failure in {NotFound, Rejected(CopyLoaned), RolledBack}
    ensures o.Ok? ==>
      && CopyIndex(old(db.copies), id).Some?
      && var ci := CopyIndex(old(db.copies), id).value;
         var c := old(db.copies)[ci];
         && !c.isLoaned && BookIndexByTitle(old(db.books), c.bookTitle).Some?
         && var bi := BookIndexByTitle(old(db.books), c.bookTitle).value;
            var b := old(db.books)[bi];
            db.State() == old(db.State()).(
              copies := old(db.copies)[..ci] + old(db.copies)[ci + 1..],
              books := old(db.books)[bi := b.(copies := b.copies - 1, copiesAvailable := b.copiesAvailable - 1)],
              logs := old(db.logs) + [CopyLog(caller, DELETE, c.bookId, c.isbn, now)])
    ensures o.Ok? ==> CopyIndex(db.copies, id).None?
    ensures IsbnsDistinct(old(db.copies)) ==> IsbnsDistinct(db.copies)
    ensures LoanedCopies(db.copies) == LoanedCopies(old(db.copies))
  {
    var ci := CopyIndex(db.copies, id);
    if ci.None? {
      return Fail(NotFound);
    }
    var copy := db.copies[ci.value];
    var err := DeleteCopyValidation(copy);
    if err.Some? {
      return Fail(Rejected(err.value));
    }
    var bi := BookIndexByTitle(db.books, copy.bookTitle);
    if bi.None? {
      return Fail(RolledBack);
    }
    RemovedKeepsDistinct(db.copies, ci.value);
    IdGone(db.copies, ci.value, db.nextCopyId);
    RemoveCopy(db, ci.value, bi.value, CopyLog(caller, DELETE, copy.bookId, copy.isbn, now));
    o := Ok(());
  }

  /** The writes of `deleteCopyHandler`'s transaction. */
  method RemoveCopy(db: Database, ci: nat, bi: nat, log: AdminLog)
    requires db.Valid() && ci < |db.copies| && bi < |db.books| && !db.copies[ci].isLoaned
    modifies db
    ensures db.Valid()
    ensures db.State() == old(db.State()).(
      copies := old(db.copies)[..ci] + old(db.copies)[ci + 1..],
      books := old(db.books)[bi := old(db.books)[bi].(copies := old(db.books)[bi].copies - 1,
                                                      copiesAvailable := old(db.books)[bi].copiesAvailable - 1)],
      logs := old(db.logs) + [log])
    ensures LoanedCopies(db.copies) == LoanedCopies(old(db.copies))
  {
    var book := db.books[bi];
    CopyIdsRemove(db.copies, ci, db.nextCopyId);
    CountRemove(db.copies, ci, OnLoan());
    db.books := db.books[bi := book.(copies := book.copies - 1, copiesAvailable := book.copiesAvailable - 1)];
    db.copies := db.copies[..ci] + db.copies[ci + 1..];
    db.logs := db.logs + [log];
  }

  lemma RemovedKeepsDistinct(copies: seq<Copy>, i: nat)
    requires i < |copies|
    ensures IsbnsDistinct(copies) ==> IsbnsDistinct(copies[..i] + copies[i + 1..])
  {
    var r := copies[..i] + copies[i + 1..];
    if IsbnsDistinct(copies) {
      forall a, b | 0 <= a < |r| && 0 <= b < |r| && a != b
        ensures !SameIgnoringCase(r[a].isbn, r[b].isbn)
      {
        var ma := if a < i then a else a + 1;
        var mb := if b < i then b else b + 1;
        assert r[a] == copies[ma] && r[b] == copies[mb];
      }
    }
  }

  /** Ids being distinct, the deleted copy's id leaves the table with it. */
  lemma IdGone(copies: seq<Copy>, i: nat, next: nat)
    requires CopyIdsOk(copies, next) && i < |copies|
    ensures CopyIndex(copies[..i] + copies[i + 1..], copies[i].id).None?
  {
    var r := copies[..i] + copies[i + 1..];
    forall j | 0 <= j < |r|
      ensures r[j].id != copies[i].id
    {
      var m := if j < i then j else j + 1;
      assert r[j] == copies[m];
    }
  }

  lemma AppendKeepsDistinct(copies: seq<Copy>, c: Copy)
    requires !IsbnUsed(copies, c.isbn)
    ensures IsbnsDistinct(copies) ==> IsbnsDistinct(copies + [c])
  {
  }

  lemma UpdateKeepsDistinct(copies: seq<Copy>, i: nat, c: Copy)
    requires i < |copies| && c.id == copies[i].id && !IsbnUsedByOther(copies, c.id, c.isbn)
    requires forall j :: 0 <= j < |copies| && j != i ==> copies[j].id != c.id
    ensures IsbnsDistinct(copies) ==> IsbnsDistinct(copies[i := c])
  {
  }
}
