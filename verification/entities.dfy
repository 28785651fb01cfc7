/** The rows of the library's tables and the handlers' outcomes. */
module Entities {
  import opened Base
  import opened Calendar

  type UserId = string

  datatype Role = USER | ADMIN

  datatype LoanStatus = REQUESTED | ONGOING | OVERDUE | RETURNED | TERMINATED

  datatype Condition = GOOD | BAD

  datatype User = User(
    id: UserId,
    name: string,
    email: string,
    cpf: string,
    phone: string,
    password: string,   // the stored password hash
    role: Role,
    isBlocked: bool)

  datatype Book = Book(
    id: nat,
    title: string,
    categoryId: Option<nat>,
    copies: int,            // total physical copies
    copiesAvailable: int)   // copies not currently out on loan

  datatype Copy = Copy(
    id: nat,
    bookId: nat,
    bookTitle: string,
    isbn: string,
    condition: Condition,
    isLoaned: bool)

  /** A loan keeps a snapshot of the user's name, the book's title and the
      copy's ISBN; its links to user, book and copy are optional because
      returning or terminating it clears them. */
  datatype Loan = Loan(
    id: nat,
    userName: string,
    userId: Option<UserId>,
    bookTitle: string,
    bookId: Option<nat>,
    isbn: string,
    copyId: Option<nat>,
    loanDate: Option<Instant>,
    expirationDate: Option<Instant>,
    returnDate: Option<Instant>,
    status: LoanStatus,
    postponed: bool,
    archived: bool)

  datatype WaitEntry = WaitEntry(
    id: nat,
    userName: string,
    userId: UserId,
    bookTitle: string,
    bookId: nat,
    position: int)

  datatype Category = Category(id: nat, name: string)

  datatype Action = CREATE | UPDATE | DELETE | START | RETURN | TERMINATE

  datatype EntityType = LOAN | COPY | USER | BOOK

  datatype AdminLog = AdminLog(
    adminId: UserId,
    adminName: string,
    action: Action,
    entityType: EntityType,
    entityId: string,
    entityName: string,
    time: Instant)

  /** What the authentication layer tells a handler about its caller. */
  datatype Caller = Caller(id: UserId, name: string, role: Role)

  /** The business-rule messages the validation functions return. */
  datatype Reason =
    // createLoanValidation
    | UserBlocked | HasOverdueLoans | NoCopiesAvailable | LoanLimitReached | AlreadyHasLoan | RecentLoan
    // postponeLoanValidation and terminateLoanValidation
    | AlreadyPostponed | NotStarted | AlreadyFinished | SomebodyWaiting
    // enterWaitListValidation
    | CopiesAvailable | AlreadyWaiting | WaitListLimit
    // copies
    | IsbnInvalid | IsbnTaken | CopyLoaned
    // users
    | EmailTaken | CpfTaken | NameTaken | PhoneTaken | HasActiveLoans | WrongPassword
    // books and categories
    | TitleTaken | BookHasActiveLoans | CategoryTaken

  /** Why a handler changed nothing. `RolledBack`: a write inside the
      transaction found no row and threw, so every earlier write of the
      transaction was undone. */
  datatype Failure = NotFound | Forbidden | Rejected(reason: Reason) | RolledBack | NoReply

  datatype Outcome<+T> = Ok(value: T) | Fail(failure: Failure)
}
