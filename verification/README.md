# Library loans, copies, wait lists and notices — a Dafny model

This project models the core of a small library back end. The system has:

- users, who borrow books;
- books, each with counters of physical copies and available copies;
- copies, each identified by an ISBN;
- loans, which move REQUESTED → ONGOING → OVERDUE → RETURNED / TERMINATED;
- per-book wait lists, kept in dense positions 1..N;
- an audit log of administrator actions;
- a small persisted throttle that limits the daily number of emails and schedules the overdue-notice task.

The model covers:

- the request handlers that change loans, copies, wait lists and users;
- the validations they call;
- the ISBN, CPF and phone checks and formats;
- the throttle;
- the three daily tasks;
- the dashboard aggregates and loan-list hooks of the administration panel;
- the test-data ISBN generator.

How the model is built:

- The database is a `Store.Database` object whose tables are sequences in table order. A `findFirst` answers the first matching row.
- Each handler is one method that changes the database in place. Every check runs before the first write, so a handler that fails changes nothing. That is how the source's transactions behave when a write inside them throws (`RolledBack`).
- The wait-list invariant is `WaitQueue.WellFormed`: within each book, N entries hold N distinct positions in 1..N, one entry per user. It is part of `Database.Valid()`, and every handler and task is proved to keep it.
- Time is an `int` of milliseconds. A day is `t / 86400000`, and day 0 is a Thursday. The throttle works on day numbers.

The model keeps the source's quirks as written:

- choosing a copy for a loan ignores the book;
- a return does not check the loan's status;
- starting a loan does not check its status either;
- terminating a loan leaves `copiesAvailable` alone;
- the expiry sweep leaves the copy marked as loaned;
- the email counter checks its limit before rolling over to a new day.

Lemmas state each quirk, and the three that are evidently unintended are listed under "## Findings". The module `Counters` states what a book's counters are meant to agree with: `copies - copiesAvailable` is the number of its loans that are ONGOING or OVERDUE. It shows which loan transitions keep that agreement and where the handlers break it.

## Model

| member | source | states |
|---|---|---|
| WaitQueue.HeadIndex | src/modules/loan/loan.controller.ts:281-284 | The head of a book's queue is an entry of that book with the least position, and the earliest row among equals; there is none exactly when the book has no entry |
| WaitQueue.ExitKeepsWellFormed | src/modules/loan/loan.controller.ts:522-535 | Deleting an entry and decrementing the positions above it in its book keeps positions dense, ids unique and one entry per user and book |
| WaitQueue.PromoteIsExit | src/modules/loan/loan.controller.ts:319-329 | Promotion decrements every position above 1; for the head of a dense queue this equals leaving the queue |
| WaitQueue.PromoteKeepsWellFormed | src/modules/loan/loan.controller.ts:281-329 | Removing the head and moving its queue up keeps the wait list well formed |
| WaitQueue.EnterKeepsWellFormed | src/modules/loan/loan.controller.ts:446-456 | Appending at position count+1 for a user not yet waiting keeps the wait list well formed |
| WaitQueue.EnterThenExit | src/modules/loan/loan.controller.ts:446-456 | Joining and then leaving gives back the same wait list |
| WaitQueue.ExitKeepsOtherBooks | src/modules/loan/loan.controller.ts:525-535 | Leaving one book's queue keeps every entry of other books unchanged |
| Store.Database.ShiftPositions | src/modules/loan/loan.controller.ts:525-535 | The row-by-row `updateMany` decrements exactly the positions above p of book b, and nothing else changes |
| Store.FindWaitEntry | src/modules/loan/loan.services.ts:179-190 | Finds an entry of this user for this book, or none exists |
| Store.FindWaitEntryUnique | src/modules/loan/loan.services.ts:179-190 | In a well-formed wait list the entry found is the only one of that user for that book |
| Calendar.Weekday | src/modules/loan/loan.services.ts:10-11 | `getDay` lies in 0..6 |
| LoanRules.ShiftOffWeekend | src/modules/loan/loan.services.ts:9-13 | A Saturday or Sunday start moves to Monday, within two days; a weekday start is unchanged |
| LoanRules.AdjustExpirationDate | src/modules/loan/loan.services.ts:6-25 | The result is a weekday at the same time of day, with exactly `daysToAdd` weekdays after the adjusted start |
| LoanRules.DeadlineIsEarliest | src/modules/loan/loan.services.ts:17-22 | The loop stops at the first weekday that completes the count, so no earlier weekday has that many weekdays behind it |
| LoanRules.CreateLoanValidation | src/modules/loan/loan.services.ts:27-91 | Each refusal holds iff its rule is the first one broken: blocked user, overdue loan, no available copy, three ONGOING loans, an existing loan of the book; the seven-day rule can never fire |
| LoanRules.NoSecondLoanOfSameBook | src/modules/loan/loan.services.ts:63-73 | Once a loan of the user for the book is recorded, a new request for the book is refused |
| LoanRules.RequestsDoNotCount | src/modules/loan/loan.services.ts:51-61 | Only ONGOING loans count towards the three-loan limit |
| LoanRules.PostponeLoanValidation | src/modules/loan/loan.services.ts:93-119 | Refused iff already postponed, not started, finished, or somebody waits for the book, in that order |
| LoanRules.TerminateLoanValidation | src/modules/loan/loan.services.ts:121-128 | Refused iff the loan is RETURNED or TERMINATED |
| LoanRules.EnterWaitListValidation | src/modules/loan/loan.services.ts:130-168 | Refused iff a copy of the book is free, or else the user already waits for it; the three-lists limit never fires, because it counts the same book |
| LoanHandlers.Closed | src/modules/loan/loan.controller.ts:255-266 | A closed loan is archived, has a return date and the given status, is unlinked from user, book and copy, and keeps its snapshot fields |
| LoanHandlers.CreateLoan | src/modules/loan/loan.controller.ts:48-105 | On a missing user, book or free copy: NotFound. On a validation error: that error. Both change nothing. On success: exactly one REQUESTED loan is appended (user's name, book's title, copy's ISBN and id), that copy becomes loaned, book counters are unchanged, and the deadline is the end of the third weekday |
| LoanHandlers.ApplyRequest | src/modules/loan/loan.controller.ts:77-99 | The request's writes: the loan appended with the next id and the copy marked loaned, nothing else |
| LoanHandlers.RequestingKeepsValid | src/modules/loan/loan.controller.ts:77-99 | Appending the loan under the next id and marking a copy loaned keep the primary keys and the wait list valid |
| LoanHandlers.StartLoan | src/modules/loan/loan.controller.ts:109-175 | Any existing loan becomes ONGOING from now, expiring at the end of day +7. The book with its title loses one available copy and a START log is appended. Without such a book everything rolls back. After the commit the reply is the started loan iff the loan still has a user whose row exists; otherwise the recipient lookup throws and the reply is a server error (`Unnotified`) |
| LoanHandlers.ApplyStart | src/modules/loan/loan.controller.ts:127-155 | The start's writes: the loan started, the book's available copies decremented and a START log appended, nothing else |
| LoanHandlers.StartingKeepsValid | src/modules/loan/loan.controller.ts:127-155 | Starting a loan keeps its id, so the primary keys and the wait list stay valid |
| LoanHandlers.PostponeLoan | src/modules/loan/loan.controller.ts:179-223 | Only the caller's own loan; refusal iff the validation refuses; no reply iff it passes but the loan has no deadline; success in every other case, and then the deadline moves seven days and `postponed` is set, nothing else changes |
| LoanHandlers.ReturnLoan | src/modules/loan/loan.controller.ts:227-351 | Any linked loan, whatever its status, is closed as RETURNED; the book gains an available copy and the copy is freed. When somebody waits and a copy is free, the head gets a new loan expiring in three days and the queue moves up. When no copy is free, the return stays committed. NotFound iff the loan or its book link is missing; rolled back iff the book or a copy with the loan's ISBN is missing, or the head to be promoted has no user row; success otherwise. The wait list stays well formed |
| LoanHandlers.ApplyReturn | src/modules/loan/loan.controller.ts:245-279 | The return's writes: book, copy, loan and log rows as specified, nothing else |
| LoanHandlers.ApplyPromotion | src/modules/loan/loan.controller.ts:302-329 | The promotion's writes: new loan, copy marked loaned, head removed and its queue moved up |
| LoanHandlers.ReturningKeepsValid | src/modules/loan/loan.controller.ts:245-279 | The return's writes keep the primary keys and the wait list valid |
| LoanHandlers.PromotingKeepsValid | src/modules/loan/loan.controller.ts:302-329 | The promotion's writes keep the tables valid |
| LoanHandlers.TerminateLoan | src/modules/loan/loan.controller.ts:355-419 | NotFound iff the loan is missing, or unfinished without a book or copy link. Refused iff finished. Rolled back iff the linked book or copy row is missing; success in every other case. On success the loan is closed as TERMINATED, the copy row is deleted, the book loses one copy but keeps `copiesAvailable`, and a TERMINATE log is appended |
| LoanHandlers.ApplyTermination | src/modules/loan/loan.controller.ts:380-412 | The termination's writes: book, copy, loan and log rows as specified, nothing else |
| LoanHandlers.TerminatingKeepsValid | src/modules/loan/loan.controller.ts:380-412 | Deleting the copy row and closing the loan keep the primary keys and the wait list valid |
| LoanHandlers.EnterWaitList | src/modules/loan/loan.controller.ts:423-462 | Refusals as the validation says. On success one entry is appended at position (entries of the book)+1, which is returned, and the wait list stays well formed |
| LoanHandlers.ExitWaitList | src/modules/loan/loan.controller.ts:507-542 | Fails iff the caller does not wait for the book. Otherwise the entry is deleted, the positions behind it move up, and the list stays well formed |
| CopyRules.CleanIsbn | src/modules/copies/copies.services.ts:5 | Keeps only digits and X in either case, never lengthening the input |
| CopyRules.IsbnSpec | src/modules/copies/copies.services.ts:4-39 | Accepted only with 10 or 13 kept characters. ISBN-10: nine digits, a check digit or upper-case X, weighted sum divisible by 11. ISBN-13: thirteen digits with a matching check digit. The answer is the hyphenated form |
| CopyRules.ValidateIsbn | src/modules/copies/copies.services.ts:4-39 | The loops with their running sums answer exactly `IsbnSpec` |
| CopyRules.Check13 | src/modules/copies/copies.services.ts:29 | The ISBN-13 check digit lies in 0..9 |
| CopyRules.IsbnFormatIsFixedPoint | src/modules/copies/copies.services.ts:18-32 | The hyphenated form of a valid ISBN is valid and formats to itself |
| CopyRules.LowerCaseCheckRefused | src/modules/copies/copies.services.ts:5-17 | An ISBN-10 ending in lower-case x is kept by the cleaning but refused by the check |
| CopyRules.CreateCopyValidation | src/modules/copies/copies.services.ts:41-50 | Refused iff some copy has the ISBN ignoring case |
| CopyRules.EditCopyValidation | src/modules/copies/copies.services.ts:52-66 | Refused iff another copy has the ISBN ignoring case |
| CopyRules.DeleteCopyValidation | src/modules/copies/copies.services.ts:68-75 | Refused iff the copy is on loan |
| CopyRules.CopyForLoan | src/modules/copies/copies.services.ts:86-92 | The first copy not on loan, of any book; none iff every copy is on loan |
| CopyRules.CopyForLoanIgnoresBook | src/modules/copies/copies.services.ts:86-92 | A concrete table where the copy chosen for book 1 belongs to book 2 |
| CopyHandlers.CreateCopy | src/modules/copies/copies.controller.ts:7-72 | NotFound, invalid ISBN and taken ISBN each hold iff their condition, changing nothing. On success one free copy is added with the formatted ISBN, the book gains one copy and one available copy, and a CREATE log is appended. ISBNs stay distinct |
| CopyHandlers.AddCopy | src/modules/copies/copies.controller.ts:34-65 | The creation's writes, nothing else |
| CopyHandlers.EditCopy | src/modules/copies/copies.controller.ts:75-124 | The new ISBN is stored unchecked, unless another copy has it. The log carries the old ISBN. The count of copies on loan is unchanged |
| CopyHandlers.DeleteCopy | src/modules/copies/copies.controller.ts:127-178 | Refused for a copy on loan; rolled back when no book has the copy's title; otherwise the copy's id leaves the table and the book loses one copy and one available copy |
| CopyHandlers.RemoveCopy | src/modules/copies/copies.controller.ts:147-171 | The deletion's writes, nothing else |
| CopyHandlers.RemovedKeepsDistinct | src/modules/copies/copies.controller.ts:147-171 | Deleting a copy keeps ISBNs distinct |
| CopyHandlers.IdGone | src/modules/copies/copies.controller.ts:147-171 | With distinct ids, the deleted id is no longer found |
| BookRules.RegisterBookValidation | src/modules/book/book.services.ts:3-12 | Refused iff some book has the title, ignoring case |
| BookRules.UpdateBookValidation | src/modules/book/book.services.ts:14-28 | Refused iff another book has the title, ignoring case |
| BookRules.UpdateIsLaxerThanRegister | src/modules/book/book.services.ts:3-28 | A title free for registration is free for any update, and a book may keep its own title |
| BookRules.DeleteBookValidation | src/modules/book/book.services.ts:30-44 | Refused iff an ONGOING loan carries exactly this title |
| BookRules.OverdueDoesNotBlockDelete | src/modules/book/book.services.ts:30-44 | Adding a loan that is not ONGOING, an OVERDUE one included, never changes the answer |
| BookRules.CreateCategoryValidation | src/modules/book/book.services.ts:46-55 | Refused iff a category has the name, ignoring case |
| UserRules.ValidPhoneIffFormatted | src/modules/user/user.services.ts:34-45 | The phone check holds iff the phone has exactly eleven ASCII digits with the third a 9, that is iff its display form is `(DD) 9DDDD-DDDD` |
| UserRules.FormatPhone | src/modules/user/user.services.ts:69-74 | Eleven digits become `(DD) DDDDD-DDDD`; otherwise the bare digits |
| UserRules.FormatPhoneKeepsDigits | src/modules/user/user.services.ts:36-44 | Formatting keeps the digits, so the phone check answers the same. Formatting twice is formatting once |
| UserRules.JsRem | src/modules/user/user.services.ts:19 | JavaScript `%`: `a` is the truncated quotient times `n` plus the remainder, which keeps the dividend's sign and is smaller than `n` in size |
| UserRules.CalculateDigit | src/modules/user/user.services.ts:12-22 | The loop with its decreasing factor computes the check digit of the weighted sum, a digit 0..9 |
| UserRules.ValidateCpf | src/modules/user/user.services.ts:5-33 | Answers exactly `CpfSpec`: not one digit repeated eleven times, and characters 9 and 10 of the digits match the two check digits |
| UserRules.FormatCpf | src/modules/user/user.services.ts:77-82 | Eleven digits become `DDD.DDD.DDD-DD`; otherwise the bare digits |
| UserRules.FormatCpfKeepsDigits | src/modules/user/user.services.ts:5-6 | Formatting keeps the digits, so validity is unchanged. Formatting twice is formatting once |
| UserRules.CpfAcceptedShape | src/modules/user/user.services.ts:5-33 | An accepted CPF has at least eleven digits and is not one repeated digit |
| UserRules.RepeatedDigitsPassChecksum | src/modules/user/user.services.ts:8-10 | Eleven copies of one digit pass both check digits, so only the repeated-digit test refuses them |
| UserRules.LongerCpfAccepted | src/modules/user/user.services.ts:24-32 | Appending a digit to an accepted CPF keeps it accepted |
| UserRules.ExampleValid | src/modules/user/user.services.ts:5-33 | 52998224725 is accepted |
| UserRules.TwelveDigitCpfAccepted | src/modules/user/user.services.ts:24-32 | 529982247250, twelve digits, is accepted |
| UserRules.CpfStrictShape | src/modules/user/user.services.ts:5-33 | The corrected check never accepts the twelve-digit extension of a CPF it accepts, and formatting does not change its answer |
| UserRules.CpfStrictOnExample | src/modules/user/user.services.ts:5-33 | The corrected check accepts 52998224725 and refuses 529982247250 |
| UserRules.RegisterUserValidation | src/modules/user/user.services.ts:85-111 | Only the first user in table order that matches email, CPF, name or phone ignoring case is looked at. Its exact email gives EmailTaken; else its exact CPF gives CpfTaken; else its exact name gives NameTaken; else no message. Without any such user there is no message |
| UserRules.RegisterSeesOnlyFirstConflict | src/modules/user/user.services.ts:85-111 | Only the first conflicting row is looked at, so a phone-only match earlier hides a taken email later |
| UserRules.UpdateUserValidation | src/modules/user/user.services.ts:113-141 | Only the first other user that matches email, name or phone ignoring case is looked at. Its exact email gives EmailTaken; else its exact name gives NameTaken; else its exact phone gives PhoneTaken; else no message. Without any such user there is no message |
| UserRules.UpdateIgnoresSelf | src/modules/user/user.services.ts:113-141 | A user keeping their own data is never in conflict |
| UserRules.DeleteUserValidation | src/modules/user/user.services.ts:143-157 | Refused iff the user has an ONGOING loan |
| UserHandlers.UpdateUser | src/modules/user/user.controller.ts:111-196 | A non-admin editing someone else, or setting role or block, is forbidden. The password changes only with a matching old one. The phone is formatted only on that path. Validation errors change nothing. On success only that user's row changes |
| UserHandlers.Snapshot | src/modules/user/user.controller.ts:224 | As many entries as the user has, each a row of the table with the user's id |
| UserHandlers.SnapshotInTableOrder | src/modules/user/user.controller.ts:224 | The snapshot's entries come from increasing rows of the table, so they are the user's entries in table order |
| UserHandlers.LeaveQueue | src/modules/user/user.controller.ts:227-237 | One turn of the loop: delete by id, then move the book's queue up |
| UserHandlers.LeaveAllQueues | src/modules/user/user.controller.ts:224-238 | The loop leaves the wait list as the entries handled in order would, no entry of the user remains, and the list stays well formed |
| UserHandlers.LeaveStep | src/modules/user/user.controller.ts:227-237 | One turn keeps the list well formed and the entries still to handle in place |
| UserHandlers.DeleteUser | src/modules/user/user.controller.ts:199-262 | Only the user or an admin may delete. Refused while the user has an ONGOING loan. On success the user row is deleted and all their wait-list entries are gone, with each queue moved up |
| UserHandlers.RemoveUserRow | src/modules/user/user.controller.ts:240 | Deleting the user row changes no other table and keeps the database valid |
| UserHandlers.GetData | src/modules/user/user.controller.ts:265-297 | All copies, the free ones and their difference, which is the number on loan; and exactly the caller's loans |
| EmailManager.InitialData | src/utils/manager.ts:54-71 | Limit 99, counter 0 dated today, last run at the epoch, status FAILED |
| EmailManager.Merge | src/utils/manager.ts:82-87 | For each of the seven settings, a given key replaces its value and an absent key keeps it |
| EmailManager.MergeLaws | src/utils/manager.ts:82-87 | Saving the same settings twice is saving once; an empty save changes nothing; a full save replaces everything |
| EmailManager.Increment | src/utils/manager.ts:90-108 | Refused iff the counter is at the limit, and then nothing changes. Otherwise the count is +1 on the same day or 1 on a new day |
| EmailManager.IncrementKeepsLimit | src/utils/manager.ts:90-108 | A counter within the limit stays within it |
| EmailManager.LimitReachedIsPermanent | src/utils/manager.ts:94-103 | A counter at the limit is refused on every later day too |
| EmailManager.IncrementRollingOver | src/utils/manager.ts:90-108 | With the rollover first, an accepted email leaves the counter within the limit on today's date |
| EmailManager.NewDayAccepted | src/utils/manager.ts:99-103 | With the rollover first, a new day always accepts an email |
| EmailManager.WithTaskStatus | src/utils/manager.ts:141-146 | Records today and the outcome, nothing else |
| EmailManager.TaskStatusIdempotent | src/utils/manager.ts:141-146 | Recording one outcome twice on a day is recording it once |
| EmailManager.DaysSince | src/utils/manager.ts:119-124 | Whole days since the last run, as a difference of day numbers |
| EmailManager.NotDueAfterSuccess | src/utils/manager.ts:117-138 | Right after a successful run the overdue notice is not due again the same day, when the main interval is positive |
| EmailManager.Manager.constructor | src/utils/manager.ts:28-35 | The stored record, or the initial one when there is none |
| EmailManager.Manager.ResetData | src/utils/manager.ts:54-71 | The record becomes the initial one |
| EmailManager.Manager.GetConfig | src/utils/manager.ts:74-79 | The record without its email block |
| EmailManager.Manager.SetConfig | src/utils/manager.ts:82-87 | Merges the given keys and leaves the email block alone |
| EmailManager.Manager.IncrementEmailCount | src/utils/manager.ts:90-108 | Does to the fields exactly what `Increment` does to the record |
| EmailManager.Manager.IncrementEmailCountRollingOver | src/utils/manager.ts:90-108 | The corrected counter on the fields |
| EmailManager.Manager.GetRemainingEmails | src/utils/manager.ts:111-114 | Remaining plus count equals the limit, with no day rollover |
| EmailManager.Manager.ShouldNotifyUsers | src/utils/manager.ts:117-138 | Due iff the main interval has passed, or the last run failed and the retry interval has passed |
| EmailManager.Manager.UpdateTaskStatus | src/utils/manager.ts:141-146 | Records today and the outcome |
| Tasks.CancelSweepFacts | src/cron/tasks/cancelRequestedLoans.ts:10-19 | After the sweep no REQUESTED loan past its deadline is left. A second sweep changes nothing. Only status and `archived` change |
| Tasks.CancelRequestedLoans | src/cron/tasks/cancelRequestedLoans.ts:10-24 | Rewrites exactly the due requests as archived TERMINATED, counts them, and touches no other table, so the copies stay loaned |
| Tasks.CancelRows | src/cron/tasks/cancelRequestedLoans.ts:10-24 | Row by row, the rows come out as the sweep defines them, and the count is the number of due requests |
| Tasks.Blocked | src/cron/tasks/verifyOverdueLoans.ts:26-37 | A user ends blocked iff already blocked or holding an OVERDUE loan, and nothing else changes |
| Tasks.VerifyFacts | src/cron/tasks/verifyOverdueLoans.ts:10-37 | The overdue sweep never unblocks anyone, never archives, and leaves no due ONGOING loan. A second run at the same instant changes nothing |
| Tasks.SweepKeepsOverdueDated | src/cron/tasks/verifyOverdueLoans.ts:10-16 | The sweep marks only loans past a deadline, so every OVERDUE loan keeps having the deadline that the notice prints |
| Tasks.OldOverdueLoansBlockNobody | src/cron/tasks/verifyOverdueLoans.ts:18-21 | When no loan became overdue in this run, even a user with an old overdue loan stays unblocked |
| Tasks.VerifyOverdueLoans | src/cron/tasks/verifyOverdueLoans.ts:10-37 | Marks the due ONGOING loans OVERDUE. If there were any, it blocks every user with an OVERDUE loan. The wait list and keys stay valid |
| Tasks.MarkOverdue | src/cron/tasks/verifyOverdueLoans.ts:10-16 | The first bulk update, row by row, with its count |
| Tasks.OverdueRows | src/cron/tasks/verifyOverdueLoans.ts:10-16 | Row by row, the rows come out as the sweep defines them, and the count is the number of due ongoing loans |
| Tasks.BlockUsers | src/cron/tasks/verifyOverdueLoans.ts:26-37 | The second bulk update, row by row |
| Tasks.OverdueUsers | src/cron/tasks/notifyOverdueUsers.ts:18-21 | Exactly the users with an OVERDUE loan, each user row once, in table order |
| Tasks.NoticeFor | src/cron/tasks/notifyOverdueUsers.ts:39-56 | One email to the user, with one line per OVERDUE loan of theirs, each line the title and deadline of one such loan |
| Tasks.NoticeListsEveryOverdueLoan | src/cron/tasks/notifyOverdueUsers.ts:39-43 | Every OVERDUE loan of the user is listed, and line k comes from the k-th of them in table order |
| Tasks.NotifyOverdueUsers | src/cron/tasks/notifyOverdueUsers.ts:13-64 | Not due: nothing happens. Otherwise every path records the outcome exactly once. The notices are sent only when 0 < users < remaining emails, and then one per user in order |
| Tasks.Notices | src/cron/tasks/notifyOverdueUsers.ts:39-56 | One notice per overdue user, in order, each listing that user's overdue loans |
| Counters.RequestingKeepsOnLoan | src/modules/loan/loan.controller.ts:77-99 | A request leaves every book's counters in agreement with its ONGOING and OVERDUE loans |
| Counters.StartingKeepsOnLoanIff | src/modules/loan/loan.controller.ts:127-140 | Starting a loan of the book, which takes one available copy, keeps the agreement iff the loan was not already ONGOING or OVERDUE |
| Counters.ReturningKeepsOnLoanIff | src/modules/loan/loan.controller.ts:245-262 | Returning a loan of the book, which gives one copy back, keeps the agreement iff the loan was ONGOING or OVERDUE |
| Counters.TerminatingKeepsOnLoanIff | src/modules/loan/loan.controller.ts:380-398 | Terminating a loan of the book, which lowers only `copies`, keeps the agreement iff the loan was ONGOING or OVERDUE |
| Counters.TerminatingRequestedOverflows | src/modules/loan/loan.controller.ts:380-398 | A book with one copy, taken by a REQUESTED loan: terminating the loan leaves no copy but one available |
| Counters.TerminatingCorrectedKeepsOnLoan | src/modules/loan/loan.controller.ts:380-398 | Termination that also lowers `copiesAvailable` for a loan never lent keeps the agreement for any status, so available never exceeds copies |
| Counters.StartingTwiceGoesNegative | src/modules/loan/loan.controller.ts:113-140 | Starting the same loan twice on a book with one copy leaves -1 available |
| Counters.CancelLeavesCopyLoaned | src/cron/tasks/cancelRequestedLoans.ts:10-19 | Cancelling a due request leaves its copy flagged loaned with no unfinished loan naming it |
| IsbnGen.GenerateIsbn13 | src/utils/scripts/isbn-gen.py:3-9 | Thirteen digits, starting with 978, with the nine draws in positions 3..11 |
| IsbnGen.WeightedSumSplit | src/utils/scripts/isbn-gen.py:6 | The generator's enumerate sum equals the validator's weighted sum |
| IsbnGen.GeneratedChecksum | src/utils/scripts/isbn-gen.py:6-9 | The last digit is the ISBN-13 check digit of the first twelve, so the full weighted sum is a multiple of ten |
| IsbnGen.GeneratedIsAccepted | src/utils/scripts/isbn-gen.py:3-9 | Every generated ISBN passes the 13-digit validation and comes back as `978-d-ddd-ddddd-d` |
| Dashboard.Load | src/adminjs/handlers/utils.ts:76-93 | A category's books are those pointing at it, each with the count of loans still linked to it |
| Dashboard.Summarize | src/adminjs/handlers/utils.ts:96-117 | The forEach computes the book count and the sums of copies, available copies and loans |
| Dashboard.CategoryTotals | src/adminjs/handlers/utils.ts:95-119 | One row per category in table order, each with its name and number of books |
| Dashboard.TotalAppend | src/adminjs/handlers/utils.ts:105-109 | Sums over two runs of books add up |
| Dashboard.AvailableWithinCopies | src/adminjs/handlers/utils.ts:105-109 | If every book has between zero and all of its copies available, so does the category |
| Dashboard.SortByLoans | src/adminjs/handlers/utils.ts:122-123 | The sort is a permutation of the rows |
| Dashboard.SortByLoansSorted | src/adminjs/handlers/utils.ts:122-123 | The sorted rows have non-increasing loan counts |
| Dashboard.TopCategories | src/adminjs/handlers/utils.ts:122-124 | At most five rows, most loans first, each one of the input rows, and no row left out has more loans than one kept |
| Dashboard.EmailSummary | src/adminjs/handlers/utils.ts:127-129 | Sent plus remaining is 99 whatever the limit. Sent equals the day's count iff the limit is 99 |
| Dashboard.SettingsPage | src/adminjs/handlers/utils.ts:155-175 | A read changes nothing; a save merges the payload; both answer the configuration |
| Dashboard.WithArchived | src/adminjs/handlers/utils.ts:198-210 | A missing query is created, `archived` is set, other filters and parameters are kept, and no filter is added |
| Dashboard.LastHookWins | src/adminjs/handlers/utils.ts:198-236 | The later hook's flag wins, and running a hook twice is running it once |
| Dashboard.HookSelectsByFlag | src/adminjs/handlers/utils.ts:198-236 | After a hook, a loan passes the filter iff its `archived` equals the hook's flag |
| Dashboard.ActiveLoansBeforeHook | src/adminjs/handlers/utils.ts:198-210 | The request's query becomes `WithArchived(query, false)` |
| Dashboard.ArchivedLoansBeforeHook | src/adminjs/handlers/utils.ts:224-236 | The request's query becomes `WithArchived(query, true)` |

## Left out

- HTTP layer, authentication and reply codes. A handler's outcome (`Ok`, `NotFound`, `Forbidden`, `Rejected`, `RolledBack`, `NoReply`) stands for the reply. The caller's `{id, name, role}` is a parameter.
- Password hashing and checking are foreign library calls. Whether the old password matches, and the new hash, are parameters of `UserHandlers.UpdateUser`.
- Email delivery. `sendEmail` (src/utils/emails/services.ts) is not part of this model, and that includes its own limit check and its counter increment. The handlers' notification emails are not modelled. `Tasks.NotifyOverdueUsers` returns the notices it would send.
- The admin logs of the user handlers are not awaited in the source, so the model does not write them.
- The promoted loan's status comes from a database default that is not shown; it is the parameter `promotedStatus`.
- Database constraints other than primary keys (unique ISBN, foreign keys, cascades) are not modelled. Neither are concurrency and transaction isolation: each handler is one atomic step.
- Dates: local time and UTC are not told apart. `toLocaleDateString` rendering in the notice is kept as the raw deadline instant.
- Scheduling by cron is not modelled. The tasks take `now` as a parameter, and `readFails` stands for the user query throwing.
- Manager file storage (JSON read and write) is not modelled; the record is the object's fields.
- The settings payload is merged key by key over the seven configuration values. A payload carrying other keys (such as `email`) would be merged too by `Object.assign`; that is not modelled.
- Dashboard: the per-day loan series (`loansByDay`, utils.ts:37-73) depends on calendar formatting and is not modelled. The four card counts are plain table lengths. `populateBooksHook` and the hooks' error path (which cannot be taken in the model) are not modelled.
- Dashboard.TopCategories: the sort keeps ties in input order by construction (as JavaScript's stable sort does), but that stability is not stated as a contract.
- A Prisma `findUnique` on an id that is truthy in the source is modelled as a lookup that may find nothing; JavaScript truthiness of ids (0 is absent) is not modelled.
- UserHandlers.GetData returns whole loan rows, not the JSON projection the reply sends.
- Case-insensitive comparisons fold ASCII letters only; the database folds every letter. In BookRules.RegisterBookValidation, BookRules.UpdateBookValidation, BookRules.CreateCategoryValidation, CopyRules.CreateCopyValidation, CopyRules.EditCopyValidation, UserRules.RegisterUserValidation and UserRules.UpdateUserValidation, non-ASCII letters are compared exactly, so "Érico" and "érico" do not conflict in the model.
- Tasks.NotifyOverdueUsers: a notice line keeps the loan's deadline as an optional value. The source throws on an OVERDUE loan without a deadline and records a failed run; the model does not. `Tasks.SweepKeepsOverdueDated` shows the sweep never creates such a loan.
- Counters: only the termination asymmetry has a corrected definition. For starting twice and for the copy flag left set by the expiry sweep, the model keeps the source's behaviour and the lemmas exhibit it.
- IsbnGen.GenerateIsbn13: the nine random digits are its input (`draws`); randomness is not modelled.

## Findings

| source | as written | input that shows it | evidently intended | confidence | as-written member | corrected member |
|---|---|---|---|---|---|---|
| src/modules/user/user.services.ts:5-33 | After removing non-digits, only digits 0..10 are checked; trailing digits are ignored | `"529982247250"` (twelve digits) is accepted | A CPF has exactly eleven digits | high, not executed | UserRules.TwelveDigitCpfAccepted | UserRules.CpfStrictShape |
| src/modules/loan/loan.controller.ts:380-398 | Terminating a loan lowers the book's `copies` but never its `copiesAvailable`, though a REQUESTED loan never took an available copy | A book with one copy and one available, whose copy a REQUESTED loan holds: after termination it has no copy and one available | The copy of a loan that was never lent also leaves the available count | high, not executed | Counters.TerminatingRequestedOverflows | Counters.TerminatingCorrectedKeepsOnLoan |
| src/utils/manager.ts:90-108 | The limit is checked before the day rolls over | A record with `emailCount` 99, limit 99 and yesterday's date: every later increment is refused, and the remaining count stays 0 for good | The counter starts again on a new day | high, not executed | EmailManager.LimitReachedIsPermanent | EmailManager.NewDayAccepted |
