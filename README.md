# Library management backend — a Dafny model

This project models the request and data core of a library-management
backend written in Python (Flask over SQLite). It covers these parts:

- **Circulation**: `Transaction.issue_book` and `return_book`, the overdue sweep and the loan listings.
- **Fine ledger**: `Fine.create`, `pay_fine` and `waive_fine`, plus the pending totals.
- **Fine calculator**: `FineCalculator`.
- **Books and users**: the book and user models.
- **Utilities**: the input validators and the date/string helpers.
- **JWT middleware**: the two JWT guards and the three fixed role guards.
- **HTTP handlers**: the handlers for transactions, fines, users and reports.

The model is organised like this:

- **Tables.** Every SQLite table is a `Store.Table<T>`: a map from row id to row, plus the next AUTOINCREMENT id.
- **Database.** The process-wide database handle is one mutable `Db.Database` object holding the four tables.
- **Model operations.** Each model operation that writes is a `method` that `modifies` the database. Its contract states the whole new state and what it leaves unchanged.
- **Queries.** Each query is a function whose contract says exactly which rows it returns and in which order. A query is a filter over the rows in id order, followed by a stable insertion sort on the `ORDER BY` key.
- **Dates.** Dates are day ordinals, counted as in Python's `date.toordinal()`.
- **Date parsing.** `strptime('%Y-%m-%d')` is modelled by `Dates.ParseDate`, which accepts the shapes CPython's parser accepts for ASCII input (one- or two-digit month and day, a space-padded day) and refuses dates that do not exist. Digits are ASCII only: the Unicode decimal digits Python's `\d` also matches are not modelled (see "Left out").
- **Money.** Money is in integer cents, so the default 5.00 per day and 500.00 cap become 500 and 50000.
- **HTTP handlers.** Each handler returns a `Http.Response` with its status code and either the JSON body or the `error` text.

Where the code does something its own docstrings and names do not promise, the model follows the code:

- **Copy counts.** `issue_book` and `return_book` never change `available_copies` (`backend/models/transaction.py:7-78`). Only `Book.create` writes it; `Book.update` does not list it among the columns it may change. `Transactions.IssueBook` and `Transactions.ReturnBook` leave the book table unchanged, and their contracts say so.
- **Overdue loans.** `return_book` refuses any loan whose status is not `issued` (`backend/models/transaction.py:52-53`). A loan the sweep has marked `overdue` therefore cannot be returned. It also no longer counts toward the borrowing limit, which counts only `issued` loans (`backend/models/transaction.py:12-20`).
- **Where the sweep runs.** The sweep runs only inside the overdue listing and the dashboard handlers. Nothing sweeps before issuing or returning a book.
- **Fines listing status.** The fines report defaults its status to `pending`. The fines listing has no default.

## Model

| member | source | states |
|---|---|---|
| Store.Insert | backend/models/database.py:45-58 | an INSERT adds exactly one row under the next AUTOINCREMENT id, leaves every other row as it was and keeps the table well formed |
| Store.Rows | backend/models/database.py:54-55 | a fetch-all returns each stored row exactly once, in increasing id order, so it has as many rows as the table |
| Store.QueryDistinct | backend/models/database.py:54-55 | a query (a filter of the rows, then an ORDER BY) never lists two rows with the same id |
| Store.Lookup | backend/models/database.py:51-53 | a fetch-one by primary key finds a row iff the id is stored, and returns that row |
| Common.Filter | backend/routes/reports.py:109-116 | a comprehension filter keeps exactly the elements that satisfy the predicate, with their multiplicities, and never lengthens the list |
| Common.SortBy | backend/models/transaction.py:127 | an ORDER BY yields a sorted permutation of the rows it was given |
| Common.FilterCountPartition | backend/routes/reports.py:109-116 | counts over two complementary conditions add up to the length of the list |
| Common.FilterCountDisjoint | backend/routes/reports.py:109-116 | counts over two exclusive conditions add up to at most the length of the list |
| Common.FilterCountMonotone | backend/routes/reports.py:109-116 | a weaker condition never counts fewer elements |
| Common.NatToString | backend/models/transaction.py:76 | the decimal rendering of a number is a non-empty digit string whose value is the number |
| Db.Database.constructor | backend/models/database.py:6-30 | a fresh database has four empty, well-formed tables |
| Schema.LoanStatusText | backend/models/transaction.py:139-150 | the stored status text of a loan names its status, one text per status |
| Schema.FineStatusText | backend/models/fine.py:72-100 | the stored status text of a fine names its status, one text per status |
| Dates.OrdinalOfNextDay | backend/utils/fine_calculator.py:15 | consecutive calendar days have consecutive ordinals, so a difference of ordinals is a number of days |
| Dates.OrdinalRange | backend/utils/fine_calculator.py:9-10 | every valid date has an ordinal between 1 and the ordinal of 9999-12-31 |
| Dates.ParseDate | backend/utils/fine_calculator.py:9 | a string the parser accepts always names a real calendar date |
| Dates.ParseIsoFormat | backend/utils/helpers.py:6 | parsing the ISO text of a date gives the date back |
| Dates.ParseAcceptsShortMonth | backend/utils/helpers.py:40 | the parser accepts a one-digit month |
| Dates.ParseAcceptsSpacedDay | backend/utils/helpers.py:40 | the parser accepts a space-padded day |
| Dates.ParseRefusesFebruary29InCommonYear | backend/utils/helpers.py:40 | the parser refuses a day that does not exist |
| FineCalculator.FineFor | backend/utils/fine_calculator.py:12-18 | no fine when returned on or before the due date; otherwise the overdue days are the difference of the dates, and the amount is the smaller of days times the daily rate and the cap |
| FineCalculator.FineBounded | backend/utils/fine_calculator.py:16 | with non-negative settings a fine is never negative and never above the cap |
| FineCalculator.FineMonotone | backend/utils/fine_calculator.py:15-16 | returning later never lowers the fine |
| FineCalculator.FineCapped | backend/utils/fine_calculator.py:16 | once days times rate reaches the cap the fine is exactly the cap |
| FineCalculator.FineExamples | backend/utils/fine_calculator.py:12-18 | with the default settings: on time gives 0, ten days late gives 50.00, a year late is capped at 500.00 |
| FineCalculator.CalculateFine | backend/utils/fine_calculator.py:6-20 | an unparsable due or return date gives (0, 0); an absent or empty return date uses today; otherwise the result is the fine for the two dates |
| FineCalculator.CalculateFineOnStoredDates | backend/utils/fine_calculator.py:6-20 | on dates stored in ISO form the parsing wrapper computes the same fine as the calculation on ordinals |
| FineCalculator.GetFineStatus | backend/utils/fine_calculator.py:23-32 | each severity label is given exactly for its range of days (0, up to 7, 8 to 30, over 30) |
| FineCalculator.TotalIsPendingSum | backend/utils/fine_calculator.py:35-37 | the total is the sum of the amounts of the entries whose status is pending, a missing amount counting 0 |
| FineCalculator.TotalAdditive | backend/utils/fine_calculator.py:35-37 | the total of two lists put together is the sum of their totals |
| FineCalculator.TotalIgnoresSettled | backend/utils/fine_calculator.py:35-37 | a list with no pending entry totals 0 |
| Helpers.FormatDate | backend/utils/helpers.py:3-9 | a parsable date is rendered as month name, day and year; any other input is returned unchanged |
| Helpers.FormatStoredDate | backend/utils/helpers.py:3-9 | every stored ISO date is rewritten into its long form, never left as it was |
| Helpers.CalculateDaysOverdue | backend/utils/helpers.py:11-20 | never negative; 0 for an unparsable date; positive exactly when today is after the due date, and then due date plus the result is today |
| Helpers.IsValidDate | backend/utils/helpers.py:37-43 | a string is reported valid only when it parses to a real date |
| Helpers.IsValidDateExamples | backend/utils/helpers.py:37-43 | every stored ISO date is valid; 2023-02-29 and a missing value are not |
| Helpers.StripIsSlice | backend/utils/helpers.py:35 | `str.strip` returns a contiguous piece of its input, starting where the leading whitespace ends |
| Helpers.StripDropsOnlySpace | backend/utils/helpers.py:35 | everything `strip` removes is whitespace, and the result neither starts nor ends with whitespace |
| Helpers.SanitizeString | backend/utils/helpers.py:31-35 | an absent or empty value becomes the empty string; anything else is stripped |
| Helpers.SanitizeIdempotent | backend/utils/helpers.py:31-35 | sanitizing twice gives the same string as sanitizing once |
| Validators.ValidateEmail | backend/utils/validators.py:6-12 | an address is accepted exactly when the e-mail checker raises nothing, and a rejection carries the checker's message |
| Validators.ValidatePassword | backend/utils/validators.py:15-29 | accepted iff at least 8 characters with an upper-case letter, a lower-case letter and a digit; each failing rule gives its own message, checked in the source's order |
| Validators.RemoveSeparators | backend/utils/validators.py:35 | removing hyphens and spaces keeps exactly the other characters, leaves no separator behind and leaves a string without separators unchanged |
| Validators.RemoveSeparatorsAppend | backend/utils/validators.py:35 | removing separators from two joined strings is removing them from each and joining |
| Validators.RemoveSeparatorsIdempotent | backend/utils/validators.py:35 | removing separators twice is removing them once |
| Validators.ValidateIsbn | backend/utils/validators.py:32-41 | after removing separators, a length other than 10 or 13 is refused with its message; otherwise the ISBN-10 or ISBN-13 check decides |
| Validators.SeparatorsIgnored | backend/utils/validators.py:35 | inserting a hyphen or space anywhere does not change the verdict |
| Validators.ValidateIsbn10 | backend/utils/validators.py:44-55 | as written: accepted iff the first nine characters are digits and the tenth is the check character computed by the source's formula; a non-digit gives the format message, a wrong check character the checksum message |
| Validators.WeightsComplement | backend/utils/validators.py:48-49 | the source's ascending weights and the standard descending weights add up to 11 times the digit sum |
| Validators.Isbn10DivergesFromIso | backend/utils/validators.py:44-55 | on a correct ISBN-10 the source's check accepts only when the check digit is 0 |
| Validators.Isbn10RejectsValidIsbn | backend/utils/validators.py:44-55 | 0306406152 is a correct ISBN-10, and the source's check rejects it |
| Validators.ValidateIsbn10Iso | backend/utils/validators.py:44-55 | corrected: accepted exactly on correct ISBN-10s (weighted sum 10..1 divisible by 11, X standing for 10 in the last place) |
| Validators.ValidateIsbn13 | backend/utils/validators.py:58-68 | accepted iff all digits and the last is the check digit, equivalently iff the 1-3 weighted sum of all 13 digits is divisible by 10; a non-digit gives the format message, a wrong check digit the checksum message |
| Validators.Isbn13Example | backend/utils/validators.py:58-68 | 9780306406157 is accepted |
| Validators.ValidatePhone | backend/utils/validators.py:71-76 | after removing separators, accepted exactly when the text matches the phone pattern; a rejection carries the format message |
| Validators.PhoneDigitCount | backend/utils/validators.py:74 | without a leading plus, the pattern means 9 to 15 digits, or 16 digits starting with 1 |
| Validators.ValidateRole | backend/utils/validators.py:79-84 | accepted exactly for admin, librarian and student, otherwise the fixed message |
| SqlText.Fold | backend/models/book.py:61-69 | case folding for LIKE lowers exactly the ASCII capitals and keeps the length |
| SqlText.PercentMatchesAll | backend/models/book.py:61-69 | the pattern made of only a percent sign matches every string |
| SqlText.LikePrefix | backend/models/book.py:61-69 | a pattern made of a literal followed by a percent sign matches exactly the strings that start with that literal, ignoring ASCII case |
| SqlText.LikeContains | backend/models/book.py:61-69 | the pattern made of a literal between percent signs matches exactly the strings containing that literal, ignoring ASCII case |
| Books.Create | backend/models/book.py:5-25 | inserts one book under the next id, with one copy when no count is given and as many copies available as in total; nothing else changes |
| Books.GetById | backend/models/book.py:28-31 | finds a book iff its id is stored |
| Books.IsAvailable | backend/models/book.py:112-116 | a book is available iff the lookup finds it and it has at least one free copy; an unknown id is never available |
| Books.GetByIsbn | backend/models/book.py:34-37 | returns a stored book with that ISBN, or nothing exactly when no stored book has it |
| Books.GetAll | backend/models/book.py:40-58 | exactly the books of the category (when one is given) and with a free copy (when asked for), each once, ordered by title |
| Books.GetAllListsEveryBook | backend/models/book.py:40-58 | without a category or availability filter the listing has one entry per stored book |
| Books.Search | backend/models/book.py:61-69 | exactly the books whose title, author or ISBN matches the keyword pattern, each once, ordered by title |
| Books.SearchIsSubstringMatch | backend/models/book.py:61-69 | for a keyword without wildcards, a search finds exactly the books whose title, author or ISBN contains it, ignoring ASCII case |
| Books.Dedup | backend/models/book.py:119-122 | removing duplicates keeps every value exactly once |
| Books.GetCategories | backend/models/book.py:119-122 | every stored category exactly once, in increasing order |
| Books.ApplyPatch | backend/models/book.py:72-93 | each supplied allow-listed column takes its new value and every other column keeps its old one; the ISBN and available copies are never written |
| Books.PatchStep | backend/models/book.py:74-84 | the loop over the allow-list writes a column exactly when it was supplied |
| Books.Update | backend/models/book.py:72-93 | reports success iff some allow-listed column was supplied, and then the book row becomes the patched row; otherwise nothing changes |
| Books.IssuedCopies | backend/models/book.py:96-103 | the count is zero exactly when no loan of the book is issued |
| Books.Delete | backend/models/book.py:96-110 | a book with an issued loan is kept and the refusal message returned; otherwise the row is removed and the success message returned |
| Users.Create | backend/models/user.py:6-24 | inserts one active account under the next id, a student unless another role is given; nothing else changes |
| Users.GetById | backend/models/user.py:27-30 | finds an account iff it is stored and active |
| Users.GetByEmail | backend/models/user.py:33-36 | an active account with that e-mail, or nothing exactly when there is none |
| Users.GetByUsername | backend/models/user.py:39-42 | an active account with that username, or nothing exactly when there is none |
| Users.GetAll | backend/models/user.py:50-57 | exactly the active accounts of the role (when one is given), each once, newest first |
| Users.ApplyPatch | backend/models/user.py:60-79 | each supplied allow-listed column takes its new value and every other column keeps its old one; username, password hash and creation time are never written |
| Users.PatchStep | backend/models/user.py:62-70 | the loop over the allow-list writes a column exactly when it was supplied |
| Users.Update | backend/models/user.py:60-79 | reports success iff some allow-listed column was supplied, and then the account becomes the patched account; otherwise nothing changes |
| Users.Delete | backend/models/user.py:82-86 | soft delete: the account stays stored with its active flag cleared, so lookups no longer find it; every other account is unchanged |
| Users.ChangePassword | backend/models/user.py:89-94 | only the account's password hash changes |
| Fines.Create | backend/models/fine.py:6-12 | inserts one pending, unpaid fine under the next id; nothing else changes |
| Fines.PayFine | backend/models/fine.py:68-77 | marks the fine paid with today's date and the payment method (cash by default), always reports success, and lowers every pending total by that fine's pending amount |
| Fines.WaiveFine | backend/models/fine.py:80-84 | marks the fine waived, always reports success, and lowers every pending total by that fine's pending amount |
| Fines.GetTotalPending | backend/models/fine.py:87-104 | the total is the sum of the amounts of the pending fines, only the user's when a non-zero user id is given; it is 0 when nothing (or nothing of that user) is pending, and never negative when no amount is |
| Fines.TotalAfterUpdate | backend/models/fine.py:87-104 | rewriting one fine changes the pending total by exactly the change in that fine's pending amount |
| Fines.TotalAgreesWithCalculator | backend/models/fine.py:97-104 | the pending total over all fines equals the fine calculator's total over the same rows; user id 0 is treated as no user filter |
| Fines.GetById | backend/models/fine.py:15-25 | finds a fine iff it is stored and its loan, the loan's book and its user exist |
| Fines.GetByUser | backend/models/fine.py:28-45 | exactly the user's fines of the status (when one is given) whose loan and book exist, each once, newest first |
| Fines.GetAll | backend/models/fine.py:48-65 | exactly the fines of the status (when one is given) whose loan, book and user exist, each once, newest first |
| Fines.SumAmountsPermutation | backend/routes/fines.py:33 | the sum of a fine listing does not depend on its order |
| Fines.PendingListingMatchesTotal | backend/routes/reports.py:137-141 | when every fine's loan, book and user exist, the sum over the pending listing is the pending total |
| Transactions.OpenLoanCount | backend/models/transaction.py:12-20 | the count is the number of the user's loans in status issued: zero exactly when there is none, and never more than the number of loans |
| Transactions.IssueBook | backend/models/transaction.py:7-41 | refuses a user at the limit, then a book without a free copy, then reports an overflow when the due date is beyond the calendar; otherwise inserts one issued loan due after the given or default number of days. Books, users and fines are untouched, and fines stay consistent with loans |
| Transactions.GetById | backend/models/transaction.py:81-90 | finds a loan iff it is stored and its book and user exist |
| Transactions.ReturnBook | backend/models/transaction.py:44-78 | not found, then not issued, are refused without writing; otherwise the loan becomes returned today, and a pending fine for the calculated amount is inserted exactly when today is after the due date; fines stay consistent with loans |
| Transactions.GetByUser | backend/models/transaction.py:93-109 | exactly the user's loans of the status (when one is given) whose book exists, each once, latest issue first |
| Transactions.GetAll | backend/models/transaction.py:112-128 | exactly the loans of the status (when one is given) whose book and user exist, each once, latest issue first |
| Transactions.GetOverdue | backend/models/transaction.py:131-142 | as written: exactly the visible loans still issued with the due date before today, each once, earliest due first |
| Transactions.SweepOverdue | backend/models/transaction.py:145-153 | every issued loan due before today becomes overdue, every other loan is unchanged, and none is left to sweep |
| Transactions.SweepIdempotent | backend/models/transaction.py:145-153 | sweeping twice is the same as sweeping once |
| Transactions.SweepKeepsReturned | backend/models/transaction.py:145-153 | the sweep never touches a returned loan and never makes a loan returned |
| Transactions.UpdateOverdueStatus | backend/models/transaction.py:145-153 | the loan table becomes its sweep and nothing else changes |
| Transactions.OverdueEmptyAfterSweep | backend/models/transaction.py:131-153 | after the sweep the as-written overdue query always returns the empty list |
| Transactions.GetOverdueCorrected | backend/models/transaction.py:131-142 | corrected: exactly the visible loans not returned with the due date before today, each once, earliest due first |
| Transactions.SweptLoansStillListed | backend/models/transaction.py:131-153 | the sweep does not change which loans the corrected query lists |
| Transactions.CorrectedOverdueAfterSweep | backend/models/transaction.py:131-153 | a loan the sweep marks overdue is listed by the corrected query, while the as-written query returns nothing |
| Transactions.MoneyText | backend/models/transaction.py:76 | an amount in cents is rendered with two decimals |
| AuthMiddleware.Split | backend/middleware/auth_middleware.py:16 | splitting on a character gives at least one piece, and no piece contains the character |
| AuthMiddleware.JoinSplit | backend/middleware/auth_middleware.py:16 | joining the pieces again with the character gives the header back |
| AuthMiddleware.SplitCount | backend/middleware/auth_middleware.py:16-17 | there is one more piece than occurrences of the character, so a header without a space has no second piece |
| AuthMiddleware.TokenOf | backend/middleware/auth_middleware.py:15-17 | a token is extracted iff the header contains a space |
| AuthMiddleware.BearerToken | backend/middleware/auth_middleware.py:16 | from a well-formed "Bearer token" header the token is extracted unchanged |
| AuthMiddleware.TokenRequired | backend/middleware/auth_middleware.py:6-40 | a missing header or empty token is "Token is missing", a header without a space is "Invalid token format", an expired token "Token has expired", any other undecodable token "Invalid token", a payload missing a claim a server error; the caller is authenticated iff the decoder yields a payload with both a user id and a role, and then carries exactly those |
| AuthMiddleware.AuthFailure | backend/middleware/auth_middleware.py:18-36 | an authentication failure becomes a 401 with its message; a payload missing a key becomes a 500 |
| AuthMiddleware.RoleRequired | backend/middleware/auth_middleware.py:42-55 | the caller passes iff it has a role and the role is among the allowed ones; otherwise 403 "Insufficient permissions" |
| AuthMiddleware.RoleRequiredMonotone | backend/middleware/auth_middleware.py:42-55 | allowing more roles never turns away a caller who passed before |
| RoleMiddleware.AdminRequired | backend/middleware/role_middleware.py:4-12 | passes exactly admins; otherwise 403 "Admin access required" |
| RoleMiddleware.LibrarianRequired | backend/middleware/role_middleware.py:14-22 | passes exactly admins and librarians; otherwise 403 "Librarian access required" |
| RoleMiddleware.StudentRequired | backend/middleware/role_middleware.py:24-32 | passes exactly admins, librarians and students; otherwise 403 "Student access required" |
| RoleMiddleware.GuardsNested | backend/middleware/role_middleware.py:4-32 | whoever passes the admin guard passes the librarian guard, and whoever passes that passes the student guard; without a role nobody passes |
| RoleMiddleware.GuardsAgreeWithRoleRequired | backend/middleware/role_middleware.py:4-32 | the fixed guards admit the same callers as the generic guard with the same roles, and the student guard admits exactly the roles the role validator accepts |
| TransactionRoutes.Issue | backend/routes/transactions.py:7-32 | in order: 403 for non-staff, 400 for a missing book id, then a missing user id, 400 with the model's refusal, 500 when the due date overflows the calendar; 201 with the new loan id iff the model issues the book, the caller recorded as the issuing librarian |
| TransactionRoutes.Return | backend/routes/transactions.py:34-44 | 403 for non-staff; the model's refusal is a 400 without any write; success is 200, the loan becomes returned today and, exactly when the return is late, one pending fine of the calculated amount is inserted and the message names it in dollars and cents |
| TransactionRoutes.ListScope | backend/routes/transactions.py:51-60 | a student is always limited to their own loans, whatever user id they ask for; other callers use the requested id |
| TransactionRoutes.ListTransactions | backend/routes/transactions.py:46-65 | always 200; a scoped listing is exactly that user's loans of the status, otherwise every visible loan of the status, each once; a student never sees another user's loan |
| TransactionRoutes.StudentArgumentIgnored | backend/routes/transactions.py:51-60 | a student gets the same listing whatever user id they pass |
| TransactionRoutes.GetTransaction | backend/routes/transactions.py:67-80 | 404 for an unseen loan comes before the 403 for a student reading another's loan; 200 with the loan otherwise |
| TransactionRoutes.Overdue | backend/routes/transactions.py:82-95 | 403 for non-staff; otherwise the loans are swept and the answer is always the empty listing |
| FineRoutes.UserFines | backend/routes/fines.py:7-24 | 403 for a student asking about another user; otherwise the user's fines of the status, each once, their number and the user's pending total |
| FineRoutes.PendingTotalIgnoresFilter | backend/routes/fines.py:15-18 | the pending total in a user's listing does not depend on the status filter |
| FineRoutes.Totals | backend/routes/fines.py:31-39 | the amount total of the newest-first listing equals the sum of the matching fines' amounts taken in table order; the count is the number of distinct fines listed |
| FineRoutes.AllFines | backend/routes/fines.py:26-40 | 403 for non-staff; otherwise every visible fine of the status with the sum of their amounts |
| FineRoutes.GetFine | backend/routes/fines.py:42-55 | 404 "Fine not found" for an unseen fine comes before the 403 for a student reading another's fine |
| FineRoutes.Pay | backend/routes/fines.py:57-70 | 403 for non-staff without any write; otherwise always 200, and a stored fine becomes paid today with the given method or cash while every other fine stays as it was |
| FineRoutes.Waive | backend/routes/fines.py:72-82 | 403 for anyone but an admin without any write; otherwise always 200, and a stored fine becomes waived while every other fine stays as it was |
| FineRoutes.LibrarianPaysButCannotWaive | backend/routes/fines.py:57-82 | a librarian passes the pay guard and is refused by the waive guard |
| UserRoutes.PublicProfile | backend/routes/users.py:36-37 | the profile returned has every column of the account except the password hash |
| UserRoutes.ProfileHidesHash | backend/routes/users.py:36-37 | the password hash has no effect on the returned profile |
| UserRoutes.ListUsers | backend/routes/users.py:10-21 | 403 for non-staff; otherwise exactly the active accounts of the role, each once, with their number |
| UserRoutes.GetUser | backend/routes/users.py:23-39 | 403 for a non-admin asking about another account comes before the 404 for an unknown one; 200 with the profile otherwise |
| UserRoutes.UpdateUser | backend/routes/users.py:41-68 | in order: 403, the e-mail validator's 400, 403 for a role change by a non-admin, 400 "No changes made"; 200 exactly when none applies, and then the account is patched. A non-admin never changes any role |
| UserRoutes.DeleteUser | backend/routes/users.py:70-83 | only an admin, never on their own account; success soft-deletes the account: only its active flag changes, every other account is unchanged, and the caller's own account stays active |
| UserRoutes.UserBooks | backend/routes/users.py:85-98 | 403 for a student asking about another user; otherwise exactly the user's loans still in status issued, each once |
| Reports.Recent | backend/routes/reports.py:40 | the recent list is the first ten of the listing, or all of it when shorter |
| Reports.DashboardReport | backend/routes/reports.py:10-57 | staff only; sweeps the loans, counts books, books in stock, users, students and librarians, counts issued loans on the table before the sweep, reports 0 overdue and the pending total, and the ten latest loans |
| Reports.GroupIsPerCategory | backend/routes/reports.py:65-81 | the grouping has a key exactly for each category present, and each entry holds that category's book count, copy total and available total |
| Reports.GroupCountsEveryBook | backend/routes/reports.py:65-81 | the per-category book counts add up to the number of books |
| Reports.GroupBooks | backend/routes/reports.py:65-81 | the loop builds the same grouping as the fold over the listing |
| Reports.InventoryReport | backend/routes/reports.py:59-88 | 403 for non-staff; otherwise the grouping of all books and the number of categories |
| Reports.InventoryCoversLibrary | backend/routes/reports.py:59-88 | the report has an entry exactly for each category of a stored book, and its book counts add up to the number of stored books |
| Reports.CirculationReport | backend/routes/reports.py:90-126 | 403, then 400 when a date is missing or empty; the counts are taken over every visible loan, with returned at most issued and issued plus overdue equal to all loans; the period is the two dates joined by " to " |
| Reports.CirculationIgnoresPeriod | backend/routes/reports.py:103-116 | the counts do not depend on the dates given |
| Reports.FinesReport | backend/routes/reports.py:128-146 | 403 for non-staff; otherwise the fines of the status (pending by default), their amount total and their count |
| Reports.DefaultFinesReportIsPendingTotal | backend/routes/reports.py:128-146 | by default only pending fines are listed, and when every fine's loan, book and user exist the report's total is the pending total |

## Left out

- Password hashing (`bcrypt`) is not modelled. `Users.Create` and `Users.ChangePassword` receive the hash, and `User.verify_password` is not modelled.
- JWT decoding (`jwt.decode`) is a parameter of `AuthMiddleware.TokenRequired`, giving expired, invalid or a payload. Token issuance lives in `backend/routes/auth.py`, which is not part of this model.
- The `email_validator` package is a parameter of `Validators.ValidateEmail` and `UserRoutes.UpdateUser`.
- The clock (`datetime.now()`) is a parameter: `today` as a day ordinal and `now` as a timestamp.
- Floating-point money is not modelled: amounts are integer cents. `format_currency` is not modelled (only the two-decimal rendering in the return message is). `generate_book_id` is not modelled, because it is random.
- Joined display columns are not modelled. These are the book title, the user name and the other columns the joins add to a listing. A join is modelled only as the condition that the joined row exists.
- SQLite constraints and errors (unique e-mail and ISBN, foreign keys, `CHECK` clauses) are not modelled. Neither is any statement failing: every handler's generic 500 on an exception is left out, except the missing-key case of the token payload.
- Request bodies arrive already decoded. The model does not cover a JSON `null` value, an absent body, a non-integer id or an `int()` conversion error.
- Clients cannot send a `user_id` key to `User.update` in the model. In the source such a key would collide with the positional argument and raise a `TypeError`, which surfaces as a 500.
- JSON key order in response bodies is not modelled: bodies are datatypes.
- Concurrency and transaction isolation between requests are not modelled. Each operation runs alone on the whole database.
- `backend/routes/books.py`, `backend/routes/auth.py`, `backend/app.py`, `backend/scripts/create_admin.py` and the frontend are not part of this model.
- FineRoutes.Pay: an explicit `null` payment method in the body is treated like an absent key (cash). In the source it would be stored as `NULL`.
- Reports.CirculationReport: the date range is only echoed in `period`. The source does not filter by it either, and `Reports.CirculationIgnoresPeriod` states that.
- Transactions.MoneyText: states only the two-decimal shape of the rendering, not the digits.
- Helpers.IsValidDate: states only that a valid result parses to a real date, together with examples. It does not state the converse for every string.
- Dates.ParseDate: digits are ASCII `0`-`9` only. Python's `\d` in `strptime` also matches the other Unicode decimal digits, which the model rejects.
- Validators.ValidatePassword: the digit rule counts ASCII digits only, while Python's `\d` also matches other Unicode decimal digits.
- Validators.ValidatePhone: the pattern's `\d` is ASCII digits only in the model; Python's also matches other Unicode decimal digits.
- Validators.ValidateIsbn10: `isdigit()` and `int()` are modelled on ASCII digits only; other Unicode digits are rejected with the format message here.
- Validators.ValidateIsbn13: `isdigit()` and `int()` are modelled on ASCII digits only; other Unicode digits are rejected with the format message here.

## Findings

| source | as written | input that shows it | evidently intended | confidence | as-written member | corrected member |
|---|---|---|---|---|---|---|
| backend/utils/validators.py:44-55 | the ISBN-10 check sums the digits with weights 1..9 ascending and compares the last character with (11 - sum mod 11) mod 11 | 0306406152, a correct ISBN-10, is rejected; on correct ISBN-10s the check accepts only those whose check digit is 0 | accept exactly the strings whose weighted sum with weights 10..1 is divisible by 11, X allowed as 10 in the last place | not executed | Validators.ValidateIsbn10, Validators.Isbn10RejectsValidIsbn, Validators.Isbn10DivergesFromIso | Validators.ValidateIsbn10Iso |
| backend/models/transaction.py:131-142 | the overdue query selects loans whose status is still `issued`, but the handler first runs the sweep that moves every such loan to `overdue` | any issued loan due before today: after the sweep it is `overdue`, and the listing is empty | list the loans not yet returned whose due date is past, whatever the sweep has written | not executed | Transactions.GetOverdue, Transactions.OverdueEmptyAfterSweep | Transactions.GetOverdueCorrected, Transactions.SweptLoansStillListed, Transactions.CorrectedOverdueAfterSweep |
