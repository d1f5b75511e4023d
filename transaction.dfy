/**
 * The circulation engine of `backend/models/transaction.py`. A loan is
 * issued `issued`, becomes `returned` on return (possibly with a fine), or
 * is swept to `overdue` once its due date has passed. Neither issue nor
 * return touches a book's `available_copies`.
 *
 * The due date is stored as ISO text and read back with `strptime`; that
 * round trip is the identity on valid dates (`Dates.ParseIsoFormat`), so
 * the model keeps the ordinal directly. `today` is the ordinal of
 * `datetime.now().date()` and `now` the timestamp SQLite gives `created_at`.
 */
module Transactions {
  import opened Common
  import opened Dates
  import opened LibraryConfig
  import opened Store
  import opened Schema
  import opened Db
  import Books
  import Fines
  import FineCalculator

  // ---------------------------------------------------------------------------
  // The ledger invariant
  // ---------------------------------------------------------------------------

  /**
   * Every fine belongs to a loan that has been returned, and no loan has two
   * fines. Issue, return and the overdue sweep all preserve this.
   */
  predicate FinesConsistent(loans: Table<Loan>, fines: Table<Fine>) {
    && (forall f :: f in fines.rows ==>
          fines.rows[f].transactionId in loans.rows && loans.rows[fines.rows[f].transactionId].status == Returned)
    && (forall f, g :: f in fines.rows && g in fines.rows && fines.rows[f].transactionId == fines.rows[g].transactionId ==> f == g)
  }

  // ---------------------------------------------------------------------------
  // issue_book
  // ---------------------------------------------------------------------------

  /** `SELECT COUNT(*) FROM transactions WHERE user_id = ? AND status = 'issued'`. */
  function OpenLoanCount(loans: Table<Loan>, userId: int): (n: nat)
    requires Store.Valid(loans)
    ensures n == |set id | id in loans.rows && loans.rows[id].userId == userId && loans.rows[id].status == Issued|
    ensures n == 0 <==> forall id :: id in loans.rows ==> !(loans.rows[id].userId == userId && loans.rows[id].status == Issued)
    ensures n <= |loans.rows|
  {
    var rows := Rows(loans);
    var p := (x: Row<Loan>) => x.value.userId == userId && x.value.status == Issued;
    var open := Filter(rows, p);
    var ids := set id | id in loans.rows && loans.rows[id].userId == userId && loans.rows[id].status == Issued;
    FilterDistinct(loans, p);
    forall k | 0 <= k < |open| ensures open[k].id in ids {
      assert open[k] in open;
    }
    forall id | id in ids ensures exists k :: 0 <= k < |open| && open[k].id == id {
      assert Row(id, loans.rows[id]) in rows;
      assert Row(id, loans.rows[id]) in open;
    }
    ListingSize(open, ids);
    assert open == [] ==> forall id :: id in loans.rows ==> !(loans.rows[id].userId == userId && loans.rows[id].status == Issued) by {
      if open == [] {
        forall id | id in loans.rows ensures !(loans.rows[id].userId == userId && loans.rows[id].status == Issued) {
          assert Row(id, loans.rows[id]) in rows;
        }
      }
    }
    assert open != [] ==> open[0] in open;
    |open|
  }

  /** `issue_days`, or `DEFAULT_ISSUE_DAYS` when it is `None` (an explicit 0 is kept). */
  function IssueDays(issueDays: Option<int>, cfg: Settings): int {
    if issueDays.None? then cfg.defaultIssueDays else issueDays.value
  }

  /** A day number `date` can hold; `date + timedelta` outside it raises `OverflowError`. */
  predicate InDateRange(o: int) {
    1 <= o <= MaxOrdinal
  }

  datatype IssueResult =
    | IssueOk(transactionId: int)
    | IssueFailed(message: string)
    | IssueOverflow               // `OverflowError` from `issue_date + timedelta(days=issue_days)`

  const LimitMessage := "User has reached maximum book limit"
  const UnavailableMessage := "Book is not available"

  /**
   * `Transaction.issue_book`. The borrower limit is checked first (only
   * `issued` loans count, not `overdue` ones), then the book's availability;
   * only then is one `issued` loan inserted, due `issue_days` after today.
   * The books table is never written.
   */
  method IssueBook(db: Database, bookId: int, userId: int, librarianId: int, issueDays: Option<int>,
                   today: int, cfg: Settings) returns (r: IssueResult)
    requires db.Valid()
    modifies db
    ensures db.Valid()
    ensures db.books == old(db.books) && db.users == old(db.users) && db.fines == old(db.fines)
    ensures OpenLoanCount(old(db.loans), userId) >= cfg.maxBooksPerUser ==> r == IssueFailed(LimitMessage)
    ensures OpenLoanCount(old(db.loans), userId) < cfg.maxBooksPerUser && !Books.IsAvailable(old(db.books), bookId) ==>
              r == IssueFailed(UnavailableMessage)
    ensures OpenLoanCount(old(db.loans), userId) < cfg.maxBooksPerUser && Books.IsAvailable(old(db.books), bookId)
            && !InDateRange(today + IssueDays(issueDays, cfg)) ==>
              r == IssueOverflow
    ensures r.IssueOk? <==>
              && OpenLoanCount(old(db.loans), userId) < cfg.maxBooksPerUser
              && Books.IsAvailable(old(db.books), bookId)
              && InDateRange(today + IssueDays(issueDays, cfg))
    ensures r.IssueOk? ==>
              && r.transactionId == old(db.loans.next) && r.transactionId !in old(db.loans.rows)
              && db.loans == Insert(old(db.loans), Loan(bookId, userId, librarianId, today, today + IssueDays(issueDays, cfg), None, Issued))
    ensures !r.IssueOk? ==> db.loans == old(db.loans)
    ensures FinesConsistent(old(db.loans), old(db.fines)) ==> FinesConsistent(db.loans, db.fines)
  {
    var days := IssueDays(issueDays, cfg);
    if OpenLoanCount(db.loans, userId) >= cfg.maxBooksPerUser {
      return IssueFailed(LimitMessage);
    }
    var book := Books.GetById(db.books, bookId);
    if book.None? || book.value.availableCopies <= 0 {
      return IssueFailed(UnavailableMessage);
    }
    var due := today + days;
    if !InDateRange(due) {
      return IssueOverflow;
    }
    var id := db.loans.next;
    var loan := Loan(bookId, userId, librarianId, today, due, None, Issued);
    IssueKeepsFinesConsistent(db.loans, db.fines, loan);
    assert loan == Loan(bookId, userId, librarianId, today, today + IssueDays(issueDays, cfg), None, Issued);
    assert db.loans == old(db.loans);
    db.loans := Insert(db.loans, loan);
    return IssueOk(id);
  }

  /** A new loan leaves every existing loan, and so every fine's loan, as it was. */
  lemma IssueKeepsFinesConsistent(loans: Table<Loan>, fines: Table<Fine>, v: Loan)
    requires Store.Valid(loans)
    ensures FinesConsistent(loans, fines) ==> FinesConsistent(Insert(loans, v), fines)
  {
  }

  // ---------------------------------------------------------------------------
  // get_by_id and return_book
  // ---------------------------------------------------------------------------

  /** The joins of `get_by_id`: the loan's book and borrower rows exist. */
  predicate JoinsBookAndUser(books: Table<Book>, users: Table<User>, l: Loan) {
    l.bookId in books.rows && l.userId in users.rows
  }

  /** `Transaction.get_by_id`: the loan, provided its book and borrower rows exist. */
  function GetById(loans: Table<Loan>, books: Table<Book>, users: Table<User>, id: int): (r: Option<Row<Loan>>)
    ensures r.Some? <==> id in loans.rows && JoinsBookAndUser(books, users, loans.rows[id])
    ensures r.Some? ==> r.value == Row(id, loans.rows[id])
  {
    if id in loans.rows && JoinsBookAndUser(books, users, loans.rows[id]) then Some(Row(id, loans.rows[id])) else None
  }

  datatype ReturnResult =
    | ReturnFailed(message: string)
    | ReturnedOnTime
    | ReturnedWithFine(amount: int)

  const NotFoundMessage := "Transaction not found"
  const NotIssuedMessage := "Book is not currently issued"

  /**
   * `Transaction.return_book`. A loan the join cannot see is "not found"; a
   * loan that is not `issued` (returned, or swept to `overdue`) is refused.
   * Otherwise the loan becomes `returned` today, and exactly when today is
   * past the due date one `pending` fine is created for the borrower with
   * the policy's amount and days. The books table is never written.
   */
  method ReturnBook(db: Database, transactionId: int, librarianId: int, today: int, now: int, cfg: Settings)
    returns (r: ReturnResult)
    requires db.Valid()
    modifies db
    ensures db.Valid()
    ensures db.books == old(db.books) && db.users == old(db.users)
    ensures GetById(old(db.loans), old(db.books), old(db.users), transactionId).None? ==>
              r == ReturnFailed(NotFoundMessage) && db.loans == old(db.loans) && db.fines == old(db.fines)
    ensures GetById(old(db.loans), old(db.books), old(db.users), transactionId).Some? && old(db.loans.rows[transactionId]).status != Issued ==>
              r == ReturnFailed(NotIssuedMessage) && db.loans == old(db.loans) && db.fines == old(db.fines)
    ensures GetById(old(db.loans), old(db.books), old(db.users), transactionId).Some? && old(db.loans.rows[transactionId]).status == Issued ==>
              var loan := old(db.loans.rows[transactionId]);
              var fine := FineCalculator.FineFor(loan.dueDate, today, cfg);
              && db.loans == old(db.loans).(rows := old(db.loans.rows)[transactionId := loan.(status := Returned, returnDate := Some(today))])
              && (today > loan.dueDate ==>
                    r == ReturnedWithFine(fine.0)
                    && db.fines == Insert(old(db.fines), Fine(transactionId, loan.userId, fine.0, fine.1, Pending, None, None, now)))
              && (today <= loan.dueDate ==> r == ReturnedOnTime && db.fines == old(db.fines))
    ensures FinesConsistent(old(db.loans), old(db.fines)) ==> FinesConsistent(db.loans, db.fines)
  {
    var trans := GetById(db.loans, db.books, db.users, transactionId);
    if trans.None? {
      return ReturnFailed(NotFoundMessage);
    }
    var loan := trans.value.value;
    if loan.status != Issued {
      return ReturnFailed(NotIssuedMessage);
    }
    ghost var before := db.fines;
    ghost var consistent := FinesConsistent(db.loans, db.fines);
    db.loans := db.loans.(rows := db.loans.rows[transactionId := loan.(status := Returned, returnDate := Some(today))]);
    if today > loan.dueDate {
      var fine := FineCalculator.FineFor(loan.dueDate, today, cfg);
      var fineId := Fines.Create(db, transactionId, loan.userId, fine.0, fine.1, now);
      assert consistent ==> FinesConsistent(db.loans, db.fines) by {
        if consistent {
          forall f | f in db.fines.rows && f != fineId ensures db.fines.rows[f].transactionId != transactionId {
            assert f in before.rows;
          }
        }
      }
      return ReturnedWithFine(fine.0);
    }
    return ReturnedOnTime;
  }

  // ---------------------------------------------------------------------------
  // Listing queries
  // ---------------------------------------------------------------------------

  predicate StatusMatches(status: Option<string>, l: Loan) {
    Given(status) ==> LoanStatusText(l.status) == status.value
  }

  /** `ORDER BY t.issue_date DESC`. */
  predicate LatestIssueFirst(a: Row<Loan>, b: Row<Loan>) {
    a.value.issueDate >= b.value.issueDate
  }

  /** `ORDER BY t.due_date`. */
  predicate EarliestDueFirst(a: Row<Loan>, b: Row<Loan>) {
    a.value.dueDate <= b.value.dueDate
  }

  predicate InUserList(books: Table<Book>, userId: int, status: Option<string>, x: Row<Loan>) {
    x.value.userId == userId && x.value.bookId in books.rows && StatusMatches(status, x.value)
  }

  /** `Transaction.get_by_user`: the user's loans whose book exists, of the status when one is given, latest issue first. */
  function GetByUser(loans: Table<Loan>, books: Table<Book>, userId: int, status: Option<string>): (r: seq<Row<Loan>>)
    requires Store.Valid(loans)
    ensures SortedBy(r, LatestIssueFirst)
    ensures DistinctIds(r)
    ensures forall x :: x in r <==>
              && x.id in loans.rows && loans.rows[x.id] == x.value && x.value.userId == userId
              && x.value.bookId in books.rows && StatusMatches(status, x.value)
  {
    var p := (x: Row<Loan>) => InUserList(books, userId, status, x);
    QueryDistinct(loans, p, LatestIssueFirst);
    SortBy(Filter(Rows(loans), p), LatestIssueFirst)
  }

  predicate InFullList(books: Table<Book>, users: Table<User>, status: Option<string>, x: Row<Loan>) {
    JoinsBookAndUser(books, users, x.value) && StatusMatches(status, x.value)
  }

  /** `Transaction.get_all`: every loan whose book and borrower exist, of the status when one is given, latest issue first. */
  function GetAll(loans: Table<Loan>, books: Table<Book>, users: Table<User>, status: Option<string>): (r: seq<Row<Loan>>)
    requires Store.Valid(loans)
    ensures SortedBy(r, LatestIssueFirst)
    ensures DistinctIds(r)
    ensures forall x :: x in r <==>
              && x.id in loans.rows && loans.rows[x.id] == x.value
              && JoinsBookAndUser(books, users, x.value) && StatusMatches(status, x.value)
  {
    var p := (x: Row<Loan>) => InFullList(books, users, status, x);
    QueryDistinct(loans, p, LatestIssueFirst);
    SortBy(Filter(Rows(loans), p), LatestIssueFirst)
  }

  predicate IsPastDueIssued(books: Table<Book>, users: Table<User>, today: int, x: Row<Loan>) {
    JoinsBookAndUser(books, users, x.value) && x.value.status == Issued && x.value.dueDate < today
  }

  /**
   * `Transaction.get_overdue` as written: the loans still `issued` whose due
   * date is before today, earliest due first.
   */
  function GetOverdue(loans: Table<Loan>, books: Table<Book>, users: Table<User>, today: int): (r: seq<Row<Loan>>)
    requires Store.Valid(loans)
    ensures SortedBy(r, EarliestDueFirst)
    ensures DistinctIds(r)
    ensures forall x :: x in r <==>
              && x.id in loans.rows && loans.rows[x.id] == x.value && JoinsBookAndUser(books, users, x.value)
              && x.value.status == Issued && x.value.dueDate < today
  {
    var p := (x: Row<Loan>) => IsPastDueIssued(books, users, today, x);
    QueryDistinct(loans, p, EarliestDueFirst);
    SortBy(Filter(Rows(loans), p), EarliestDueFirst)
  }

  // ---------------------------------------------------------------------------
  // update_overdue_status
  // ---------------------------------------------------------------------------

  predicate ShouldSweep(l: Loan, today: int) {
    l.status == Issued && l.dueDate < today
  }

  /**
   * The bulk `UPDATE ... SET status = 'overdue' WHERE status = 'issued' AND
   * due_date < today`: exactly the issued loans past their due date change,
   * and only their status.
   */
  function SweepOverdue(loans: Table<Loan>, today: int): (r: Table<Loan>)
    ensures r.next == loans.next && r.rows.Keys == loans.rows.Keys
    ensures forall id :: id in loans.rows && ShouldSweep(loans.rows[id], today) ==>
              r.rows[id] == loans.rows[id].(status := Overdue)
    ensures forall id :: id in loans.rows && !ShouldSweep(loans.rows[id], today) ==> r.rows[id] == loans.rows[id]
    ensures forall id :: id in r.rows ==> !ShouldSweep(r.rows[id], today)
  {
    Table(map id | id in loans.rows :: if ShouldSweep(loans.rows[id], today) then loans.rows[id].(status := Overdue) else loans.rows[id],
          loans.next)
  }

  /** Sweeping twice with the same day is sweeping once. */
  lemma SweepIdempotent(loans: Table<Loan>, today: int)
    ensures SweepOverdue(SweepOverdue(loans, today), today) == SweepOverdue(loans, today)
  {
    var once := SweepOverdue(loans, today);
    var twice := SweepOverdue(once, today);
    assert twice.rows == once.rows;
  }

  /** The sweep never touches a returned loan, and never makes a loan returned. */
  lemma SweepKeepsReturned(loans: Table<Loan>, today: int, id: int)
    requires id in loans.rows
    ensures loans.rows[id].status == Returned <==> SweepOverdue(loans, today).rows[id].status == Returned
    ensures loans.rows[id].status == Returned ==> SweepOverdue(loans, today).rows[id] == loans.rows[id]
  {
  }

  /** `Transaction.update_overdue_status`: only the loans table changes, as `SweepOverdue` says. */
  method UpdateOverdueStatus(db: Database, today: int)
    requires db.Valid()
    modifies db
    ensures db.Valid()
    ensures db.loans == SweepOverdue(old(db.loans), today)
    ensures db.books == old(db.books) && db.users == old(db.users) && db.fines == old(db.fines)
    ensures FinesConsistent(old(db.loans), old(db.fines)) ==> FinesConsistent(db.loans, db.fines)
  {
    db.loans := SweepOverdue(db.loans, today);
  }

  /**
   * Right after a sweep with the same day, `get_overdue` as written lists
   * nothing: it looks for `issued` loans past due, and the sweep has just
   * made every one of them `overdue`.
   */
  lemma OverdueEmptyAfterSweep(loans: Table<Loan>, books: Table<Book>, users: Table<User>, today: int)
    requires Store.Valid(loans)
    ensures Store.Valid(SweepOverdue(loans, today))
    ensures GetOverdue(SweepOverdue(loans, today), books, users, today) == []
  {
  }

  predicate IsPastDueOpen(books: Table<Book>, users: Table<User>, today: int, x: Row<Loan>) {
    JoinsBookAndUser(books, users, x.value) && (x.value.status == Issued || x.value.status == Overdue) && x.value.dueDate < today
  }

  /**
   * The overdue list as evidently intended: the loans not yet returned
   * whose due date is before today, whether or not a sweep has already
   * marked them `overdue`.
   */
  function GetOverdueCorrected(loans: Table<Loan>, books: Table<Book>, users: Table<User>, today: int): (r: seq<Row<Loan>>)
    requires Store.Valid(loans)
    ensures SortedBy(r, EarliestDueFirst)
    ensures DistinctIds(r)
    ensures forall x :: x in r <==>
              && x.id in loans.rows && loans.rows[x.id] == x.value && JoinsBookAndUser(books, users, x.value)
              && x.value.status != Returned && x.value.dueDate < today
  {
    var p := (x: Row<Loan>) => IsPastDueOpen(books, users, today, x);
    QueryDistinct(loans, p, EarliestDueFirst);
    SortBy(Filter(Rows(loans), p), EarliestDueFirst)
  }

  /**
   * The sweep loses nothing from the corrected list: a loan is on it after
   * the sweep exactly when it was on it before, only its status changed.
   */
  lemma SweptLoansStillListed(loans: Table<Loan>, books: Table<Book>, users: Table<User>, today: int)
    requires Store.Valid(loans)
    ensures Store.Valid(SweepOverdue(loans, today))
    ensures forall id :: id in loans.rows ==>
              (Row(id, SweepOverdue(loans, today).rows[id]) in GetOverdueCorrected(SweepOverdue(loans, today), books, users, today)
               <==> Row(id, loans.rows[id]) in GetOverdueCorrected(loans, books, users, today))
  {
    var swept := SweepOverdue(loans, today);
    forall id | id in loans.rows
      ensures Row(id, swept.rows[id]) in GetOverdueCorrected(swept, books, users, today)
              <==> Row(id, loans.rows[id]) in GetOverdueCorrected(loans, books, users, today)
    {
      OnCorrectedList(swept, books, users, today, id);
      OnCorrectedList(loans, books, users, today, id);
    }
  }

  lemma OnCorrectedList(loans: Table<Loan>, books: Table<Book>, users: Table<User>, today: int, id: int)
    requires Store.Valid(loans) && id in loans.rows
    ensures Row(id, loans.rows[id]) in GetOverdueCorrected(loans, books, users, today) <==>
              IsPastDueOpen(books, users, today, Row(id, loans.rows[id]))
  {
  }

  /** The corrected list is not empty after a sweep whenever some visible loan was past due. */
  lemma CorrectedOverdueAfterSweep(loans: Table<Loan>, books: Table<Book>, users: Table<User>, today: int, id: int)
    requires Store.Valid(loans)
    requires id in loans.rows && JoinsBookAndUser(books, users, loans.rows[id]) && ShouldSweep(loans.rows[id], today)
    ensures Store.Valid(SweepOverdue(loans, today))
    ensures Row(id, loans.rows[id].(status := Overdue)) in GetOverdueCorrected(SweepOverdue(loans, today), books, users, today)
    ensures GetOverdue(SweepOverdue(loans, today), books, users, today) == []
  {
    OverdueEmptyAfterSweep(loans, books, users, today);
  }

  // ---------------------------------------------------------------------------
  // Money text
  // ---------------------------------------------------------------------------

  /** `f"{x:.2f}"` for an amount of `cents` hundredths. */
  function MoneyText(cents: int): (s: string)
    ensures |s| >= 4 && s[|s| - 3] == '.'
  {
    var m: nat := if cents < 0 then -cents else cents;
    (if cents < 0 then "-" else "") + NatToString(m / 100) + "." + Digits2(m % 100)
  }

  /** The message `return_book` answers with. */
  function ReturnMessage(r: ReturnResult): string {
    match r
    case ReturnFailed(m) => m
    case ReturnedOnTime => "Book returned successfully"
    case ReturnedWithFine(amount) => "Book returned with fine: $" + MoneyText(amount)
  }
}
