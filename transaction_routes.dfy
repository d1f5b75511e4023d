/**
 * The request decisions of `backend/routes/transactions.py`. Every handler
 * sits behind `token_required` and receives its `Caller`; the role guard,
 * the required-field checks and the mapping of model results to status
 * codes are modelled here. The JSON body and query string arrive already
 * decoded: an absent key is `None`.
 */
module TransactionRoutes {
  import opened Common
  import opened LibraryConfig
  import opened Store
  import opened Schema
  import opened Db
  import opened Http
  import AuthMiddleware
  import Books
  import Transactions
  import FineCalculator

  /** The JSON body of `POST /issue`. */
  datatype IssueRequest = IssueRequest(bookId: Option<int>, userId: Option<int>, issueDays: Option<int>)

  datatype IssueReceipt = IssueReceipt(message: string, transactionId: int)

  predicate IsStaff(c: Caller) {
    c.role in AuthMiddleware.Staff
  }

  /** The conditions under which `Transaction.issue_book` inserts a loan. */
  predicate IssueSucceeds(loans: Table<Loan>, books: Table<Book>, bookId: int, userId: int, issueDays: Option<int>, today: int, cfg: Settings)
    requires Store.Valid(loans)
  {
    && Transactions.OpenLoanCount(loans, userId) < cfg.maxBooksPerUser
    && Books.IsAvailable(books, bookId)
    && Transactions.InDateRange(today + Transactions.IssueDays(issueDays, cfg))
  }

  /**
   * `issue_book`: staff only; `book_id` then `user_id` must be present; the
   * model's refusal is a 400 with its message, success a 201 with the new
   * id. The caller is recorded as the issuing librarian.
   */
  method Issue(db: Database, caller: Caller, req: IssueRequest, today: int, cfg: Settings) returns (resp: Response<IssueReceipt>)
    requires db.Valid()
    modifies db
    ensures db.Valid()
    ensures db.books == old(db.books) && db.users == old(db.users) && db.fines == old(db.fines)
    ensures !IsStaff(caller) ==> resp == Fail(403, AuthMiddleware.PermissionMessage)
    ensures IsStaff(caller) && req.bookId.None? ==> resp == Fail(400, "book_id is required")
    ensures IsStaff(caller) && req.bookId.Some? && req.userId.None? ==> resp == Fail(400, "user_id is required")
    ensures IsStaff(caller) && req.bookId.Some? && req.userId.Some?
            && Transactions.OpenLoanCount(old(db.loans), req.userId.value) >= cfg.maxBooksPerUser ==>
              resp == Fail(400, Transactions.LimitMessage)
    ensures IsStaff(caller) && req.bookId.Some? && req.userId.Some?
            && Transactions.OpenLoanCount(old(db.loans), req.userId.value) < cfg.maxBooksPerUser
            && !Books.IsAvailable(old(db.books), req.bookId.value) ==>
              resp == Fail(400, Transactions.UnavailableMessage)
    ensures IsStaff(caller) && req.bookId.Some? && req.userId.Some?
            && Transactions.OpenLoanCount(old(db.loans), req.userId.value) < cfg.maxBooksPerUser
            && Books.IsAvailable(old(db.books), req.bookId.value)
            && !Transactions.InDateRange(today + Transactions.IssueDays(req.issueDays, cfg)) ==>
              resp == Fail(500, InternalError)
    ensures resp.code == 201 <==>
              IsStaff(caller) && req.bookId.Some? && req.userId.Some?
              && IssueSucceeds(old(db.loans), old(db.books), req.bookId.value, req.userId.value, req.issueDays, today, cfg)
    ensures resp.code == 201 ==>
              && resp.body == Success(IssueReceipt("Book issued successfully", old(db.loans.next)))
              && db.loans == Insert(old(db.loans), Loan(req.bookId.value, req.userId.value, caller.userId, today,
                                                        today + Transactions.IssueDays(req.issueDays, cfg), None, Issued))
    ensures resp.code != 201 ==> db.loans == old(db.loans)
    ensures Transactions.FinesConsistent(old(db.loans), old(db.fines)) ==> Transactions.FinesConsistent(db.loans, db.fines)
  {
    var gate := AuthMiddleware.RoleRequired(AuthMiddleware.Staff, Some(caller.role));
    if gate.Deny? {
      return Denied(gate);
    }
    if req.bookId.None? {
      return Fail(400, "book_id is required");
    }
    if req.userId.None? {
      return Fail(400, "user_id is required");
    }
    var result := Transactions.IssueBook(db, req.bookId.value, req.userId.value, caller.userId, req.issueDays, today, cfg);
    match result
    case IssueOk(id) =>
      resp := Response(201, Success(IssueReceipt("Book issued successfully", id)));
    case IssueFailed(m) =>
      resp := Fail(400, m);
    case IssueOverflow =>
      resp := Fail(500, InternalError);
  }

  /**
   * `return_book`: staff only; the model's refusal is a 400 with its
   * message, success a 200 whose message names the fine when there is one.
   */
  method Return(db: Database, caller: Caller, transactionId: int, today: int, now: int, cfg: Settings)
    returns (resp: Response<string>)
    requires db.Valid()
    modifies db
    ensures db.Valid()
    ensures db.books == old(db.books) && db.users == old(db.users)
    ensures !IsStaff(caller) ==> resp == Fail(403, AuthMiddleware.PermissionMessage)
    ensures IsStaff(caller) && Transactions.GetById(old(db.loans), old(db.books), old(db.users), transactionId).None? ==>
              resp == Fail(400, Transactions.NotFoundMessage)
    ensures resp.code == 200 <==>
              && IsStaff(caller)
              && Transactions.GetById(old(db.loans), old(db.books), old(db.users), transactionId).Some?
              && old(db.loans.rows[transactionId]).status == Issued
    ensures resp.code == 200 ==>
              var loan := old(db.loans.rows[transactionId]);
              var fine := FineCalculator.FineFor(loan.dueDate, today, cfg);
              && db.loans == old(db.loans).(rows := old(db.loans.rows)[transactionId := loan.(status := Returned, returnDate := Some(today))])
              && (today <= loan.dueDate ==> resp.body == Success("Book returned successfully") && db.fines == old(db.fines))
              && (today > loan.dueDate ==>
                    resp.body == Success("Book returned with fine: $" + Transactions.MoneyText(fine.0))
                    && db.fines == Insert(old(db.fines), Fine(transactionId, loan.userId, fine.0, fine.1, Pending, None, None, now)))
    ensures resp.code != 200 ==> db.loans == old(db.loans) && db.fines == old(db.fines)
    ensures Transactions.FinesConsistent(old(db.loans), old(db.fines)) ==> Transactions.FinesConsistent(db.loans, db.fines)
  {
    var gate := AuthMiddleware.RoleRequired(AuthMiddleware.Staff, Some(caller.role));
    if gate.Deny? {
      return Denied(gate);
    }
    var result := Transactions.ReturnBook(db, transactionId, caller.userId, today, now, cfg);
    if result.ReturnFailed? {
      return Fail(400, result.message);
    }
    return Response(200, Success(Transactions.ReturnMessage(result)));
  }

  /**
   * The user filter `get_transactions` applies: a student is always scoped
   * to their own id; others use the `user_id` argument. A falsy id (0) means
   * no filter.
   */
  function ListScope(caller: Caller, userIdArg: Option<int>): (r: Option<int>)
    ensures caller.role == "student" && caller.userId != 0 ==> r == Some(caller.userId)
    ensures caller.role != "student" ==> r == userIdArg
  {
    if caller.role == "student" then (if caller.userId != 0 then Some(caller.userId) else None) else userIdArg
  }

  /** `get_transactions`: one user's loans when scoped, every loan otherwise, with their count. */
  function ListTransactions(loans: Table<Loan>, books: Table<Book>, users: Table<User>, caller: Caller,
                            status: Option<string>, userIdArg: Option<int>): (r: Response<Listing<Row<Loan>>>)
    requires Store.Valid(loans)
    ensures r.code == 200 && r.body.Success? && r.body.value.count == |r.body.value.items|
    ensures caller.role == "student" && caller.userId != 0 ==>
              forall x :: x in r.body.value.items ==> x.value.userId == caller.userId
    ensures ListScope(caller, userIdArg).Some? ==>
              forall x :: x in r.body.value.items <==>
                x.id in loans.rows && loans.rows[x.id] == x.value && x.value.userId == ListScope(caller, userIdArg).value
                && x.value.bookId in books.rows && Transactions.StatusMatches(status, x.value)
    ensures ListScope(caller, userIdArg).None? ==>
              forall x :: x in r.body.value.items <==>
                x.id in loans.rows && loans.rows[x.id] == x.value
                && Transactions.JoinsBookAndUser(books, users, x.value) && Transactions.StatusMatches(status, x.value)
    ensures DistinctIds(r.body.value.items)
  {
    var scope := ListScope(caller, userIdArg);
    var items := if scope.Some? then Transactions.GetByUser(loans, books, scope.value, status)
                 else Transactions.GetAll(loans, books, users, status);
    Response(200, Success(ListOf(items)))
  }

  /** Whatever `user_id` a student asks for, the answer is the same. */
  lemma StudentArgumentIgnored(loans: Table<Loan>, books: Table<Book>, users: Table<User>, caller: Caller,
                               status: Option<string>, a: Option<int>, b: Option<int>)
    requires Store.Valid(loans) && caller.role == "student"
    ensures ListTransactions(loans, books, users, caller, status, a) == ListTransactions(loans, books, users, caller, status, b)
  {
  }

  /** `get_transaction`: 404 for a loan the join cannot see, before the ownership check; 403 for a student's look at another's loan. */
  function GetTransaction(loans: Table<Loan>, books: Table<Book>, users: Table<User>, caller: Caller, id: int): (r: Response<Row<Loan>>)
    ensures Transactions.GetById(loans, books, users, id).None? ==> r == Fail(404, Transactions.NotFoundMessage)
    ensures Transactions.GetById(loans, books, users, id).Some? && caller.role == "student" && loans.rows[id].userId != caller.userId ==>
              r == Fail(403, Unauthorized)
    ensures r.code == 200 <==>
              Transactions.GetById(loans, books, users, id).Some? && (caller.role != "student" || loans.rows[id].userId == caller.userId)
    ensures r.code == 200 ==> r.body == Success(Row(id, loans.rows[id]))
  {
    match Transactions.GetById(loans, books, users, id)
    case None => Fail(404, Transactions.NotFoundMessage)
    case Some(t) =>
      if caller.role == "student" && t.value.userId != caller.userId then Fail(403, Unauthorized)
      else Response(200, Success(t))
  }

  /**
   * `get_overdue`: staff only; sweeps with today's date and then asks for
   * the loans still `issued` past due, so the list is always empty.
   */
  method Overdue(db: Database, caller: Caller, today: int) returns (resp: Response<Listing<Row<Loan>>>)
    requires db.Valid()
    modifies db
    ensures db.Valid()
    ensures db.books == old(db.books) && db.users == old(db.users) && db.fines == old(db.fines)
    ensures !IsStaff(caller) ==> resp == Fail(403, AuthMiddleware.PermissionMessage) && db.loans == old(db.loans)
    ensures IsStaff(caller) ==>
              db.loans == Transactions.SweepOverdue(old(db.loans), today) && resp == Response(200, Success(Listing([], 0)))
  {
    var gate := AuthMiddleware.RoleRequired(AuthMiddleware.Staff, Some(caller.role));
    if gate.Deny? {
      return Denied(gate);
    }
    Transactions.OverdueEmptyAfterSweep(db.loans, db.books, db.users, today);
    Transactions.UpdateOverdueStatus(db, today);
    var overdue := Transactions.GetOverdue(db.loans, db.books, db.users, today);
    return Response(200, Success(ListOf(overdue)));
  }
}
