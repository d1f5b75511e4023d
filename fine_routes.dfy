/**
 * The request decisions of `backend/routes/fines.py` (and the identical
 * user-fines handler of `backend/routes/users.py`): ownership checks for
 * students, the staff and admin gates on pay and waive, and the totals the
 * listings report.
 */
module FineRoutes {
  import opened Common
  import opened Store
  import opened Schema
  import opened Db
  import opened Http
  import AuthMiddleware
  import Fines

  /** The body of a user's fine listing. */
  datatype UserFineReport = UserFineReport(fines: seq<Row<Fine>>, totalPending: int, count: int)

  /** The body of a full fine listing. */
  datatype FineTotals = FineTotals(fines: seq<Row<Fine>>, totalAmount: int, count: int)

  /** A student may look only at their own records; admins and librarians at anybody's. */
  predicate MayRead(caller: Caller, ownerId: int) {
    caller.role != "student" || ownerId == caller.userId
  }

  /**
   * `get_user_fines`: 403 for a student asking about someone else;
   * otherwise the user's fines of the requested status, and the user's
   * pending total, which does not depend on that status.
   */
  function UserFines(fines: Table<Fine>, loans: Table<Loan>, books: Table<Book>, caller: Caller, userId: int,
                     status: Option<string>): (r: Response<UserFineReport>)
    requires Store.Valid(fines)
    ensures !MayRead(caller, userId) ==> r == Fail(403, Unauthorized)
    ensures r.code == 200 <==> MayRead(caller, userId)
    ensures r.code == 200 ==>
              && r.body.Success?
              && r.body.value.totalPending == Fines.GetTotalPending(fines, Some(userId))
              && r.body.value.count == |r.body.value.fines|
              && (forall x :: x in r.body.value.fines <==>
                    x.id in fines.rows && fines.rows[x.id] == x.value && x.value.userId == userId
                    && Fines.JoinsLoanAndBook(loans, books, x.value) && Fines.StatusMatches(status, x.value))
              && DistinctIds(r.body.value.fines)
  {
    if !MayRead(caller, userId) then Fail(403, Unauthorized)
    else
      var listed := Fines.GetByUser(fines, loans, books, userId, status);
      Response(200, Success(UserFineReport(listed, Fines.GetTotalPending(fines, Some(userId)), |listed|)))
  }

  /** The pending total in a user's fine listing is the same whatever status filter was asked for. */
  lemma PendingTotalIgnoresFilter(fines: Table<Fine>, loans: Table<Loan>, books: Table<Book>, caller: Caller, userId: int,
                                  s1: Option<string>, s2: Option<string>)
    requires Store.Valid(fines) && MayRead(caller, userId)
    ensures UserFines(fines, loans, books, caller, userId, s1).body.value.totalPending
         == UserFines(fines, loans, books, caller, userId, s2).body.value.totalPending
  {
  }

  /**
   * A full fine listing with the two totals the handlers report: the sum of
   * the listed amounts and their number. The sum is taken over the listing
   * sorted newest first, yet it equals the sum of the matching fines taken
   * in table order, and the count is the number of distinct fines listed.
   */
  function Totals(fines: Table<Fine>, loans: Table<Loan>, books: Table<Book>, users: Table<User>, status: Option<string>): (r: FineTotals)
    requires Store.Valid(fines)
    ensures r.fines == Fines.GetAll(fines, loans, books, users, status)
    ensures r.totalAmount == Fines.SumAmounts(Filter(Rows(fines), (x: Row<Fine>) => Fines.InFullList(loans, books, users, status, x)))
    ensures r.count == |r.fines| && DistinctIds(r.fines)
  {
    var listed := Fines.GetAll(fines, loans, books, users, status);
    Fines.SumAmountsPermutation(listed, Filter(Rows(fines), (x: Row<Fine>) => Fines.InFullList(loans, books, users, status, x)));
    FineTotals(listed, Fines.SumAmounts(listed), |listed|)
  }

  /** `get_all_fines`: staff only; every fine of the status when one is given, with the sum of their amounts. */
  function AllFines(fines: Table<Fine>, loans: Table<Loan>, books: Table<Book>, users: Table<User>, caller: Caller,
                    status: Option<string>): (r: Response<FineTotals>)
    requires Store.Valid(fines)
    ensures caller.role !in AuthMiddleware.Staff ==> r == Fail(403, AuthMiddleware.PermissionMessage)
    ensures caller.role in AuthMiddleware.Staff ==> r == Response(200, Success(Totals(fines, loans, books, users, status)))
  {
    var gate := AuthMiddleware.RoleRequired(AuthMiddleware.Staff, Some(caller.role));
    if gate.Deny? then Denied(gate) else Response(200, Success(Totals(fines, loans, books, users, status)))
  }

  /** `get_fine`: 404 for a fine the joins cannot see, before the ownership check; 403 for a student reading another's fine. */
  function GetFine(fines: Table<Fine>, loans: Table<Loan>, books: Table<Book>, users: Table<User>, caller: Caller, id: int): (r: Response<Row<Fine>>)
    ensures Fines.GetById(fines, loans, books, users, id).None? ==> r == Fail(404, "Fine not found")
    ensures Fines.GetById(fines, loans, books, users, id).Some? && !MayRead(caller, fines.rows[id].userId) ==> r == Fail(403, Unauthorized)
    ensures r.code == 200 <==> Fines.GetById(fines, loans, books, users, id).Some? && MayRead(caller, fines.rows[id].userId)
    ensures r.code == 200 ==> r.body == Success(Row(id, fines.rows[id]))
  {
    match Fines.GetById(fines, loans, books, users, id)
    case None => Fail(404, "Fine not found")
    case Some(f) => if !MayRead(caller, f.value.userId) then Fail(403, Unauthorized) else Response(200, Success(f))
  }

  /**
   * `pay_fine`: staff only. The payment method is the body's, or `cash`
   * when the body or the key is absent. `Fine.pay_fine` always reports
   * success, so a staff caller always gets 200.
   */
  method Pay(db: Database, caller: Caller, fineId: int, paymentMethod: Option<string>, today: int) returns (resp: Response<string>)
    requires db.Valid()
    modifies db
    ensures db.Valid()
    ensures db.books == old(db.books) && db.users == old(db.users) && db.loans == old(db.loans)
    ensures caller.role !in AuthMiddleware.Staff ==> resp == Fail(403, AuthMiddleware.PermissionMessage) && db.fines == old(db.fines)
    ensures caller.role in AuthMiddleware.Staff ==> resp == Response(200, Success("Fine marked as paid"))
    ensures caller.role in AuthMiddleware.Staff && fineId in old(db.fines.rows) ==>
              var m := if paymentMethod.Some? then paymentMethod.value else "cash";
              db.fines == old(db.fines).(rows := old(db.fines.rows)[fineId := old(db.fines.rows[fineId]).(status := Paid, paidDate := Some(today), paymentMethod := Some(m))])
    ensures fineId !in old(db.fines.rows) ==> db.fines == old(db.fines)
  {
    var gate := AuthMiddleware.RoleRequired(AuthMiddleware.Staff, Some(caller.role));
    if gate.Deny? {
      return Denied(gate);
    }
    var ok := Fines.PayFine(db, fineId, paymentMethod, today);
    if ok {
      resp := Response(200, Success("Fine marked as paid"));
    } else {
      resp := Fail(500, "Failed to update fine");
    }
  }

  /** `waive_fine`: admins only; `Fine.waive_fine` always reports success, so an admin always gets 200. */
  method Waive(db: Database, caller: Caller, fineId: int) returns (resp: Response<string>)
    requires db.Valid()
    modifies db
    ensures db.Valid()
    ensures db.books == old(db.books) && db.users == old(db.users) && db.loans == old(db.loans)
    ensures caller.role != "admin" ==> resp == Fail(403, AuthMiddleware.PermissionMessage) && db.fines == old(db.fines)
    ensures caller.role == "admin" ==> resp == Response(200, Success("Fine waived successfully"))
    ensures caller.role == "admin" && fineId in old(db.fines.rows) ==>
              db.fines == old(db.fines).(rows := old(db.fines.rows)[fineId := old(db.fines.rows[fineId]).(status := Waived)])
    ensures fineId !in old(db.fines.rows) ==> db.fines == old(db.fines)
  {
    var gate := AuthMiddleware.RoleRequired(AuthMiddleware.AdminOnly, Some(caller.role));
    if gate.Deny? {
      return Denied(gate);
    }
    var ok := Fines.WaiveFine(db, fineId);
    if ok {
      resp := Response(200, Success("Fine waived successfully"));
    } else {
      resp := Fail(500, "Failed to waive fine");
    }
  }

  /** A librarian may pay a fine but not waive it. */
  lemma LibrarianPaysButCannotWaive()
    ensures AuthMiddleware.RoleRequired(AuthMiddleware.Staff, Some("librarian")).Pass?
    ensures AuthMiddleware.RoleRequired(AuthMiddleware.AdminOnly, Some("librarian")).Deny?
  {
  }
}
