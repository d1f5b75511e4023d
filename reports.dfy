/**
 * `backend/routes/reports.py`: the dashboard counts (taken around an overdue
 * sweep), the inventory grouped by category, the circulation counts and the
 * fines report. All four handlers are staff only.
 */
module Reports {
  import opened Common
  import opened Store
  import opened Schema
  import opened Db
  import opened Http
  import AuthMiddleware
  import Books
  import Users
  import Transactions
  import Fines
  import FineRoutes

  predicate IsStaff(c: Caller) {
    c.role in AuthMiddleware.Staff
  }

  // ---------------------------------------------------------------------------
  // get_dashboard_stats
  // ---------------------------------------------------------------------------

  datatype DashboardStats = DashboardStats(
    totalBooks: int,
    availableBooks: int,
    totalUsers: int,
    students: int,
    librarians: int,
    issuedBooks: int,
    overdueBooks: int,
    pendingFines: int
  )

  datatype Dashboard = Dashboard(stats: DashboardStats, recent: seq<Row<Loan>>)

  predicate InStock(x: Row<Book>) {
    x.value.availableCopies > 0
  }

  predicate IsStudent(x: Row<User>) {
    x.value.role == "student"
  }

  predicate IsLibrarian(x: Row<User>) {
    x.value.role == "librarian"
  }

  /** How many transactions the dashboard shows. */
  const RecentCount := 10

  /** `[:10]`: the first ten, or all when there are fewer. */
  function Recent(all: seq<Row<Loan>>): (r: seq<Row<Loan>>)
    ensures |r| <= RecentCount && |r| <= |all| && r == all[..|r|]
    ensures |r| < RecentCount ==> r == all
  {
    all[..Min(RecentCount, |all|)]
  }

  /**
   * `get_dashboard_stats`. The issued count is taken before the overdue
   * sweep and the overdue count after it, through `get_overdue`, which then
   * finds nothing. The recent list is the first ten loans, latest issue first.
   */
  method DashboardReport(db: Database, caller: Caller, today: int) returns (resp: Response<Dashboard>)
    requires db.Valid()
    modifies db
    ensures db.Valid()
    ensures db.books == old(db.books) && db.users == old(db.users) && db.fines == old(db.fines)
    ensures !IsStaff(caller) ==> resp == Fail(403, AuthMiddleware.PermissionMessage) && db.loans == old(db.loans)
    ensures IsStaff(caller) ==>
              && db.loans == Transactions.SweepOverdue(old(db.loans), today)
              && resp.code == 200 && resp.body.Success?
              && var d := resp.body.value;
              && d.stats.totalBooks == |Books.GetAll(db.books, None, false)|
              && d.stats.availableBooks == |Filter(Books.GetAll(db.books, None, false), InStock)|
              && d.stats.availableBooks <= d.stats.totalBooks
              && d.stats.totalUsers == |Users.GetAll(db.users, None)|
              && d.stats.students == |Filter(Users.GetAll(db.users, None), IsStudent)|
              && d.stats.librarians == |Filter(Users.GetAll(db.users, None), IsLibrarian)|
              && d.stats.students + d.stats.librarians <= d.stats.totalUsers
              && d.stats.issuedBooks == |Transactions.GetAll(old(db.loans), db.books, db.users, Some("issued"))|
              && d.stats.overdueBooks == 0
              && d.stats.pendingFines == Fines.GetTotalPending(db.fines, None)
              && d.recent == Recent(Transactions.GetAll(db.loans, db.books, db.users, None))
  {
    var gate := AuthMiddleware.RoleRequired(AuthMiddleware.Staff, Some(caller.role));
    if gate.Deny? {
      return Denied(gate);
    }
    var allBooks := Books.GetAll(db.books, None, false);
    var available := Filter(allBooks, InStock);
    var allUsers := Users.GetAll(db.users, None);
    var students := Filter(allUsers, IsStudent);
    var librarians := Filter(allUsers, IsLibrarian);
    FilterCountDisjoint(allUsers, IsStudent, IsLibrarian);
    var issued := Transactions.GetAll(db.loans, db.books, db.users, Some("issued"));
    Transactions.OverdueEmptyAfterSweep(db.loans, db.books, db.users, today);
    Transactions.UpdateOverdueStatus(db, today);
    var overdue := Transactions.GetOverdue(db.loans, db.books, db.users, today);
    var pending := Fines.GetTotalPending(db.fines, None);
    var recent := Recent(Transactions.GetAll(db.loans, db.books, db.users, None));
    var stats := DashboardStats(|allBooks|, |available|, |allUsers|, |students|, |librarians|, |issued|, |overdue|, pending);
    resp := Response(200, Success(Dashboard(stats, recent)));
  }

  // ---------------------------------------------------------------------------
  // get_inventory_report
  // ---------------------------------------------------------------------------

  datatype CategoryStats = CategoryStats(totalBooks: int, totalCopies: int, availableCopies: int)

  datatype Inventory = Inventory(categories: map<string, CategoryStats>, totalCategories: int)

  const NoBooks := CategoryStats(0, 0, 0)

  /** One book counted into its category's entry, the entry starting at zero. */
  function AddBook(m: map<string, CategoryStats>, b: Book): map<string, CategoryStats> {
    var s := if b.category in m then m[b.category] else NoBooks;
    m[b.category := CategoryStats(s.totalBooks + 1, s.totalCopies + b.totalCopies, s.availableCopies + b.availableCopies)]
  }

  /** The `categories` dictionary after the loop has seen all of `rows`. */
  function Group(rows: seq<Row<Book>>): map<string, CategoryStats>
    decreases |rows|
  {
    if rows == [] then map[] else AddBook(Group(rows[..|rows| - 1]), rows[|rows| - 1].value)
  }

  /** The totals of one category, defined directly over the books: the reference the grouping is checked against. */
  function StatsOf(rows: seq<Row<Book>>, c: string): CategoryStats
    decreases |rows|
  {
    if rows == [] then NoBooks
    else
      var s := StatsOf(rows[..|rows| - 1], c);
      var b := rows[|rows| - 1].value;
      if b.category == c then CategoryStats(s.totalBooks + 1, s.totalCopies + b.totalCopies, s.availableCopies + b.availableCopies)
      else s
  }

  predicate HasCategory(rows: seq<Row<Book>>, c: string) {
    exists i :: 0 <= i < |rows| && rows[i].value.category == c
  }

  /**
   * The grouping has an entry for exactly the categories that occur, and
   * each entry holds that category's book count, copy total and available
   * total.
   */
  lemma {:induction false} GroupIsPerCategory(rows: seq<Row<Book>>, c: string)
    ensures c in Group(rows) <==> HasCategory(rows, c)
    ensures c in Group(rows) ==> Group(rows)[c] == StatsOf(rows, c)
    ensures c !in Group(rows) ==> StatsOf(rows, c) == NoBooks
    decreases |rows|
  {
    if rows != [] {
      var init := rows[..|rows| - 1];
      GroupIsPerCategory(init, c);
      if HasCategory(init, c) {
        var i :| 0 <= i < |init| && init[i].value.category == c;
        assert rows[i].value.category == c;
      }
      if HasCategory(rows, c) && rows[|rows| - 1].value.category != c {
        var i :| 0 <= i < |rows| && rows[i].value.category == c;
        assert init[i].value.category == c;
      }
    }
  }

  /** The sum of the `total_books` values of a grouping. */
  ghost function SumBooks(m: map<string, CategoryStats>): int
    decreases |m|
  {
    if m == map[] then 0
    else
      var k :| k in m;
      m[k].totalBooks + SumBooks(m - {k})
  }

  lemma SumBooksRemove(m: map<string, CategoryStats>, k: string)
    requires k in m
    ensures SumBooks(m) == m[k].totalBooks + SumBooks(m - {k})
    decreases |m|
  {
    var j :| j in m && SumBooks(m) == m[j].totalBooks + SumBooks(m - {j});
    if j != k {
      assert (m - {j}) - {k} == (m - {k}) - {j};
      SumBooksRemove(m - {j}, k);
      SumBooksRemove(m - {k}, j);
    }
  }

  /** Every book is counted in exactly one category: the `total_books` values add up to the number of books. */
  lemma {:induction false} GroupCountsEveryBook(rows: seq<Row<Book>>)
    ensures SumBooks(Group(rows)) == |rows|
    decreases |rows|
  {
    if rows != [] {
      var init := rows[..|rows| - 1];
      var g := Group(init);
      var c := rows[|rows| - 1].value.category;
      GroupCountsEveryBook(init);
      var g2 := Group(rows);
      assert g2 == AddBook(g, rows[|rows| - 1].value);
      SumBooksRemove(g2, c);
      assert g2 - {c} == g - {c};
      if c in g {
        SumBooksRemove(g, c);
      } else {
        assert g - {c} == g;
      }
    }
  }

  lemma GroupStep(rows: seq<Row<Book>>, i: nat)
    requires i < |rows|
    ensures Group(rows[..i + 1]) == AddBook(Group(rows[..i]), rows[i].value)
  {
    assert rows[..i + 1][..i] == rows[..i];
  }

  /** The `for book in books` loop of `get_inventory_report`, filling the per-category dictionary. */
  method GroupBooks(rows: seq<Row<Book>>) returns (categories: map<string, CategoryStats>)
    ensures categories == Group(rows)
  {
    categories := map[];
    var i := 0;
    while i < |rows|
      invariant 0 <= i <= |rows|
      invariant categories == Group(rows[..i])
    {
      var b := rows[i].value;
      if b.category !in categories {
        categories := categories[b.category := NoBooks];
      }
      var s := categories[b.category];
      categories := categories[b.category := CategoryStats(s.totalBooks + 1, s.totalCopies + b.totalCopies, s.availableCopies + b.availableCopies)];
      GroupStep(rows, i);
      i := i + 1;
    }
    assert rows[..|rows|] == rows;
  }

  /** `get_inventory_report`: every book grouped by category, and the number of categories. */
  method InventoryReport(books: Table<Book>, caller: Caller) returns (resp: Response<Inventory>)
    requires Store.Valid(books)
    ensures !IsStaff(caller) ==> resp == Fail(403, AuthMiddleware.PermissionMessage)
    ensures IsStaff(caller) ==>
              var g := Group(Books.GetAll(books, None, false));
              resp == Response(200, Success(Inventory(g, |g|)))
  {
    var gate := AuthMiddleware.RoleRequired(AuthMiddleware.Staff, Some(caller.role));
    if gate.Deny? {
      return Denied(gate);
    }
    var categories := GroupBooks(Books.GetAll(books, None, false));
    resp := Response(200, Success(Inventory(categories, |categories|)));
  }

  /** What the inventory promises about the library: per-category figures, and one count per book in total. */
  lemma InventoryCoversLibrary(books: Table<Book>, c: string)
    requires Store.Valid(books)
    ensures var rows := Books.GetAll(books, None, false);
            && SumBooks(Group(rows)) == |books.rows|
            && (c in Group(rows) <==> exists id :: id in books.rows && books.rows[id].category == c)
            && (c in Group(rows) ==> Group(rows)[c] == StatsOf(rows, c))
  {
    var rows := Books.GetAll(books, None, false);
    GroupCountsEveryBook(rows);
    Books.GetAllListsEveryBook(books);
    GroupIsPerCategory(rows, c);
    HasCategoryOfStored(books, rows, c);
  }

  /** A listing of every stored book has a category exactly when some stored book has it. */
  lemma HasCategoryOfStored(books: Table<Book>, rows: seq<Row<Book>>, c: string)
    requires forall x :: x in rows <==> x.id in books.rows && books.rows[x.id] == x.value
    ensures HasCategory(rows, c) <==> exists id :: id in books.rows && books.rows[id].category == c
  {
    if exists id :: id in books.rows && books.rows[id].category == c {
      var id :| id in books.rows && books.rows[id].category == c;
      var x := Row(id, books.rows[id]);
      assert x in rows;
      var i :| 0 <= i < |rows| && rows[i] == x;
      assert rows[i].value.category == c;
    }
    if HasCategory(rows, c) {
      var i :| 0 <= i < |rows| && rows[i].value.category == c;
      assert rows[i] in rows;
    }
  }

  // ---------------------------------------------------------------------------
  // get_circulation_report
  // ---------------------------------------------------------------------------

  datatype Circulation = Circulation(booksIssued: int, booksReturned: int, booksOverdue: int, period: string)

  predicate IssuedOrReturned(x: Row<Loan>) {
    x.value.status == Issued || x.value.status == Returned
  }

  predicate WasReturned(x: Row<Loan>) {
    x.value.status == Returned
  }

  predicate IsOverdue(x: Row<Loan>) {
    x.value.status == Overdue
  }

  /** Python truthiness of a query argument: absent or empty is false. */
  predicate Present(arg: Option<string>) {
    arg.Some? && arg.value != ""
  }

  /**
   * `get_circulation_report`: both dates must be given, and are otherwise
   * only echoed; `books_issued` counts issued and returned loans (so not
   * the overdue ones) and can never be below `books_returned`.
   */
  function CirculationReport(loans: Table<Loan>, books: Table<Book>, users: Table<User>, caller: Caller,
                             startDate: Option<string>, endDate: Option<string>): (r: Response<Circulation>)
    requires Store.Valid(loans)
    ensures !IsStaff(caller) ==> r == Fail(403, AuthMiddleware.PermissionMessage)
    ensures IsStaff(caller) && !(Present(startDate) && Present(endDate)) ==> r == Fail(400, "Start date and end date are required")
    ensures r.code == 200 <==> IsStaff(caller) && Present(startDate) && Present(endDate)
    ensures r.code == 200 ==>
              && r.body.Success?
              && var c := r.body.value;
              && var all := Transactions.GetAll(loans, books, users, None);
              && c.booksIssued == |Filter(all, IssuedOrReturned)|
              && c.booksReturned == |Filter(all, WasReturned)|
              && c.booksOverdue == |Filter(all, IsOverdue)|
              && c.booksReturned <= c.booksIssued
              && c.booksIssued + c.booksOverdue == |all|
              && c.period == startDate.value + " to " + endDate.value
  {
    var gate := AuthMiddleware.RoleRequired(AuthMiddleware.Staff, Some(caller.role));
    if gate.Deny? then Denied(gate)
    else if !Present(startDate) || !Present(endDate) then Fail(400, "Start date and end date are required")
    else
      var all := Transactions.GetAll(loans, books, users, None);
      FilterCountMonotone(all, WasReturned, IssuedOrReturned);
      FilterCountPartition(all, IssuedOrReturned, IsOverdue);
      Response(200, Success(Circulation(|Filter(all, IssuedOrReturned)|, |Filter(all, WasReturned)|,
                                        |Filter(all, IsOverdue)|, startDate.value + " to " + endDate.value)))
  }

  /** The counts do not depend on the requested period. */
  lemma CirculationIgnoresPeriod(loans: Table<Loan>, books: Table<Book>, users: Table<User>, caller: Caller,
                                 s1: string, e1: string, s2: string, e2: string)
    requires Store.Valid(loans) && IsStaff(caller)
    requires s1 != "" && e1 != "" && s2 != "" && e2 != ""
    ensures var a := CirculationReport(loans, books, users, caller, Some(s1), Some(e1)).body.value;
            var b := CirculationReport(loans, books, users, caller, Some(s2), Some(e2)).body.value;
            a.booksIssued == b.booksIssued && a.booksReturned == b.booksReturned && a.booksOverdue == b.booksOverdue
  {
  }

  // ---------------------------------------------------------------------------
  // get_fines_report
  // ---------------------------------------------------------------------------

  /** `request.args.get('status', 'pending')`. */
  function ReportStatus(status: Option<string>): string {
    if status.None? then "pending" else status.value
  }

  /**
   * `get_fines_report`: the fines of the requested status, `pending` when
   * none is asked for, with their total and count.
   */
  function FinesReport(fines: Table<Fine>, loans: Table<Loan>, books: Table<Book>, users: Table<User>, caller: Caller,
                       status: Option<string>): (r: Response<FineRoutes.FineTotals>)
    requires Store.Valid(fines)
    ensures !IsStaff(caller) ==> r == Fail(403, AuthMiddleware.PermissionMessage)
    ensures r.code == 200 <==> IsStaff(caller)
    ensures r.code == 200 ==>
              && r.body.Success?
              && r.body.value.fines == Fines.GetAll(fines, loans, books, users, Some(ReportStatus(status)))
              && r.body.value.count == |r.body.value.fines|
              && r.body.value.totalAmount == Fines.SumAmounts(r.body.value.fines)
  {
    var gate := AuthMiddleware.RoleRequired(AuthMiddleware.Staff, Some(caller.role));
    if gate.Deny? then Denied(gate)
    else Response(200, Success(FineRoutes.Totals(fines, loans, books, users, Some(ReportStatus(status)))))
  }

  /**
   * With no status asked for, the report lists only pending fines, and when
   * every fine's loan, book and user exist its total is the ledger's
   * pending total, the figure the dashboard shows.
   */
  lemma DefaultFinesReportIsPendingTotal(fines: Table<Fine>, loans: Table<Loan>, books: Table<Book>, users: Table<User>, caller: Caller)
    requires Store.Valid(fines) && IsStaff(caller)
    ensures forall x :: x in FinesReport(fines, loans, books, users, caller, None).body.value.fines ==> x.value.status == Pending
    ensures (forall id :: id in fines.rows ==> fines.rows[id].userId in users.rows && Fines.JoinsLoanAndBook(loans, books, fines.rows[id])) ==>
              FinesReport(fines, loans, books, users, caller, None).body.value.totalAmount == Fines.GetTotalPending(fines, None)
  {
    var r := FinesReport(fines, loans, books, users, caller, None);
    var listed := Fines.GetAll(fines, loans, books, users, Some("pending"));
    assert ReportStatus(None) == "pending";
    assert r.body.value.fines == listed && r.body.value.totalAmount == Fines.SumAmounts(listed);
    Fines.PendingListingIsPending(fines, loans, books, users);
    if forall id :: id in fines.rows ==> fines.rows[id].userId in users.rows && Fines.JoinsLoanAndBook(loans, books, fines.rows[id]) {
      Fines.PendingListingMatchesTotal(fines, loans, books, users);
    }
  }
}
