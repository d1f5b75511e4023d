/**
 * The fine ledger of `backend/models/fine.py`: a fine is created `pending`
 * and moved to `paid` or `waived` without any check of its current status;
 * the queries join each fine to its loan, that loan's book and the fined
 * user, and the aggregate sums the pending amounts.
 */
module Fines {
  import opened Common
  import opened Store
  import opened Schema
  import opened Db
  import FineCalculator

  /** `Fine.create`: a new `pending` fine with exactly the given loan, user, amount and days. */
  method Create(db: Database, transactionId: int, userId: int, amount: int, daysOverdue: int, now: int) returns (id: int)
    requires db.Valid()
    modifies db
    ensures db.Valid()
    ensures id == old(db.fines.next) && id !in old(db.fines.rows)
    ensures db.fines == Insert(old(db.fines), Fine(transactionId, userId, amount, daysOverdue, Pending, None, None, now))
    ensures db.books == old(db.books) && db.users == old(db.users) && db.loans == old(db.loans)
  {
    id := db.fines.next;
    db.fines := Insert(db.fines, Fine(transactionId, userId, amount, daysOverdue, Pending, None, None, now));
  }

  /**
   * `Fine.pay_fine`: whatever its status, the fine becomes `paid` with
   * today's date and the payment method (`cash` when the caller leaves it
   * out). An unknown id changes nothing. The answer is always `true`.
   */
  method PayFine(db: Database, fineId: int, paymentMethod: Option<string>, today: int) returns (ok: bool)
    requires db.Valid()
    modifies db
    ensures db.Valid() && ok
    ensures var m := if paymentMethod.Some? then paymentMethod.value else "cash";
      fineId in old(db.fines.rows) ==>
        db.fines == old(db.fines).(rows := old(db.fines.rows)[fineId := old(db.fines.rows[fineId]).(status := Paid, paidDate := Some(today), paymentMethod := Some(m))])
    ensures fineId !in old(db.fines.rows) ==> db.fines == old(db.fines)
    ensures forall u :: GetTotalPending(db.fines, u) == GetTotalPending(old(db.fines), u) - (if fineId in old(db.fines.rows) then PendingAmount(u, Row(fineId, old(db.fines.rows[fineId]))) else 0)
    ensures db.books == old(db.books) && db.users == old(db.users) && db.loans == old(db.loans)
  {
    var m := if paymentMethod.Some? then paymentMethod.value else "cash";
    if fineId in db.fines.rows {
      var f := db.fines.rows[fineId];
      ghost var before := db.fines;
      db.fines := db.fines.(rows := db.fines.rows[fineId := f.(status := Paid, paidDate := Some(today), paymentMethod := Some(m))]);
      forall u ensures GetTotalPending(db.fines, u) == GetTotalPending(before, u) - PendingAmount(u, Row(fineId, f)) {
        TotalAfterUpdate(before, fineId, db.fines.rows[fineId], u);
      }
    }
    return true;
  }

  /**
   * `Fine.waive_fine`: whatever its status, the fine becomes `waived`; the
   * payment date and method are left as they were. The answer is always
   * `true`.
   */
  method WaiveFine(db: Database, fineId: int) returns (ok: bool)
    requires db.Valid()
    modifies db
    ensures db.Valid() && ok
    ensures fineId in old(db.fines.rows) ==>
              db.fines == old(db.fines).(rows := old(db.fines.rows)[fineId := old(db.fines.rows[fineId]).(status := Waived)])
    ensures fineId !in old(db.fines.rows) ==> db.fines == old(db.fines)
    ensures forall u :: GetTotalPending(db.fines, u) == GetTotalPending(old(db.fines), u) - (if fineId in old(db.fines.rows) then PendingAmount(u, Row(fineId, old(db.fines.rows[fineId]))) else 0)
    ensures db.books == old(db.books) && db.users == old(db.users) && db.loans == old(db.loans)
  {
    if fineId in db.fines.rows {
      var f := db.fines.rows[fineId];
      ghost var before := db.fines;
      db.fines := db.fines.(rows := db.fines.rows[fineId := f.(status := Waived)]);
      forall u ensures GetTotalPending(db.fines, u) == GetTotalPending(before, u) - PendingAmount(u, Row(fineId, f)) {
        TotalAfterUpdate(before, fineId, db.fines.rows[fineId], u);
      }
    }
    return true;
  }

  // ---------------------------------------------------------------------------
  // get_total_pending
  // ---------------------------------------------------------------------------

  /** Python truthiness of `user_id`: `None` and `0` are false. */
  predicate Truthy(userId: Option<int>) {
    userId.Some? && userId.value != 0
  }

  /** The row selected by `WHERE [user_id = ? AND] status = 'pending'`. */
  predicate Owed(userId: Option<int>, x: Row<Fine>) {
    x.value.status == Pending && (Truthy(userId) ==> x.value.userId == userId.value)
  }

  /** What one row adds to `SUM(amount)`. */
  function PendingAmount(userId: Option<int>, x: Row<Fine>): int {
    if Owed(userId, x) then x.value.amount else 0
  }

  function PendingSum(rows: seq<Row<Fine>>, userId: Option<int>): int {
    if rows == [] then 0 else PendingAmount(userId, rows[0]) + PendingSum(rows[1..], userId)
  }

  /**
   * `Fine.get_total_pending`: the pending amounts of the user when `user_id`
   * is truthy, of everybody when it is `None` or 0; `COALESCE` makes it 0
   * when nothing matches.
   */
  function GetTotalPending(fines: Table<Fine>, userId: Option<int>): (r: int)
    requires Store.Valid(fines)
    ensures r == SumAmounts(Filter(Rows(fines), (x: Row<Fine>) => Owed(userId, x)))
    ensures (forall id :: id in fines.rows ==> fines.rows[id].status != Pending) ==> r == 0
    ensures Truthy(userId) && (forall id :: id in fines.rows && fines.rows[id].userId == userId.value ==> fines.rows[id].status != Pending) ==>
              r == 0
    ensures (forall id :: id in fines.rows ==> fines.rows[id].amount >= 0) ==> r >= 0
  {
    PendingTotalFacts(fines, userId);
    PendingSum(Rows(fines), userId)
  }

  lemma PendingTotalFacts(fines: Table<Fine>, userId: Option<int>)
    requires Store.Valid(fines)
    ensures PendingSum(Rows(fines), userId) == SumAmounts(Filter(Rows(fines), (x: Row<Fine>) => Owed(userId, x)))
    ensures (forall id :: id in fines.rows ==> !Owed(userId, Row(id, fines.rows[id]))) ==> PendingSum(Rows(fines), userId) == 0
    ensures (forall id :: id in fines.rows ==> fines.rows[id].amount >= 0) ==> PendingSum(Rows(fines), userId) >= 0
  {
    var rows := Rows(fines);
    PendingSumFacts(rows, userId);
    SumOfOwedFilter(rows, (x: Row<Fine>) => Owed(userId, x), userId);
    if forall id :: id in fines.rows ==> !Owed(userId, Row(id, fines.rows[id])) {
      forall k | 0 <= k < |rows| ensures !Owed(userId, rows[k]) {
        assert rows[k] in rows;
      }
    }
    if forall id :: id in fines.rows ==> fines.rows[id].amount >= 0 {
      forall k | 0 <= k < |rows| ensures rows[k].value.amount >= 0 {
        assert rows[k] in rows;
      }
    }
  }

  lemma {:induction false} PendingSumFacts(rows: seq<Row<Fine>>, userId: Option<int>)
    ensures (forall k :: 0 <= k < |rows| ==> !Owed(userId, rows[k])) ==> PendingSum(rows, userId) == 0
    ensures (forall k :: 0 <= k < |rows| ==> rows[k].value.amount >= 0) ==> PendingSum(rows, userId) >= 0
  {
    if rows != [] {
      PendingSumFacts(rows[1..], userId);
      assert forall k :: 1 <= k < |rows| ==> rows[1..][k - 1] == rows[k];
    }
  }

  lemma {:induction false} RowsFromSum(t: Table<Fine>, id: int, v: Fine, i: int, userId: Option<int>)
    requires id in t.rows
    ensures PendingSum(RowsFrom(t.(rows := t.rows[id := v]), i), userId)
            == PendingSum(RowsFrom(t, i), userId)
               + (if i <= id < t.next then PendingAmount(userId, Row(id, v)) - PendingAmount(userId, Row(id, t.rows[id])) else 0)
    decreases t.next - i
  {
    var t' := t.(rows := t.rows[id := v]);
    if i < t.next {
      RowsFromSum(t, id, v, i + 1, userId);
      var rest, rest' := RowsFrom(t, i + 1), RowsFrom(t', i + 1);
      if i in t.rows {
        var x, x' := Row(i, t.rows[i]), Row(i, t'.rows[i]);
        assert RowsFrom(t, i) == [x] + rest;
        assert RowsFrom(t', i) == [x'] + rest';
        assert ([x] + rest)[1..] == rest;
        assert ([x'] + rest')[1..] == rest';
      } else {
        assert RowsFrom(t, i) == rest;
        assert RowsFrom(t', i) == rest';
      }
    }
  }

  lemma {:induction false} PendingSumAppend(a: seq<Row<Fine>>, b: seq<Row<Fine>>, userId: Option<int>)
    ensures PendingSum(a + b, userId) == PendingSum(a, userId) + PendingSum(b, userId)
  {
    if a == [] {
      assert a + b == b;
    } else {
      assert (a + b)[1..] == a[1..] + b;
      PendingSumAppend(a[1..], b, userId);
    }
  }

  /** Rewriting one fine changes the pending total by what that fine contributed before and after. */
  lemma TotalAfterUpdate(fines: Table<Fine>, id: int, v: Fine, userId: Option<int>)
    requires Store.Valid(fines) && id in fines.rows
    ensures Store.Valid(fines.(rows := fines.rows[id := v]))
    ensures GetTotalPending(fines.(rows := fines.rows[id := v]), userId)
            == GetTotalPending(fines, userId) - PendingAmount(userId, Row(id, fines.rows[id])) + PendingAmount(userId, Row(id, v))
  {
    RowsFromSum(fines, id, v, 1, userId);
  }

  /** The fine rows as the dictionaries `calculate_total_fines` reads. */
  function Entries(rows: seq<Row<Fine>>): (r: seq<FineCalculator.FineEntry>)
    ensures |r| == |rows|
  {
    if rows == [] then []
    else [FineCalculator.FineEntry(Some(rows[0].value.amount), Some(FineStatusText(rows[0].value.status)))] + Entries(rows[1..])
  }

  lemma {:induction false} PendingSumIsCalculatorTotal(rows: seq<Row<Fine>>)
    ensures PendingSum(rows, None) == FineCalculator.CalculateTotalFines(Entries(rows))
  {
    if rows != [] {
      PendingSumIsCalculatorTotal(rows[1..]);
      assert Entries(rows)[1..] == Entries(rows[1..]);
    }
  }

  /**
   * The ledger's total over all users agrees with `calculate_total_fines`
   * applied to the fine rows.
   */
  lemma TotalAgreesWithCalculator(fines: Table<Fine>)
    requires Store.Valid(fines)
    ensures GetTotalPending(fines, None) == FineCalculator.CalculateTotalFines(Entries(Rows(fines)))
    ensures GetTotalPending(fines, Some(0)) == GetTotalPending(fines, None)
  {
    PendingSumIsCalculatorTotal(Rows(fines));
    NoUserIsEveryUser(Rows(fines));
  }

  lemma {:induction false} NoUserIsEveryUser(rows: seq<Row<Fine>>)
    ensures PendingSum(rows, Some(0)) == PendingSum(rows, None)
  {
    if rows != [] {
      NoUserIsEveryUser(rows[1..]);
    }
  }

  // ---------------------------------------------------------------------------
  // Queries
  // ---------------------------------------------------------------------------

  /** `JOIN transactions t ON f.transaction_id = t.transaction_id JOIN books b ON t.book_id = b.book_id`. */
  predicate JoinsLoanAndBook(loans: Table<Loan>, books: Table<Book>, f: Fine) {
    f.transactionId in loans.rows && loans.rows[f.transactionId].bookId in books.rows
  }

  predicate StatusMatches(status: Option<string>, f: Fine) {
    Given(status) ==> FineStatusText(f.status) == status.value
  }

  /** `ORDER BY f.created_at DESC`. */
  predicate NewestFirst(a: Row<Fine>, b: Row<Fine>) {
    a.value.createdAt >= b.value.createdAt
  }

  /** `Fine.get_by_id`: the fine, provided its loan, that loan's book and the user all exist. */
  function GetById(fines: Table<Fine>, loans: Table<Loan>, books: Table<Book>, users: Table<User>, id: int): (r: Option<Row<Fine>>)
    ensures r.Some? <==> id in fines.rows && JoinsLoanAndBook(loans, books, fines.rows[id]) && fines.rows[id].userId in users.rows
    ensures r.Some? ==> r.value == Row(id, fines.rows[id])
  {
    if id in fines.rows && JoinsLoanAndBook(loans, books, fines.rows[id]) && fines.rows[id].userId in users.rows
    then Some(Row(id, fines.rows[id])) else None
  }

  predicate InUserList(loans: Table<Loan>, books: Table<Book>, userId: int, status: Option<string>, x: Row<Fine>) {
    x.value.userId == userId && JoinsLoanAndBook(loans, books, x.value) && StatusMatches(status, x.value)
  }

  /** `Fine.get_by_user`: the user's fines, of the status when one is given, newest first. */
  function GetByUser(fines: Table<Fine>, loans: Table<Loan>, books: Table<Book>, userId: int, status: Option<string>): (r: seq<Row<Fine>>)
    requires Store.Valid(fines)
    ensures SortedBy(r, NewestFirst)
    ensures DistinctIds(r)
    ensures forall x :: x in r <==>
              && x.id in fines.rows && fines.rows[x.id] == x.value && x.value.userId == userId
              && JoinsLoanAndBook(loans, books, x.value) && StatusMatches(status, x.value)
  {
    var p := (x: Row<Fine>) => InUserList(loans, books, userId, status, x);
    QueryDistinct(fines, p, NewestFirst);
    SortBy(Filter(Rows(fines), p), NewestFirst)
  }

  predicate InFullList(loans: Table<Loan>, books: Table<Book>, users: Table<User>, status: Option<string>, x: Row<Fine>) {
    x.value.userId in users.rows && JoinsLoanAndBook(loans, books, x.value) && StatusMatches(status, x.value)
  }

  /** `Fine.get_all`: every fine, of the status when one is given, newest first. */
  function GetAll(fines: Table<Fine>, loans: Table<Loan>, books: Table<Book>, users: Table<User>, status: Option<string>): (r: seq<Row<Fine>>)
    requires Store.Valid(fines)
    ensures SortedBy(r, NewestFirst)
    ensures DistinctIds(r)
    ensures forall x :: x in r <==>
              && x.id in fines.rows && fines.rows[x.id] == x.value && x.value.userId in users.rows
              && JoinsLoanAndBook(loans, books, x.value) && StatusMatches(status, x.value)
  {
    var p := (x: Row<Fine>) => InFullList(loans, books, users, status, x);
    QueryDistinct(fines, p, NewestFirst);
    SortBy(Filter(Rows(fines), p), NewestFirst)
  }

  /** `sum(fine['amount'] for fine in fines)`. */
  function SumAmounts(fines: seq<Row<Fine>>): int {
    if fines == [] then 0 else fines[0].value.amount + SumAmounts(fines[1..])
  }

  lemma {:induction false} SumAmountsAppend(a: seq<Row<Fine>>, b: seq<Row<Fine>>)
    ensures SumAmounts(a + b) == SumAmounts(a) + SumAmounts(b)
  {
    if a == [] {
      assert a + b == b;
    } else {
      SumAmountsAppend(a[1..], b);
      assert (a + b)[1..] == a[1..] + b;
    }
  }

  lemma SumAmountsRemove(b: seq<Row<Fine>>, j: nat)
    requires j < |b|
    ensures SumAmounts(b) == b[j].value.amount + SumAmounts(b[..j] + b[j + 1..])
  {
    var pre, post := b[..j], b[j + 1..];
    var mid := [b[j]] + post;
    assert mid[1..] == post;
    assert b == pre + mid;
    SumAmountsAppend(pre, mid);
    SumAmountsAppend(pre, post);
  }

  /** The sum does not depend on the order of the list: sorting a result list keeps its total. */
  lemma {:induction false} SumAmountsPermutation(a: seq<Row<Fine>>, b: seq<Row<Fine>>)
    requires multiset(a) == multiset(b)
    ensures SumAmounts(a) == SumAmounts(b)
    decreases |a|
  {
    if a == [] {
      assert |b| == |multiset(b)| == 0;
    } else {
      assert a[0] in multiset(b);
      var j :| 0 <= j < |b| && b[j] == a[0];
      var rest := b[..j] + b[j + 1..];
      MultisetTail(a);
      MultisetRemoveAt(b, j);
      SumAmountsPermutation(a[1..], rest);
      SumAmountsRemove(b, j);
    }
  }

  /** Summing the amounts of the rows a filter keeps is the pending total when the filter keeps exactly the owed rows. */
  lemma {:induction false} SumOfOwedFilter(rows: seq<Row<Fine>>, p: Row<Fine> -> bool, userId: Option<int>)
    requires forall k :: 0 <= k < |rows| ==> (p(rows[k]) <==> Owed(userId, rows[k]))
    ensures SumAmounts(Filter(rows, p)) == PendingSum(rows, userId)
  {
    if rows != [] {
      SumOfOwedFilter(rows[1..], p, userId);
      var rest := Filter(rows[1..], p);
      if p(rows[0]) {
        assert ([rows[0]] + rest)[1..] == rest;
      } else {
        assert [] + rest == rest;
      }
    }
  }

  /** The listing of `pending` fines holds pending fines only. */
  lemma PendingListingIsPending(fines: Table<Fine>, loans: Table<Loan>, books: Table<Book>, users: Table<User>)
    requires Store.Valid(fines)
    ensures forall x :: x in GetAll(fines, loans, books, users, Some("pending")) ==> x.value.status == Pending
  {
  }

  /**
   * When every fine's loan, book and user exist, the total of the listing
   * of `pending` fines is the ledger's pending total: the two ways the
   * reports compute outstanding money agree.
   */
  lemma PendingListingMatchesTotal(fines: Table<Fine>, loans: Table<Loan>, books: Table<Book>, users: Table<User>)
    requires Store.Valid(fines)
    requires forall id :: id in fines.rows ==> fines.rows[id].userId in users.rows && JoinsLoanAndBook(loans, books, fines.rows[id])
    ensures SumAmounts(GetAll(fines, loans, books, users, Some("pending"))) == GetTotalPending(fines, None)
  {
    var rows := Rows(fines);
    var p := (x: Row<Fine>) => InFullList(loans, books, users, Some("pending"), x);
    forall k | 0 <= k < |rows| ensures p(rows[k]) <==> Owed(None, rows[k]) {
      assert rows[k] in rows;
    }
    SumOfOwedFilter(rows, p, None);
    SumAmountsPermutation(GetAll(fines, loans, books, users, Some("pending")), Filter(rows, p));
  }
}
