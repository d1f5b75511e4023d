/**
 * The four records the backend keeps in SQLite: books, users, transactions
 * (loans) and fines. Dates are ordinals (see `Dates`); money is in integer
 * cents; `created_at` timestamps are integers that grow with time. Nullable
 * columns are `Option`s.
 */
module Schema {
  import opened Common

  datatype Book = Book(
    isbn: string,
    title: string,
    author: string,
    publisher: Option<string>,
    publicationYear: Option<int>,
    category: string,
    totalCopies: int,
    availableCopies: int,
    shelfLocation: Option<string>,
    description: Option<string>,
    coverImage: Option<string>
  )

  datatype User = User(
    username: string,
    email: string,
    passwordHash: string,
    fullName: string,
    role: string,
    phone: Option<string>,
    address: Option<string>,
    isActive: int,          // 1 while the account is active, 0 once soft-deleted
    createdAt: int
  )

  datatype LoanStatus = Issued | Returned | Overdue

  /** The text stored in `transactions.status`. */
  function LoanStatusText(s: LoanStatus): (t: string)
    ensures t == "issued" <==> s == Issued
    ensures t == "returned" <==> s == Returned
    ensures t == "overdue" <==> s == Overdue
  {
    match s
    case Issued => "issued"
    case Returned => "returned"
    case Overdue => "overdue"
  }

  /** A row of the `transactions` table. */
  datatype Loan = Loan(
    bookId: int,
    userId: int,
    librarianId: int,
    issueDate: int,
    dueDate: int,
    returnDate: Option<int>,
    status: LoanStatus
  )

  datatype FineStatus = Pending | Paid | Waived

  /** The text stored in `fines.status`. */
  function FineStatusText(s: FineStatus): (t: string)
    ensures t == "pending" <==> s == Pending
    ensures t == "paid" <==> s == Paid
    ensures t == "waived" <==> s == Waived
  {
    match s
    case Pending => "pending"
    case Paid => "paid"
    case Waived => "waived"
  }

  /** A row of the `fines` table. */
  datatype Fine = Fine(
    transactionId: int,
    userId: int,
    amount: int,
    daysOverdue: int,
    status: FineStatus,
    paidDate: Option<int>,
    paymentMethod: Option<string>,
    createdAt: int
  )
}
