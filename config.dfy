/**
 * The four business settings the circulation rules read from the
 * environment. Money is in integer cents: the defaults are 5.00 per day and
 * a 500.00 cap.
 */
module LibraryConfig {

  datatype Settings = Settings(
    finePerDay: int,        // FINE_PER_DAY, in cents
    maxFineAmount: int,     // MAX_FINE_AMOUNT, in cents
    maxBooksPerUser: int,   // MAX_BOOKS_PER_USER
    defaultIssueDays: int   // DEFAULT_ISSUE_DAYS
  )

  const Defaults := Settings(500, 50000, 5, 14)
}
