/**
 * The one SQLite database every model method works on, as an object with
 * one table per field. Each model operation is a method that takes the
 * database and names it in its `modifies` clause.
 */
module Db {
  import opened Store
  import opened Schema

  class Database {
    var books: Table<Book>
    var users: Table<User>
    var loans: Table<Loan>
    var fines: Table<Fine>

    predicate Valid()
      reads this
    {
      Store.Valid(books) && Store.Valid(users) && Store.Valid(loans) && Store.Valid(fines)
    }

    /** A fresh database with four empty tables. */
    constructor ()
      ensures Valid()
      ensures books.rows == map[] && users.rows == map[] && loans.rows == map[] && fines.rows == map[]
    {
      books := Empty();
      users := Empty();
      loans := Empty();
      fines := Empty();
    }
  }
}
