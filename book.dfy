/**
 * The catalog of `backend/models/book.py`: create, allow-listed update,
 * delete guarded by open loans, and the read-only queries.
 */
module Books {
  import opened Common
  import opened Store
  import opened Schema
  import opened SqlText
  import opened Db

  /** The optional columns `Book.create` takes from `**kwargs` (absent keys are NULL). */
  datatype BookDetails = BookDetails(
    publisher: Option<string>,
    publicationYear: Option<int>,
    shelfLocation: Option<string>,
    description: Option<string>,
    coverImage: Option<string>
  )

  /**
   * `Book.create`: one new row whose `available_copies` equals its
   * `total_copies`, which is 1 when the caller leaves it out.
   */
  method Create(db: Database, isbn: string, title: string, author: string, category: string,
                totalCopies: Option<int>, details: BookDetails) returns (id: int)
    requires db.Valid()
    modifies db
    ensures db.Valid()
    ensures id == old(db.books.next) && id !in old(db.books.rows)
    ensures var copies := if totalCopies.Some? then totalCopies.value else 1;
      db.books == Insert(old(db.books), Book(isbn, title, author, details.publisher, details.publicationYear, category,
                                             copies, copies, details.shelfLocation, details.description, details.coverImage))
    ensures db.books.rows[id].availableCopies == db.books.rows[id].totalCopies
    ensures db.users == old(db.users) && db.loans == old(db.loans) && db.fines == old(db.fines)
  {
    var copies := if totalCopies.Some? then totalCopies.value else 1;
    var book := Book(isbn, title, author, details.publisher, details.publicationYear, category,
                     copies, copies, details.shelfLocation, details.description, details.coverImage);
    id := db.books.next;
    db.books := Insert(db.books, book);
  }

  /** `Book.get_by_id`. */
  function GetById(books: Table<Book>, id: int): (r: Option<Book>)
    ensures r.Some? <==> id in books.rows
    ensures r.Some? ==> r.value == books.rows[id]
  {
    if id in books.rows then Some(books.rows[id]) else None
  }

  /** `Book.get_by_isbn`: the first row, in id order, with exactly that ISBN. */
  function GetByIsbn(books: Table<Book>, isbn: string): (r: Option<Row<Book>>)
    requires Store.Valid(books)
    ensures r.Some? ==> r.value.id in books.rows && books.rows[r.value.id] == r.value.value && r.value.value.isbn == isbn
    ensures r.None? <==> forall id :: id in books.rows ==> books.rows[id].isbn != isbn
  {
    var rows := Rows(books);
    var r := First(rows, (x: Row<Book>) => x.value.isbn == isbn);
    assert r.None? ==> forall id :: id in books.rows ==> books.rows[id].isbn != isbn by {
      if r.None? {
        forall id | id in books.rows ensures books.rows[id].isbn != isbn {
          var x := Row(id, books.rows[id]);
          assert x in rows;
        }
      }
    }
    r
  }

  /** `Book.is_available`: the book exists and has a copy on the shelf. */
  predicate IsAvailable(books: Table<Book>, id: int): (b: bool)
    ensures b <==> GetById(books, id).Some? && GetById(books, id).value.availableCopies > 0
    ensures id !in books.rows ==> !b
  {
    id in books.rows && books.rows[id].availableCopies > 0
  }

  // ---------------------------------------------------------------------------
  // Listing and search
  // ---------------------------------------------------------------------------

  /** `ORDER BY title`. */
  predicate TitleOrder(a: Row<Book>, b: Row<Book>) {
    StrLe(a.value.title, b.value.title)
  }

  lemma TitleOrderIsTotal()
    ensures TotalPreorder(TitleOrder)
  {
    forall a: Row<Book>, b: Row<Book> ensures TitleOrder(a, b) || TitleOrder(b, a) {
      StrLeTotal(a.value.title, b.value.title);
    }
    forall a: Row<Book>, b: Row<Book>, c: Row<Book> | TitleOrder(a, b) && TitleOrder(b, c) ensures TitleOrder(a, c) {
      StrLeTransitive(a.value.title, b.value.title, c.value.title);
    }
  }

  predicate MatchesListing(category: Option<string>, availableOnly: bool, x: Row<Book>) {
    (Given(category) ==> x.value.category == category.value) && (availableOnly ==> x.value.availableCopies > 0)
  }

  /**
   * `Book.get_all`: the books of the category (when one is given) and with a
   * copy available (when asked), sorted by title.
   */
  function GetAll(books: Table<Book>, category: Option<string>, availableOnly: bool): (r: seq<Row<Book>>)
    requires Store.Valid(books)
    ensures SortedBy(r, TitleOrder)
    ensures DistinctIds(r)
    ensures forall x :: x in r <==>
              && x.id in books.rows && books.rows[x.id] == x.value
              && (Given(category) ==> x.value.category == category.value)
              && (availableOnly ==> x.value.availableCopies > 0)
  {
    TitleOrderIsTotal();
    var p := (x: Row<Book>) => MatchesListing(category, availableOnly, x);
    QueryDistinct(books, p, TitleOrder);
    SortBy(Filter(Rows(books), p), TitleOrder)
  }

  /** Unfiltered, the listing holds every book of the table exactly once. */
  lemma GetAllListsEveryBook(books: Table<Book>)
    requires Store.Valid(books)
    ensures |GetAll(books, None, false)| == |books.rows|
  {
    var r := GetAll(books, None, false);
    forall k | 0 <= k < |r| ensures r[k].id in books.rows.Keys {
      assert r[k] in r;
    }
    forall id | id in books.rows.Keys ensures exists k :: 0 <= k < |r| && r[k].id == id {
      assert Row(id, books.rows[id]) in r;
    }
    ListingSize(r, books.rows.Keys);
  }

  /** `f"%{keyword}%"`. */
  function SearchPattern(keyword: string): string {
    "%" + keyword + "%"
  }

  predicate MatchesSearch(keyword: string, x: Row<Book>) {
    var p := SearchPattern(keyword);
    Like(x.value.title, p) || Like(x.value.author, p) || Like(x.value.isbn, p)
  }

  /** `Book.search`: the books whose title, author or ISBN is `LIKE '%keyword%'`, sorted by title. */
  function Search(books: Table<Book>, keyword: string): (r: seq<Row<Book>>)
    requires Store.Valid(books)
    ensures SortedBy(r, TitleOrder)
    ensures DistinctIds(r)
    ensures forall x :: x in r <==> x.id in books.rows && books.rows[x.id] == x.value && MatchesSearch(keyword, x)
  {
    TitleOrderIsTotal();
    var p := (x: Row<Book>) => MatchesSearch(keyword, x);
    QueryDistinct(books, p, TitleOrder);
    SortBy(Filter(Rows(books), p), TitleOrder)
  }

  /**
   * For a keyword without `%` or `_`, search finds exactly the books whose
   * title, author or ISBN contains the keyword, ignoring ASCII case.
   */
  lemma SearchIsSubstringMatch(books: Table<Book>, keyword: string, x: Row<Book>)
    requires Store.Valid(books)
    requires forall i :: 0 <= i < |keyword| ==> !IsWildcard(keyword[i])
    ensures x in Search(books, keyword) <==>
              x.id in books.rows && books.rows[x.id] == x.value &&
              (Contains(Fold(x.value.title), Fold(keyword)) || Contains(Fold(x.value.author), Fold(keyword))
               || Contains(Fold(x.value.isbn), Fold(keyword)))
  {
    LikeContains(x.value.title, keyword);
    LikeContains(x.value.author, keyword);
    LikeContains(x.value.isbn, keyword);
  }

  /** No value occurs twice. */
  predicate Distinct(s: seq<string>) {
    forall i, j :: 0 <= i < j < |s| ==> s[i] != s[j]
  }

  /** Each value once, at the place of its last occurrence. */
  function Dedup(s: seq<string>): (r: seq<string>)
    ensures forall x :: x in r <==> x in s
    ensures forall x :: multiset(r)[x] <= 1
  {
    if s == [] then []
    else
      var rest := Dedup(s[1..]);
      if s[0] in rest then rest else [s[0]] + rest
  }

  /** A value at two positions occurs at least twice. */
  lemma RepeatCounts(s: seq<string>, i: nat, j: nat)
    requires i < j < |s| && s[i] == s[j]
    ensures multiset(s)[s[j]] >= 2
  {
    assert s == s[..j] + [s[j]] + s[j + 1..];
    assert s[i] in s[..j];
  }

  lemma SingleCountsDistinct(s: seq<string>)
    requires forall x :: multiset(s)[x] <= 1
    ensures Distinct(s)
  {
    forall i, j | 0 <= i < j < |s| ensures s[i] != s[j] {
      if s[i] == s[j] {
        RepeatCounts(s, i, j);
      }
    }
  }

  predicate CategoryOrder(a: string, b: string) {
    StrLe(a, b)
  }

  function Categories(rows: seq<Row<Book>>): (r: seq<string>)
    ensures forall c :: c in r <==> exists k :: 0 <= k < |rows| && rows[k].value.category == c
  {
    if rows == [] then []
    else
      var r := [rows[0].value.category] + Categories(rows[1..]);
      assert forall c :: c in r <==> exists k :: 0 <= k < |rows| && rows[k].value.category == c by {
        forall c ensures c in r <==> exists k :: 0 <= k < |rows| && rows[k].value.category == c {
          if c in Categories(rows[1..]) {
            var k :| 0 <= k < |rows[1..]| && rows[1..][k].value.category == c;
            assert rows[k + 1].value.category == c;
          }
          if exists k :: 0 <= k < |rows| && rows[k].value.category == c {
            var k :| 0 <= k < |rows| && rows[k].value.category == c;
            if k > 0 {
              assert rows[1..][k - 1].value.category == c;
            }
          }
        }
      }
      r
  }

  lemma CategoryOrderIsTotal()
    ensures TotalPreorder(CategoryOrder)
  {
    forall a, b ensures CategoryOrder(a, b) || CategoryOrder(b, a) {
      StrLeTotal(a, b);
    }
    forall a, b, c | CategoryOrder(a, b) && CategoryOrder(b, c) ensures CategoryOrder(a, c) {
      StrLeTransitive(a, b, c);
    }
  }

  /** The categories of the stored rows are the categories of the stored books. */
  lemma CategoriesOfTable(books: Table<Book>)
    requires Store.Valid(books)
    ensures forall c :: c in Categories(Rows(books)) <==> exists id :: id in books.rows && books.rows[id].category == c
  {
    var rows := Rows(books);
    forall c ensures c in Categories(rows) <==> exists id :: id in books.rows && books.rows[id].category == c {
      if c in Categories(rows) {
        var k :| 0 <= k < |rows| && rows[k].value.category == c;
        assert rows[k] in rows;
      }
      if exists id :: id in books.rows && books.rows[id].category == c {
        var id :| id in books.rows && books.rows[id].category == c;
        var x := Row(id, books.rows[id]);
        assert x in rows;
        var k :| 0 <= k < |rows| && rows[k] == x;
      }
    }
  }

  /** `Book.get_categories`: each category some book has, once, in ascending order. */
  function GetCategories(books: Table<Book>): (r: seq<string>)
    requires Store.Valid(books)
    ensures forall i, j :: 0 <= i < j < |r| ==> StrLe(r[i], r[j]) && r[i] != r[j]
    ensures forall c :: c in r <==> exists id :: id in books.rows && books.rows[id].category == c
  {
    var cats := Dedup(Categories(Rows(books)));
    CategoryOrderIsTotal();
    CategoriesOfTable(books);
    var r := SortBy(cats, CategoryOrder);
    SingleCountsDistinct(r);
    r
  }

  // ---------------------------------------------------------------------------
  // update
  // ---------------------------------------------------------------------------

  /**
   * The keyword arguments a caller passes to `Book.update`; `None` means the
   * key is absent. `isbn` and `availableCopies` may be passed but are not in
   * the allow-list.
   */
  datatype BookPatch = BookPatch(
    title: Option<string>,
    author: Option<string>,
    publisher: Option<Option<string>>,
    publicationYear: Option<Option<int>>,
    category: Option<string>,
    totalCopies: Option<int>,
    shelfLocation: Option<Option<string>>,
    description: Option<Option<string>>,
    coverImage: Option<Option<string>>,
    isbn: Option<string>,
    availableCopies: Option<int>
  )

  /** The columns `Book.update` may write. */
  datatype BookField = Title | Author | Publisher | PublicationYear | Category | TotalCopies
                     | ShelfLocation | Description | CoverImage

  const AllowedBookFields: seq<BookField> :=
    [Title, Author, Publisher, PublicationYear, Category, TotalCopies, ShelfLocation, Description, CoverImage]

  /** `field in kwargs`. */
  predicate Supplied(p: BookPatch, f: BookField) {
    match f
    case Title => p.title.Some?
    case Author => p.author.Some?
    case Publisher => p.publisher.Some?
    case PublicationYear => p.publicationYear.Some?
    case Category => p.category.Some?
    case TotalCopies => p.totalCopies.Some?
    case ShelfLocation => p.shelfLocation.Some?
    case Description => p.description.Some?
    case CoverImage => p.coverImage.Some?
  }

  /** One `field = ?` assignment of the generated `UPDATE`. */
  function SetField(b: Book, p: BookPatch, f: BookField): Book
    requires Supplied(p, f)
  {
    match f
    case Title => b.(title := p.title.value)
    case Author => b.(author := p.author.value)
    case Publisher => b.(publisher := p.publisher.value)
    case PublicationYear => b.(publicationYear := p.publicationYear.value)
    case Category => b.(category := p.category.value)
    case TotalCopies => b.(totalCopies := p.totalCopies.value)
    case ShelfLocation => b.(shelfLocation := p.shelfLocation.value)
    case Description => b.(description := p.description.value)
    case CoverImage => b.(coverImage := p.coverImage.value)
  }

  /** The position of a field in the allow-list, which is the order the `UPDATE` lists them in. */
  function Position(f: BookField): (n: nat)
    ensures n < |AllowedBookFields| && AllowedBookFields[n] == f
  {
    match f
    case Title => 0
    case Author => 1
    case Publisher => 2
    case PublicationYear => 3
    case Category => 4
    case TotalCopies => 5
    case ShelfLocation => 6
    case Description => 7
    case CoverImage => 8
  }

  /** The row after the assignments for the supplied fields among the first `n` of the allow-list. */
  function PatchUpTo(b: Book, p: BookPatch, n: nat): Book {
    b.(title := if p.title.Some? && Position(Title) < n then p.title.value else b.title,
       author := if p.author.Some? && Position(Author) < n then p.author.value else b.author,
       publisher := if p.publisher.Some? && Position(Publisher) < n then p.publisher.value else b.publisher,
       publicationYear := if p.publicationYear.Some? && Position(PublicationYear) < n then p.publicationYear.value else b.publicationYear,
       category := if p.category.Some? && Position(Category) < n then p.category.value else b.category,
       totalCopies := if p.totalCopies.Some? && Position(TotalCopies) < n then p.totalCopies.value else b.totalCopies,
       shelfLocation := if p.shelfLocation.Some? && Position(ShelfLocation) < n then p.shelfLocation.value else b.shelfLocation,
       description := if p.description.Some? && Position(Description) < n then p.description.value else b.description,
       coverImage := if p.coverImage.Some? && Position(CoverImage) < n then p.coverImage.value else b.coverImage)
  }

  /**
   * The row `Book.update` writes: every allow-listed column the caller
   * supplied takes the supplied value and every other column keeps its value;
   * in particular the ISBN and the available copies never change.
   */
  function ApplyPatch(b: Book, p: BookPatch): (r: Book)
    ensures r.isbn == b.isbn && r.availableCopies == b.availableCopies
    ensures !AnySupplied(p) ==> r == b
    ensures r.title == if p.title.Some? then p.title.value else b.title
    ensures r.author == if p.author.Some? then p.author.value else b.author
    ensures r.publisher == if p.publisher.Some? then p.publisher.value else b.publisher
    ensures r.publicationYear == if p.publicationYear.Some? then p.publicationYear.value else b.publicationYear
    ensures r.category == if p.category.Some? then p.category.value else b.category
    ensures r.totalCopies == if p.totalCopies.Some? then p.totalCopies.value else b.totalCopies
    ensures r.shelfLocation == if p.shelfLocation.Some? then p.shelfLocation.value else b.shelfLocation
    ensures r.description == if p.description.Some? then p.description.value else b.description
    ensures r.coverImage == if p.coverImage.Some? then p.coverImage.value else b.coverImage
  {
    assert !AnySupplied(p) ==>
      (&& !Supplied(p, Title) && !Supplied(p, Author) && !Supplied(p, Publisher)
       && !Supplied(p, PublicationYear) && !Supplied(p, Category) && !Supplied(p, TotalCopies)
       && !Supplied(p, ShelfLocation) && !Supplied(p, Description) && !Supplied(p, CoverImage));
    PatchUpTo(b, p, |AllowedBookFields|)
  }

  predicate AnySupplied(p: BookPatch) {
    exists f :: f in AllowedBookFields && Supplied(p, f)
  }

  /** `AnySupplied` as the loop over the allow-list sees it, position by position. */
  lemma AnySuppliedByPosition(p: BookPatch)
    ensures AnySupplied(p) <==> exists k :: 0 <= k < |AllowedBookFields| && Supplied(p, AllowedBookFields[k])
  {
    if AnySupplied(p) {
      var f :| f in AllowedBookFields && Supplied(p, f);
      assert AllowedBookFields[Position(f)] == f;
    }
  }

  /** One turn of the allow-list loop adds that field's assignment, if supplied. */
  lemma PatchStep(b: Book, p: BookPatch, i: nat)
    requires i < |AllowedBookFields|
    ensures Supplied(p, AllowedBookFields[i]) ==> PatchUpTo(b, p, i + 1) == SetField(PatchUpTo(b, p, i), p, AllowedBookFields[i])
    ensures !Supplied(p, AllowedBookFields[i]) ==> PatchUpTo(b, p, i + 1) == PatchUpTo(b, p, i)
  {
    assert Position(AllowedBookFields[i]) == i;
  }

  /**
   * `Book.update`: walks the allow-list collecting the supplied fields;
   * none gives `false` and no write; otherwise the row (if it exists) is
   * rewritten and the answer is `true`. Nothing else changes.
   */
  method Update(db: Database, bookId: int, patch: BookPatch) returns (ok: bool)
    requires db.Valid()
    modifies db
    ensures db.Valid()
    ensures ok <==> AnySupplied(patch)
    ensures ok && bookId in old(db.books.rows) ==>
              db.books == old(db.books).(rows := old(db.books.rows)[bookId := ApplyPatch(old(db.books.rows)[bookId], patch)])
    ensures !ok || bookId !in old(db.books.rows) ==> db.books == old(db.books)
    ensures db.users == old(db.users) && db.loans == old(db.loans) && db.fines == old(db.fines)
  {
    var updates := 0;
    var current := if bookId in db.books.rows then db.books.rows[bookId] else Book("", "", "", None, None, "", 0, 0, None, None, None);
    ghost var original := current;
    var i := 0;
    while i < |AllowedBookFields|
      invariant 0 <= i <= |AllowedBookFields|
      invariant current == PatchUpTo(original, patch, i)
      invariant unchanged(db)
      invariant updates > 0 <==> exists k :: 0 <= k < i && Supplied(patch, AllowedBookFields[k])
    {
      var field := AllowedBookFields[i];
      PatchStep(original, patch, i);
      if Supplied(patch, field) {
        current := SetField(current, patch, field);
        updates := updates + 1;
        assert Supplied(patch, AllowedBookFields[i]);
      } else {
        assert forall k :: 0 <= k <= i && Supplied(patch, AllowedBookFields[k]) ==> k < i;
      }
      i := i + 1;
    }
    AnySuppliedByPosition(patch);
    if updates == 0 {
      return false;
    }
    if bookId in db.books.rows {
      db.books := db.books.(rows := db.books.rows[bookId := current]);
    }
    return true;
  }

  // ---------------------------------------------------------------------------
  // delete
  // ---------------------------------------------------------------------------

  /** `SELECT COUNT(*) FROM transactions WHERE book_id = ? AND status = 'issued'`. */
  function IssuedCopies(loans: Table<Loan>, bookId: int): (n: nat)
    requires Store.Valid(loans)
    ensures n == 0 <==> forall id :: id in loans.rows ==> !(loans.rows[id].bookId == bookId && loans.rows[id].status == Issued)
  {
    var rows := Rows(loans);
    var open := Filter(rows, (x: Row<Loan>) => x.value.bookId == bookId && x.value.status == Issued);
    assert open == [] ==> forall id :: id in loans.rows ==> !(loans.rows[id].bookId == bookId && loans.rows[id].status == Issued) by {
      if open == [] {
        forall id | id in loans.rows ensures !(loans.rows[id].bookId == bookId && loans.rows[id].status == Issued) {
          assert Row(id, loans.rows[id]) in rows;
        }
      }
    }
    assert open != [] ==> open[0] in open;
    |open|
  }

  /**
   * `Book.delete`: refused while any loan of the book has status `issued`
   * (an `overdue` loan does not block it); otherwise the row is removed, if
   * present, and the answer is success.
   */
  method Delete(db: Database, bookId: int) returns (ok: bool, message: string)
    requires db.Valid()
    modifies db
    ensures db.Valid()
    ensures ok <==> IssuedCopies(old(db.loans), bookId) == 0
    ensures !ok ==> message == "Cannot delete book that is currently issued" && db.books == old(db.books)
    ensures ok ==> message == "Book deleted successfully" && db.books == old(db.books).(rows := old(db.books.rows) - {bookId})
    ensures db.users == old(db.users) && db.loans == old(db.loans) && db.fines == old(db.fines)
  {
    if IssuedCopies(db.loans, bookId) > 0 {
      return false, "Cannot delete book that is currently issued";
    }
    db.books := db.books.(rows := db.books.rows - {bookId});
    return true, "Book deleted successfully";
  }
}
