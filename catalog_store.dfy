/** The catalogue's three tables (Book, Category, BookCategory) as one
    mutable store object, standing in for the shared database client that
    every handler talks to. Each table is a field the handlers reassign. */
module CatalogStore {
  import opened JsValues

  /** A row of the Book table, with the columns the handlers look at. */
  datatype Book = Book(
    isbn: Option<string>,
    title: string,
    price: Option<string>,
    borrowedBy: Option<string>,
    addedAt: int,
    sortOrder: int)

  /** A row of the Category table. */
  datatype Category = Category(name: string, description: Option<string>)

  /** A row of the BookCategory table: (bookId, categoryId). */
  type Link = (int, int)

  /** What a handler answers: a value, or an HTTP error status and message. */
  datatype Response<T> = Ok(value: T) | Fail(status: int, message: string)
  {
    /** The same error, as an answer of another type. */
    function PropagateFail<U>(): Response<U>
      requires Fail?
    {
      Fail(status, message)
    }
  }

  /** A column in a create or update body: left out, or given a value. */
  datatype Field<T> = Absent | Given(value: T)

  /** The body of a book create or update: the columns it supplies. */
  datatype BookBody = BookBody(
    isbn: Field<Option<string>>,
    title: Field<string>,
    price: Field<Option<string>>,
    borrowedBy: Field<Option<string>>,
    addedAt: Field<int>,
    sortOrder: Field<int>)

  function Pick<T>(f: Field<T>, current: T): T {
    match f
    case Absent => current
    case Given(v) => v
  }

  /** The row after an update: supplied columns take the new value, the
      others keep theirs. */
  function Patched(b: Book, body: BookBody): (r: Book)
    ensures body.isbn.Absent? ==> r.isbn == b.isbn
    ensures body.title.Absent? ==> r.title == b.title
    ensures body.price.Absent? ==> r.price == b.price
    ensures body.borrowedBy.Absent? ==> r.borrowedBy == b.borrowedBy
    ensures body.addedAt.Absent? ==> r.addedAt == b.addedAt
    ensures body.sortOrder.Absent? ==> r.sortOrder == b.sortOrder
    ensures body.isbn.Given? ==> r.isbn == body.isbn.value
    ensures body.title.Given? ==> r.title == body.title.value
    ensures body.price.Given? ==> r.price == body.price.value
    ensures body.borrowedBy.Given? ==> r.borrowedBy == body.borrowedBy.value
    ensures body.addedAt.Given? ==> r.addedAt == body.addedAt.value
    ensures body.sortOrder.Given? ==> r.sortOrder == body.sortOrder.value
  {
    Book(Pick(body.isbn, b.isbn), Pick(body.title, b.title), Pick(body.price, b.price),
         Pick(body.borrowedBy, b.borrowedBy), Pick(body.addedAt, b.addedAt),
         Pick(body.sortOrder, b.sortOrder))
  }

  /** An id handed straight to the database client, which accepts only an
      integral number and rejects anything else with a validation error. */
  function ClientId(v: Value): (r: Option<int>)
    ensures r.Some? <==> v.Number? && v.n.Real? && v.n.r.Floor as real == v.n.r
    ensures r.Some? ==> r.value as real == v.n.r
  {
    if v.Number? && v.n.Real? && v.n.r.Floor as real == v.n.r then Some(v.n.r.Floor) else None
  }

  /** ISBN is a unique key: no two rows share a non-null isbn. */
  ghost predicate IsbnUnique(books: map<int, Book>) {
    forall i, j :: i in books && j in books && i != j && books[i].isbn.Some? ==> books[i].isbn != books[j].isbn
  }

  /** Category names are pairwise distinct. */
  ghost predicate NamesDistinct(categories: map<int, Category>) {
    forall i, j :: i in categories && j in categories && i != j ==> categories[i].name != categories[j].name
  }

  /** Every link references an existing book and an existing category. */
  ghost predicate LinksClosed(links: set<Link>, books: map<int, Book>, categories: map<int, Category>) {
    forall l :: l in links ==> l.0 in books && l.1 in categories
  }

  /** Every link references an existing book (the half of `LinksClosed`
      the counts rely on). */
  ghost predicate LinksToBooks(links: set<Link>, books: map<int, Book>) {
    forall l :: l in links ==> l.0 in books
  }

  /** Whether some row (other than `except`, when given) already holds
      `isbn`. */
  predicate IsbnTaken(books: map<int, Book>, isbn: Option<string>, except: Option<int>) {
    isbn.Some? && exists i :: i in books && Some(i) != except && books[i].isbn == isbn
  }

  /** Whether some category (other than `except`, when given) is called
      `name`. */
  predicate NameTaken(categories: map<int, Category>, name: string, except: Option<int>) {
    exists i :: i in categories && Some(i) != except && categories[i].name == name
  }

  /** The ids of the books linked to `categoryId`. */
  function BooksIn(links: set<Link>, books: map<int, Book>, categoryId: int): (ids: set<int>)
    ensures forall b :: b in ids <==> b in books && (b, categoryId) in links
  {
    set b | b in books && (b, categoryId) in links
  }

  /** The number of links that point at `categoryId` (Prisma's `_count`). */
  function LinkCount(links: set<Link>, categoryId: int): (n: nat)
    ensures n == |set l | l in links && l.1 == categoryId|
  {
    |set l | l in links && l.1 == categoryId|
  }

  lemma NonEmptyHasLink(s: set<Link>)
    requires s != {}
    ensures exists l :: l in s
  {
    if forall l :: l in s ==> false {
      assert false;
    }
  }

  /** Links into one category are as many as the books they name. */
  lemma {:induction false} LinksCountBooks(ls: set<Link>, c: int)
    requires forall l :: l in ls ==> l.1 == c
    ensures |ls| == |set l | l in ls :: l.0|
    decreases |ls|
  {
    if ls != {} {
      NonEmptyHasLink(ls);
      var l :| l in ls;
      var rest := ls - {l};
      LinksCountBooks(rest, c);
      assert (set m | m in ls :: m.0) == (set m | m in rest :: m.0) + {l.0};
      assert l.0 !in (set m | m in rest :: m.0);
    }
  }

  /** When every link names an existing book, the links into a category
      are as many as the books they reach. */
  lemma LinkCountIsBooksIn(links: set<Link>, books: map<int, Book>, c: int)
    requires LinksToBooks(links, books)
    ensures LinkCount(links, c) == |BooksIn(links, books, c)|
  {
    var ls := set l | l in links && l.1 == c;
    LinksCountBooks(ls, c);
    assert (set l | l in ls :: l.0) == BooksIn(links, books, c);
  }

  class Store {
    var books: map<int, Book>
    var categories: map<int, Category>
    var links: set<Link>
    /** The next value of each autoincrement id. */
    var nextBookId: int
    var nextCategoryId: int

    /** The store's constraints: unique isbn, unique category name, links
        closed under the foreign keys, and ids below their counters, which
        start at 1. */
    ghost predicate Valid()
      reads this
    {
      && IsbnUnique(books)
      && NamesDistinct(categories)
      && LinksClosed(links, books, categories)
      && (forall id :: id in books ==> id < nextBookId)
      && (forall id :: id in categories ==> id < nextCategoryId)
      && nextBookId >= 1 && nextCategoryId >= 1
    }

    constructor ()
      ensures Valid()
      ensures books == map[] && categories == map[] && links == {}
      ensures nextBookId == 1 && nextCategoryId == 1
    {
      books, categories, links := map[], map[], {};
      nextBookId, nextCategoryId := 1, 1;
    }

    /** The update of one book's `sortOrder`: that column of that row and
        nothing else. */
    method SetSortOrder(id: int, n: int)
      requires Valid() && id in books
      modifies this
      ensures Valid()
      ensures books == old(books)[id := old(books)[id].(sortOrder := n)]
      ensures categories == old(categories) && links == old(links)
      ensures nextBookId == old(nextBookId) && nextCategoryId == old(nextCategoryId)
    {
      books := books[id := books[id].(sortOrder := n)];
    }
  }
}
