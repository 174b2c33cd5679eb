/** The book handler (server/api/books.ts): GET finds a book by isbn or
    lists every book newest first, POST creates a book, PUT updates and
    DELETE removes the book whose id is the last segment of the request
    path. Every store failure of POST, PUT and DELETE answers 400. */
module BooksApi {
  import opened JsValues
  import opened Ordering
  import opened CatalogStore

  /** What a GET answers: the book with the queried isbn (or null), or the
      whole table in order. */
  datatype BooksAnswer = One(found: Option<(int, Book)>) | All(rows: seq<(int, Book)>)

  /** The book that holds `isbn`: as isbn is a unique key there is at most
      one. */
  function FindByIsbn(books: map<int, Book>, isbn: string): (r: Option<(int, Book)>)
    requires IsbnUnique(books)
    ensures r.None? <==> forall id :: id in books ==> books[id].isbn != Some(isbn)
    ensures r.Some? ==> r.value.0 in books && books[r.value.0] == r.value.1 && r.value.1.isbn == Some(isbn)
    ensures r.Some? ==> forall id :: id in books && books[id].isbn == Some(isbn) ==> id == r.value.0
  {
    if exists id :: id in books && books[id].isbn == Some(isbn) then
      var id :| id in books && books[id].isbn == Some(isbn);
      Some((id, books[id]))
    else None
  }

  /** The order of the listing: later `addedAt` first. */
  function NewestFirst(books: map<int, Book>): (int, int) -> bool {
    (a: int, b: int) => a in books && b in books && books[a].addedAt >= books[b].addedAt
  }

  lemma NewestFirstTotal(books: map<int, Book>)
    ensures TotalPreorderOn(books.Keys, NewestFirst(books))
  {
  }

  /** GET without an isbn: every book exactly once, `addedAt` never
      increasing along the list. */
  method ListBooks(store: Store) returns (rows: seq<(int, Book)>)
    ensures |rows| == |store.books|
    ensures forall id :: id in store.books <==> exists i :: 0 <= i < |rows| && rows[i].0 == id
    ensures forall i :: 0 <= i < |rows| ==> rows[i].0 in store.books && store.books[rows[i].0] == rows[i].1
    ensures forall i, j :: 0 <= i < j < |rows| ==> rows[i].0 != rows[j].0 && rows[i].1.addedAt >= rows[j].1.addedAt
  {
    var books := store.books;
    NewestFirstTotal(books);
    var ids := SortKeys(books.Keys, NewestFirst(books));
    assert forall k :: k in ids ==> k in books;
    assert forall i :: 0 <= i < |ids| ==> ids[i] in ids;
    rows := Rows(books, ids);
    ListingProperties(books, ids);
  }

  /** The rows of `ids`, in that order. */
  function Rows(books: map<int, Book>, ids: seq<int>): (rows: seq<(int, Book)>)
    requires forall i :: 0 <= i < |ids| ==> ids[i] in books
    ensures |rows| == |ids|
    ensures forall i :: 0 <= i < |ids| ==> rows[i] == (ids[i], books[ids[i]])
  {
    seq(|ids|, i requires 0 <= i < |ids| && ids[i] in books => (ids[i], books[ids[i]]))
  }

  /** The rows of every book sorted newest first: each book once, with
      its columns, `addedAt` never increasing. */
  lemma ListingProperties(books: map<int, Book>, ids: seq<int>)
    requires Distinct(ids) && SortedBy(ids, NewestFirst(books))
    requires forall k :: k in ids <==> k in books
    requires forall i :: 0 <= i < |ids| ==> ids[i] in books
    requires |ids| == |books|
    ensures var rows := Rows(books, ids);
      && |rows| == |books|
      && (forall id :: id in books <==> exists i :: 0 <= i < |rows| && rows[i].0 == id)
      && (forall i :: 0 <= i < |rows| ==> rows[i].0 in books && books[rows[i].0] == rows[i].1)
      && (forall i, j :: 0 <= i < j < |rows| ==> rows[i].0 != rows[j].0 && rows[i].1.addedAt >= rows[j].1.addedAt)
  {
    var rows := Rows(books, ids);
    forall id | id in books
      ensures exists i :: 0 <= i < |rows| && rows[i].0 == id
    {
      var i :| 0 <= i < |ids| && ids[i] == id;
      assert rows[i].0 == id;
    }
    forall i, j | 0 <= i < j < |rows|
      ensures rows[i].0 != rows[j].0 && rows[i].1.addedAt >= rows[j].1.addedAt
    {
      assert NewestFirst(books)(ids[i], ids[j]);
    }
  }

  /** GET: a truthy `isbn` query looks that book up, anything else lists
      the table. */
  method Get(store: Store, isbn: Option<string>) returns (r: BooksAnswer)
    requires store.Valid()
    ensures isbn.Some? && isbn.value != "" <==> r.One?
    ensures r.One? ==> r.found == FindByIsbn(store.books, isbn.value)
    ensures r.All? ==>
      && |r.rows| == |store.books|
      && (forall i :: 0 <= i < |r.rows| ==> r.rows[i].0 in store.books && store.books[r.rows[i].0] == r.rows[i].1)
      && (forall i, j :: 0 <= i < j < |r.rows| ==> r.rows[i].0 != r.rows[j].0 && r.rows[i].1.addedAt >= r.rows[j].1.addedAt)
  {
    if isbn.Some? && isbn.value != "" {
      r := One(FindByIsbn(store.books, isbn.value));
    } else {
      var rows := ListBooks(store);
      r := All(rows);
    }
  }

  /** The row `create` stores for a body: the supplied columns, and the
      column defaults (null, `sortOrder` 0, `addedAt` the time of the
      insert) for the others. */
  function NewBook(body: BookBody, now: int): (b: Book)
    requires body.title.Given?
    ensures b == Patched(Book(None, body.title.value, None, None, now, 0), body)
  {
    Patched(Book(None, body.title.value, None, None, now, 0), body)
  }

  /** POST: insert the body as a new row. The store refuses a body without
      a title or with an isbn another row holds, and the handler answers
      400 for either. */
  method Create(store: Store, body: BookBody, now: int) returns (r: Response<(int, Book)>)
    requires store.Valid()
    modifies store
    ensures store.Valid()
    ensures store.categories == old(store.categories) && store.links == old(store.links)
    ensures store.nextCategoryId == old(store.nextCategoryId)
    ensures body.title.Absent? || (body.isbn.Given? && IsbnTaken(old(store.books), body.isbn.value, None))
      <==> r == Fail(400, "创建书籍失败")
    ensures r.Ok? <==>
      !(body.title.Absent? || (body.isbn.Given? && IsbnTaken(old(store.books), body.isbn.value, None)))
    ensures r.Ok? ==>
      var id := old(store.nextBookId);
      && id !in old(store.books)
      && r.value == (id, NewBook(body, now))
      && store.books == old(store.books)[id := r.value.1]
      && store.nextBookId == id + 1
    ensures r.Fail? ==> store.books == old(store.books) && store.nextBookId == old(store.nextBookId)
  {
    if body.title.Absent? || (body.isbn.Given? && IsbnTaken(store.books, body.isbn.value, None)) {
      return Fail(400, "创建书籍失败");
    }
    var id := store.nextBookId;
    var book := NewBook(body, now);
    store.books := store.books[id := book];
    store.nextBookId := id + 1;
    r := Ok((id, book));
  }

  /** `pathname.split('/').pop()`: the text after the last '/', or the
      whole path when it has none. */
  function LastSegment(path: string): (s: string)
    ensures |s| <= |path|
  {
    if path == [] || path[|path| - 1] == '/' then []
    else LastSegment(path[..|path| - 1]) + [path[|path| - 1]]
  }

  /** The last segment is a suffix of the path without a '/', preceded by
      a '/' unless it is the whole path. */
  lemma {:induction false} LastSegmentShape(path: string)
    ensures var s := LastSegment(path);
      && s == path[|path| - |s|..]
      && (forall i :: 0 <= i < |s| ==> s[i] != '/')
      && (|s| < |path| ==> path[|path| - |s| - 1] == '/')
  {
    if path != [] && path[|path| - 1] != '/' {
      var init := path[..|path| - 1];
      LastSegmentShape(init);
      var t := LastSegment(init);
      assert path[|path| - |t| - 1..] == init[|init| - |t|..] + [path[|path| - 1]];
    }
  }

  /** The id the handler reads from a path: `Number` of its last segment. */
  function PathId(path: string): (r: Num)
    ensures path == [] || path[|path| - 1] == '/' ==> r == Real(0.0)
  {
    StringToNumber(LastSegment(path))
  }

  /** The row an update or delete addresses, when the store accepts the id
      and has it. */
  function Target(books: map<int, Book>, id: real): (r: Option<int>)
    ensures r.Some? <==> id.Floor as real == id && id.Floor in books
    ensures r.Some? ==> r.value as real == id
  {
    if id.Floor as real == id && id.Floor in books then Some(id.Floor) else None
  }

  /** PUT: a NaN id is 400 before the store is touched; an id the store
      does not accept or does not have, or an isbn another row holds, is
      the 400 of the failed update; otherwise only the supplied columns of
      that row change. */
  method Update(store: Store, path: string, body: BookBody) returns (r: Response<(int, Book)>)
    requires store.Valid()
    modifies store
    ensures store.Valid()
    ensures store.categories == old(store.categories) && store.links == old(store.links)
    ensures store.nextBookId == old(store.nextBookId) && store.nextCategoryId == old(store.nextCategoryId)
    ensures PathId(path).NaN? ==> r == Fail(400, "无效的书籍ID")
    ensures PathId(path).Real? ==>
      var t := Target(old(store.books), PathId(path).r);
      && (t.None? ==> r == Fail(400, "更新书籍失败"))
      && (t.Some? ==>
            && (body.isbn.Given? && IsbnTaken(old(store.books), body.isbn.value, t) <==> r == Fail(400, "更新书籍失败"))
            && (r.Ok? <==> !(body.isbn.Given? && IsbnTaken(old(store.books), body.isbn.value, t)))
            && (r.Ok? ==>
                  && r.value == (t.value, Patched(old(store.books)[t.value], body))
                  && store.books == old(store.books)[t.value := r.value.1]))
    ensures r.Fail? ==> store.books == old(store.books)
  {
    var n := PathId(path);
    if n.NaN? {
      return Fail(400, "无效的书籍ID");
    }
    var t := Target(store.books, n.r);
    if t.None? || (body.isbn.Given? && IsbnTaken(store.books, body.isbn.value, t)) {
      return Fail(400, "更新书籍失败");
    }
    var id := t.value;
    var book := Patched(store.books[id], body);
    store.books := store.books[id := book];
    r := Ok((id, book));
  }

  /** DELETE: a NaN id is 400 before the store is touched; an id the store
      does not accept or does not have is the 400 of the failed delete;
      otherwise exactly that row goes, with its links. */
  method Delete(store: Store, path: string) returns (r: Response<string>)
    requires store.Valid()
    modifies store
    ensures store.Valid()
    ensures store.categories == old(store.categories)
    ensures store.nextBookId == old(store.nextBookId) && store.nextCategoryId == old(store.nextCategoryId)
    ensures PathId(path).NaN? ==> r == Fail(400, "无效的书籍ID")
    ensures PathId(path).Real? ==>
      var t := Target(old(store.books), PathId(path).r);
      && (t.None? <==> r == Fail(400, "删除书籍失败"))
      && (t.Some? ==>
            && r == Ok("删除成功")
            && store.books == old(store.books) - {t.value}
            && store.links == set l | l in old(store.links) && l.0 != t.value)
    ensures r.Fail? ==> store.books == old(store.books) && store.links == old(store.links)
  {
    var n := PathId(path);
    if n.NaN? {
      return Fail(400, "无效的书籍ID");
    }
    var t := Target(store.books, n.r);
    if t.None? {
      return Fail(400, "删除书籍失败");
    }
    store.books := store.books - {t.value};
    store.links := set l | l in store.links && l.0 != t.value;
    r := Ok("删除成功");
  }

  /** A path ending in the decimal digits of an id addresses that id. */
  lemma {:induction false} PathOfId(prefix: string, id: nat)
    ensures PathId(prefix + "/" + NatToString(id)) == Real(id as real)
  {
    var digits := NatToString(id);
    var path := prefix + "/" + digits;
    LastSegmentOfDigits(prefix + "/", digits);
    NatToStringNumber(id);
  }

  lemma {:induction false} LastSegmentOfDigits(prefix: string, digits: string)
    requires prefix != [] && prefix[|prefix| - 1] == '/'
    requires AllDigits(digits)
    ensures LastSegment(prefix + digits) == digits
    decreases |digits|
  {
    if digits == [] {
      assert prefix + digits == prefix;
    } else {
      var init := digits[..|digits| - 1];
      assert (prefix + digits)[..|prefix + digits| - 1] == prefix + init;
      LastSegmentOfDigits(prefix, init);
      assert init + [digits[|digits| - 1]] == digits;
    }
  }
}
