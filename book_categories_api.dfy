/** The book–category association handler (server/api/book-categories.ts):
    GET lists the categories of a book or the books of a category, POST
    links a book to a category, DELETE unlinks them. Lists are returned as
    maps from id to row because the handler asks the store for no order. */
module BookCategoriesApi {
  import opened JsValues
  import opened CatalogStore

  /** The query string of a GET: `bookId` and `categoryId`, when present. */
  datatype LinkQuery = LinkQuery(bookId: Option<string>, categoryId: Option<string>)

  /** What a GET returns. */
  datatype Listing = CategoriesOf(categories: map<int, Category>) | BooksOf(books: map<int, Book>)

  /** What a successful POST returns: the message and the new link with its
      book and category. */
  datatype Linked = Linked(message: string, bookId: int, categoryId: int, book: Book, category: Category)

  /** A query parameter is used when it is present and non-empty. */
  predicate Given(p: Option<string>) { p.Some? && p.value != "" }

  /** GET: with a `bookId`, the categories linked to that book; otherwise,
      with a `categoryId`, the books linked to that category; with neither,
      400. An id `parseInt` cannot read is 400, an unknown one 404. */
  function Get(books: map<int, Book>, categories: map<int, Category>, links: set<Link>, q: LinkQuery)
    : (r: Response<Listing>)
    ensures Given(q.bookId) && ParseIntString(q.bookId.value).None? ==> r == Fail(400, "无效的图书ID")
    ensures Given(q.bookId) && ParseIntString(q.bookId.value).Some? ==>
      var b := ParseIntString(q.bookId.value).value;
      && (b !in books <==> r == Fail(404, "图书不存在"))
      && (b in books ==>
            && r.Ok? && r.value.CategoriesOf?
            && (forall c :: c in r.value.categories <==> c in categories && (b, c) in links)
            && (forall c :: c in r.value.categories ==> r.value.categories[c] == categories[c]))
    ensures !Given(q.bookId) && Given(q.categoryId) && ParseIntString(q.categoryId.value).None? ==>
      r == Fail(400, "无效的分类ID")
    ensures !Given(q.bookId) && Given(q.categoryId) && ParseIntString(q.categoryId.value).Some? ==>
      var c := ParseIntString(q.categoryId.value).value;
      && (c !in categories <==> r == Fail(404, "分类不存在"))
      && (c in categories ==>
            && r.Ok? && r.value.BooksOf?
            && (forall b :: b in r.value.books <==> b in books && (b, c) in links)
            && (forall b :: b in r.value.books ==> r.value.books[b] == books[b]))
    ensures !Given(q.bookId) && !Given(q.categoryId) ==> r == Fail(400, "请提供bookId或categoryId参数")
  {
    if Given(q.bookId) then
      match ParseIntString(q.bookId.value)
      case None => Fail(400, "无效的图书ID")
      case Some(b) =>
        if b !in books then Fail(404, "图书不存在")
        else Ok(CategoriesOf(map c | c in categories && (b, c) in links :: categories[c]))
    else if Given(q.categoryId) then
      match ParseIntString(q.categoryId.value)
      case None => Fail(400, "无效的分类ID")
      case Some(c) =>
        if c !in categories then Fail(404, "分类不存在")
        else Ok(BooksOf(map b | b in books && (b, c) in links :: books[b]))
    else Fail(400, "请提供bookId或categoryId参数")
  }

  /** The ids of a POST or DELETE body: both must be truthy and both must be
      read by `parseInt`; otherwise the 400 the handler gives. */
  function LinkIds(bookId: Value, categoryId: Value): (r: Response<Link>)
    ensures (!Truthy(bookId) || !Truthy(categoryId)) <==> r == Fail(400, "图书ID和分类ID不能为空")
    ensures Truthy(bookId) && Truthy(categoryId) ==>
      ((ParseInt(bookId).None? || ParseInt(categoryId).None?) <==> r == Fail(400, "无效的图书ID或分类ID"))
    ensures r.Ok? <==> Truthy(bookId) && Truthy(categoryId) && ParseInt(bookId).Some? && ParseInt(categoryId).Some?
    ensures r.Ok? ==> r.value == (ParseInt(bookId).value, ParseInt(categoryId).value)
  {
    if !Truthy(bookId) || !Truthy(categoryId) then Fail(400, "图书ID和分类ID不能为空")
    else if ParseInt(bookId).None? || ParseInt(categoryId).None? then Fail(400, "无效的图书ID或分类ID")
    else Ok((ParseInt(bookId).value, ParseInt(categoryId).value))
  }

  /** POST: link a book to a category. The book is checked before the
      category and both before the pair; on success exactly the pair is
      added and nothing else changes. */
  method Link(store: Store, bookId: Value, categoryId: Value) returns (r: Response<Linked>)
    requires store.Valid()
    modifies store
    ensures store.Valid()
    ensures store.books == old(store.books) && store.categories == old(store.categories)
    ensures store.nextBookId == old(store.nextBookId) && store.nextCategoryId == old(store.nextCategoryId)
    ensures LinkIds(bookId, categoryId).Fail? ==> r == LinkIds(bookId, categoryId).PropagateFail()
    ensures LinkIds(bookId, categoryId).Ok? ==>
      var (b, c) := LinkIds(bookId, categoryId).value;
      && (b !in old(store.books) ==> r == Fail(404, "图书不存在"))
      && (b in old(store.books) && c !in old(store.categories) ==> r == Fail(404, "分类不存在"))
      && (b in old(store.books) && c in old(store.categories) && (b, c) in old(store.links) ==>
            r == Fail(400, "图书已添加到该分类"))
      && (r.Ok? <==> b in old(store.books) && c in old(store.categories) && (b, c) !in old(store.links))
      && (r.Ok? ==>
            && store.links == old(store.links) + {(b, c)}
            && r.value == Linked(LinkedMessage(store.books[b].title, store.categories[c].name),
                                 b, c, store.books[b], store.categories[c]))
    ensures r.Fail? ==> store.links == old(store.links)
  {
    var ids := LinkIds(bookId, categoryId);
    if ids.Fail? {
      return ids.PropagateFail();
    }
    var (b, c) := ids.value;
    if b !in store.books {
      return Fail(404, "图书不存在");
    }
    if c !in store.categories {
      return Fail(404, "分类不存在");
    }
    if (b, c) in store.links {
      return Fail(400, "图书已添加到该分类");
    }
    store.links := store.links + {(b, c)};
    var book, category := store.books[b], store.categories[c];
    r := Ok(Linked(LinkedMessage(book.title, category.name), b, c, book, category));
  }

  function LinkedMessage(title: string, name: string): string {
    "已将《" + title + "》添加到\"" + name + "\"分类"
  }

  function UnlinkedMessage(name: string, title: string): string {
    "已从\"" + name + "\"分类中移除《" + title + "》"
  }

  /** DELETE: remove the link between a book and a category. Exactly that
      pair goes when it exists; otherwise 404 and nothing changes. */
  method Unlink(store: Store, bookId: Value, categoryId: Value) returns (r: Response<string>)
    requires store.Valid()
    modifies store
    ensures store.Valid()
    ensures store.books == old(store.books) && store.categories == old(store.categories)
    ensures store.nextBookId == old(store.nextBookId) && store.nextCategoryId == old(store.nextCategoryId)
    ensures LinkIds(bookId, categoryId).Fail? ==> r == LinkIds(bookId, categoryId).PropagateFail()
    ensures LinkIds(bookId, categoryId).Ok? ==>
      var (b, c) := LinkIds(bookId, categoryId).value;
      && ((b, c) !in old(store.links) <==> r == Fail(404, "图书未添加到该分类"))
      && ((b, c) in old(store.links) ==>
            && store.links == old(store.links) - {(b, c)}
            && r == Ok(UnlinkedMessage(store.categories[c].name, store.books[b].title)))
    ensures r.Fail? ==> store.links == old(store.links)
  {
    var ids := LinkIds(bookId, categoryId);
    if ids.Fail? {
      return ids.PropagateFail();
    }
    var (b, c) := ids.value;
    if (b, c) !in store.links {
      return Fail(404, "图书未添加到该分类");
    }
    var message := UnlinkedMessage(store.categories[c].name, store.books[b].title);
    store.links := store.links - {(b, c)};
    r := Ok(message);
  }

  /** Linking a pair that was not linked and then unlinking it leaves the
      link table as it was. (When the pair was already linked, the link is
      refused and the unlink then removes the existing pair.) */
  method LinkThenUnlink(store: Store, bookId: Value, categoryId: Value)
    returns (linked: Response<Linked>, unlinked: Response<string>)
    requires store.Valid()
    modifies store
    ensures store.Valid()
    ensures linked.Ok? ==> unlinked.Ok? && store.links == old(store.links)
    ensures linked == Fail(400, "图书已添加到该分类") ==> unlinked.Ok? && store.links < old(store.links)
    ensures store.books == old(store.books) && store.categories == old(store.categories)
  {
    linked := Link(store, bookId, categoryId);
    unlinked := Unlink(store, bookId, categoryId);
    if linked.Ok? {
      var (b, c) := LinkIds(bookId, categoryId).value;
      assert (old(store.links) + {(b, c)}) - {(b, c)} == old(store.links);
    }
  }
}
