/** The statistics handler (server/api/books/stats.ts): counts and summed
    prices over the whole catalogue, over one category when the query names
    one, and per category. It reads the tables and writes nothing. */
module BooksStats {
  import opened JsValues
  import opened Ordering
  import opened CatalogStore

  /** Counts and value of a set of books. */
  datatype Stats = Stats(totalBooks: int, borrowedBooks: int, availableBooks: int, totalValue: real)

  /** One entry of `categoryBreakdown`. */
  datatype BreakdownRow = BreakdownRow(id: int, name: string, bookCount: nat, totalValue: real)

  /** The whole answer; the breakdown is keyed by category id because the
      store is asked for no order. */
  datatype StatsAnswer = StatsAnswer(overall: Stats, category: Option<Stats>, breakdown: map<int, BreakdownRow>)

  /** What a price column adds to a total: `parseFloat(price || '0')`, with
      NaN counted as 0. */
  function PriceValue(price: Option<string>): (v: real)
    ensures price.None? || price == Some("") ==> v == 0.0
    ensures price.Some? && price.value != "" && ParseFloat(price.value).NaN? ==> v == 0.0
    ensures price.Some? && ParseFloat(price.value).Real? ==> v == ParseFloat(price.value).r
  {
    var text := if price.Some? && price.value != "" then price.value else "0";
    assert text == "0" ==> LeadingDigits(text) == 1;
    match ParseFloat(text)
    case NaN => 0.0
    case Real(x) => x
  }

  /** The least element of a non-empty set of ids. */
  function Least(ids: set<int>): (m: int)
    requires ids != {}
    ensures m in ids && forall j :: j in ids ==> m <= j
  {
    LeastExists(ids, (a: int, b: int) => a <= b);
    var m :| m in ids && forall j :: j in ids ==> m <= j;
    m
  }

  /** The summed price of the books `ids` (the order of the fold does not
      matter for exact values). */
  function TotalValue(books: map<int, Book>, ids: set<int>): (v: real)
    requires ids <= books.Keys
    ensures (forall id :: id in ids ==> books[id].price.None?) ==> v == 0.0
    decreases ids
  {
    if ids == {} then 0.0
    else
      var m := Least(ids);
      PriceValue(books[m].price) + TotalValue(books, ids - {m})
  }

  /** Any one book can be taken out of the sum first. */
  lemma {:induction false} TotalValueRemove(books: map<int, Book>, ids: set<int>, x: int)
    requires ids <= books.Keys && x in ids
    ensures TotalValue(books, ids) == TotalValue(books, ids - {x}) + PriceValue(books[x].price)
    decreases ids
  {
    var m := Least(ids);
    if x != m {
      var rest, without := ids - {m}, ids - {x};
      assert TotalValue(books, ids) == PriceValue(books[m].price) + TotalValue(books, rest);
      TotalValueRemove(books, rest, x);
      assert rest - {x} == without - {m};
      assert m in without;
      assert Least(without) == m;
      assert TotalValue(books, without) == PriceValue(books[m].price) + TotalValue(books, without - {m});
    }
  }

  /** A book whose price reads as nothing adds nothing: the total of the
      others is the total of all. */
  lemma UnreadablePriceAddsNothing(books: map<int, Book>, ids: set<int>, x: int)
    requires ids <= books.Keys && x in ids
    requires books[x].price.None? || ParseFloat(books[x].price.value).NaN?
    ensures TotalValue(books, ids) == TotalValue(books, ids - {x})
  {
    TotalValueRemove(books, ids, x);
  }

  /** Books with a borrower (`borrowedBy` not null), as the overall count
      selects them. */
  function BorrowedIds(books: map<int, Book>): (ids: set<int>)
    ensures ids <= books.Keys
  {
    set id | id in books && books[id].borrowedBy.Some?
  }

  /** Books of a category whose borrower is truthy, as the per-category
      filter selects them: an empty-string borrower does not count. */
  function CategoryBorrowedIds(books: map<int, Book>, ids: set<int>): (r: set<int>)
    requires ids <= books.Keys
    ensures r <= ids
  {
    set id | id in ids && books[id].borrowedBy.Some? && books[id].borrowedBy.value != ""
  }

  /** The overall figures. */
  function Overall(books: map<int, Book>): (s: Stats)
    ensures s.totalBooks == |books|
    ensures s.borrowedBooks == |BorrowedIds(books)|
    ensures s.availableBooks == s.totalBooks - s.borrowedBooks
    ensures 0 <= s.borrowedBooks <= s.totalBooks && 0 <= s.availableBooks <= s.totalBooks
    ensures s.totalValue == TotalValue(books, books.Keys)
  {
    var total := |books.Keys|;
    var borrowed := |BorrowedIds(books)|;
    assert |BorrowedIds(books)| <= |books.Keys| by {
      SubsetCardinality(BorrowedIds(books), books.Keys);
    }
    Stats(total, borrowed, total - borrowed, TotalValue(books, books.Keys))
  }

  lemma SubsetCardinality(a: set<int>, b: set<int>)
    requires a <= b
    ensures |a| <= |b|
  {
    assert b == a + (b - a);
  }

  /** The figures of category `c`: its links counted, its linked books'
      truthy borrowers counted, its linked books' prices summed. */
  function CategoryFigures(books: map<int, Book>, links: set<Link>, c: int): (s: Stats)
    requires LinksToBooks(links, books)
    ensures s.totalBooks == LinkCount(links, c) == |BooksIn(links, books, c)|
    ensures s.borrowedBooks == |CategoryBorrowedIds(books, BooksIn(links, books, c))|
    ensures 0 <= s.borrowedBooks <= s.totalBooks && s.availableBooks == s.totalBooks - s.borrowedBooks
    ensures s.totalValue == TotalValue(books, BooksIn(links, books, c))
  {
    var ids := BooksIn(links, books, c);
    LinkCountIsBooksIn(links, books, c);
    var borrowed := CategoryBorrowedIds(books, ids);
    SubsetCardinality(borrowed, ids);
    Stats(LinkCount(links, c), |borrowed|, LinkCount(links, c) - |borrowed|, TotalValue(books, ids))
  }

  /** `category`: null unless the query's `categoryId` is non-empty and
      `Number` reads it; a number the store does not take as an id fails
      the whole request. */
  function CategoryStats(books: map<int, Book>, links: set<Link>, categoryId: Option<string>)
    : (r: Response<Option<Stats>>)
    requires LinksToBooks(links, books)
    ensures categoryId.None? || categoryId == Some("") ==> r == Ok(None)
    ensures categoryId.Some? && categoryId.value != "" && StringToNumber(categoryId.value).NaN? ==> r == Ok(None)
    ensures r.Ok? && r.value.Some? ==>
      var n := StringToNumber(categoryId.value);
      n.Real? && n.r.Floor as real == n.r && r.value.value == CategoryFigures(books, links, n.r.Floor)
    ensures r.Fail? ==> r == Fail(500, "获取图书统计失败")
    ensures categoryId.Some? && categoryId.value != "" && StringToNumber(categoryId.value).Real? ==>
      var x := StringToNumber(categoryId.value).r;
      && (x.Floor as real != x ==> r == Fail(500, "获取图书统计失败"))
      && (x.Floor as real == x ==> r == Ok(Some(CategoryFigures(books, links, x.Floor))))
  {
    if categoryId.None? || categoryId.value == "" then Ok(None)
    else
      match StringToNumber(categoryId.value)
      case NaN => Ok(None)
      case Real(x) =>
        if x.Floor as real != x then Fail(500, "获取图书统计失败")
        else Ok(Some(CategoryFigures(books, links, x.Floor)))
  }

  /** `categoryBreakdown`: one row per category with its link count and the
      summed price of its books. */
  function Breakdown(books: map<int, Book>, categories: map<int, Category>, links: set<Link>)
    : (m: map<int, BreakdownRow>)
    requires LinksToBooks(links, books)
    ensures m.Keys == categories.Keys
    ensures forall c :: c in m ==> m[c].id == c && m[c].name == categories[c].name
    ensures forall c :: c in m ==>
      m[c].bookCount == LinkCount(links, c) && m[c].totalValue == TotalValue(books, BooksIn(links, books, c))
  {
    map c | c in categories ::
      BreakdownRow(c, categories[c].name, LinkCount(links, c), TotalValue(books, BooksIn(links, books, c)))
  }

  /** GET: the overall figures, the optional category figures and the
      breakdown; any other method is 405. */
  function GetStats(httpMethod: string, books: map<int, Book>, categories: map<int, Category>,
                    links: set<Link>, categoryId: Option<string>): (r: Response<StatsAnswer>)
    requires LinksClosed(links, books, categories)
    ensures httpMethod != "GET" <==> r == Fail(405, "不支持的请求方法")
    ensures httpMethod == "GET" ==>
      && (r.Ok? <==> CategoryStats(books, links, categoryId).Ok?)
      && (r.Fail? ==> r == Fail(500, "获取图书统计失败"))
      && (r.Ok? ==>
            && r.value.overall == Overall(books)
            && r.value.category == CategoryStats(books, links, categoryId).value
            && r.value.breakdown == Breakdown(books, categories, links))
  {
    if httpMethod != "GET" then Fail(405, "不支持的请求方法")
    else
      match CategoryStats(books, links, categoryId)
      case Fail(status, message) => Fail(status, message)
      case Ok(category) => Ok(StatsAnswer(Overall(books), category, Breakdown(books, categories, links)))
  }

  /** The category figures and the breakdown row of the same category
      agree on its book count and value, and the count is the `bookCount`
      of the category listing. */
  lemma CategoryAgreesWithBreakdown(books: map<int, Book>, categories: map<int, Category>, links: set<Link>, c: int)
    requires LinksClosed(links, books, categories) && c in categories
    ensures var s := CategoryFigures(books, links, c);
      var row := Breakdown(books, categories, links)[c];
      && s.totalBooks == row.bookCount == LinkCount(links, c)
      && s.totalValue == row.totalValue
  {
  }

  /** A `categoryId` that reads as a whole number naming no category gives
      all-zero figures and a successful answer, not an error. */
  lemma UnknownCategoryIsZero(books: map<int, Book>, categories: map<int, Category>, links: set<Link>,
                              categoryId: string)
    requires LinksClosed(links, books, categories)
    requires categoryId != "" && StringToNumber(categoryId).Real?
    requires StringToNumber(categoryId).r.Floor as real == StringToNumber(categoryId).r
    requires StringToNumber(categoryId).r.Floor !in categories
    ensures CategoryStats(books, links, Some(categoryId)) == Ok(Some(Stats(0, 0, 0, 0.0)))
    ensures GetStats("GET", books, categories, links, Some(categoryId)).Ok?
  {
    var c := StringToNumber(categoryId).r.Floor;
    assert BooksIn(links, books, c) == {};
  }

  /** A book with an empty-string borrower is counted as borrowed overall
      but not in the figures of a category it belongs to. */
  lemma EmptyBorrowerCountsOnlyOverall(books: map<int, Book>, links: set<Link>, c: int, b: int)
    requires LinksToBooks(links, books)
    requires b in books && (b, c) in links && books[b].borrowedBy == Some("")
    ensures b in BorrowedIds(books)
    ensures CategoryFigures(books, links, c).borrowedBooks < |BorrowedIds(books) * BooksIn(links, books, c)|
  {
    var ids := BooksIn(links, books, c);
    var inCategory := CategoryBorrowedIds(books, ids);
    var overall := BorrowedIds(books) * ids;
    assert inCategory <= overall - {b};
    SubsetCardinality(inCategory, overall - {b});
  }
}
