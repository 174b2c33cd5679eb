/** The category handler (server/api/categories.ts): GET lists every
    category by name with its number of books, POST creates one, PUT
    renames or re-describes one, DELETE removes one with its links. */
module CategoriesApi {
  import opened JsValues
  import opened Ordering
  import opened CatalogStore
  import BookCategoriesApi

  /** A row of the GET listing: the category with its id and `bookCount`. */
  datatype CategoryView = CategoryView(id: int, name: string, description: Option<string>, bookCount: nat)

  /** A category name the handler accepts: a string that is not empty and
      not only white space. */
  predicate ValidName(v: Value) {
    Truthy(v) && v.Str? && Trim(v.s) != ""
  }

  /** The order of the listing: by name, in the store's collation. */
  function ByName(categories: map<int, Category>): (int, int) -> bool {
    (a: int, b: int) => a in categories && b in categories && StrLessEq(categories[a].name, categories[b].name)
  }

  lemma ByNameTotal(categories: map<int, Category>)
    ensures TotalPreorderOn(categories.Keys, ByName(categories))
  {
    var le := ByName(categories);
    forall a, b | a in categories && b in categories
      ensures le(a, b) || le(b, a)
    {
      StrLessEqTotal(categories[a].name, categories[b].name);
    }
    forall a, b, c | a in categories && b in categories && c in categories && le(a, b) && le(b, c)
      ensures le(a, c)
    {
      StrLessEqTransitive(categories[a].name, categories[b].name, categories[c].name);
    }
  }

  /** GET: every category exactly once, in strictly increasing name order,
      each with its columns and the number of links that point at it. */
  method ListCategories(store: Store) returns (rows: seq<CategoryView>)
    requires store.Valid()
    ensures |rows| == |store.categories|
    ensures forall id :: id in store.categories <==> exists i :: 0 <= i < |rows| && rows[i].id == id
    ensures forall i :: 0 <= i < |rows| ==>
      && rows[i].id in store.categories
      && rows[i].name == store.categories[rows[i].id].name
      && rows[i].description == store.categories[rows[i].id].description
      && rows[i].bookCount == LinkCount(store.links, rows[i].id)
    ensures forall i, j :: 0 <= i < j < |rows| ==>
      StrLessEq(rows[i].name, rows[j].name) && rows[i].name != rows[j].name
  {
    var categories, links := store.categories, store.links;
    ByNameTotal(categories);
    var ids := SortKeys(categories.Keys, ByName(categories));
    assert forall k :: k in ids ==> k in categories;
    assert forall i :: 0 <= i < |ids| ==> ids[i] in ids;
    rows := Rows(categories, links, ids);
    ListingProperties(categories, links, ids);
  }

  /** The listing rows of `ids`, in that order. */
  function Rows(categories: map<int, Category>, links: set<Link>, ids: seq<int>): (rows: seq<CategoryView>)
    requires forall i :: 0 <= i < |ids| ==> ids[i] in categories
    ensures |rows| == |ids|
    ensures forall i :: 0 <= i < |ids| ==>
      rows[i] == CategoryView(ids[i], categories[ids[i]].name, categories[ids[i]].description, LinkCount(links, ids[i]))
  {
    seq(|ids|, i requires 0 <= i < |ids| && ids[i] in categories =>
      CategoryView(ids[i], categories[ids[i]].name, categories[ids[i]].description, LinkCount(links, ids[i])))
  }

  /** The rows of every category sorted by name, over distinct names:
      each category once, strictly increasing names. */
  lemma ListingProperties(categories: map<int, Category>, links: set<Link>, ids: seq<int>)
    requires NamesDistinct(categories) && Distinct(ids) && SortedBy(ids, ByName(categories))
    requires forall k :: k in ids <==> k in categories
    requires forall i :: 0 <= i < |ids| ==> ids[i] in categories
    requires |ids| == |categories|
    ensures var rows := Rows(categories, links, ids);
      && |rows| == |categories|
      && (forall id :: id in categories <==> exists i :: 0 <= i < |rows| && rows[i].id == id)
      && (forall i :: 0 <= i < |rows| ==>
            && rows[i].id in categories
            && rows[i].name == categories[rows[i].id].name
            && rows[i].description == categories[rows[i].id].description
            && rows[i].bookCount == LinkCount(links, rows[i].id))
      && (forall i, j :: 0 <= i < j < |rows| ==>
            StrLessEq(rows[i].name, rows[j].name) && rows[i].name != rows[j].name)
  {
    var rows := Rows(categories, links, ids);
    forall id | id in categories
      ensures exists i :: 0 <= i < |rows| && rows[i].id == id
    {
      var i :| 0 <= i < |ids| && ids[i] == id;
      assert rows[i].id == id;
    }
  }

  /** POST: create a category. The name must be valid and unused; the
      description is kept when truthy (a non-string one is refused by the
      database client, 500) and stored as null otherwise. */
  method Create(store: Store, name: Value, description: Value) returns (r: Response<(int, Category)>)
    requires store.Valid()
    modifies store
    ensures store.Valid()
    ensures store.books == old(store.books) && store.links == old(store.links)
    ensures store.nextBookId == old(store.nextBookId)
    ensures !ValidName(name) <==> r == Fail(400, "分类名称不能为空")
    ensures ValidName(name) && NameTaken(old(store.categories), name.s, None) ==> r == Fail(400, "分类名称已存在")
    ensures ValidName(name) && !NameTaken(old(store.categories), name.s, None) && Truthy(description) && !description.Str? ==>
      r == Fail(500, "创建分类失败")
    ensures r.Ok? <==>
      ValidName(name) && !NameTaken(old(store.categories), name.s, None) && (!Truthy(description) || description.Str?)
    ensures r.Ok? ==>
      var id := old(store.nextCategoryId);
      && id !in old(store.categories)
      && r.value == (id, Category(name.s, if Truthy(description) then Some(description.s) else None))
      && store.categories == old(store.categories)[id := r.value.1]
      && store.nextCategoryId == id + 1
    ensures r.Fail? ==> store.categories == old(store.categories) && store.nextCategoryId == old(store.nextCategoryId)
  {
    if !ValidName(name) {
      return Fail(400, "分类名称不能为空");
    }
    if NameTaken(store.categories, name.s, None) {
      return Fail(400, "分类名称已存在");
    }
    var d: Option<string>;
    if !Truthy(description) {
      d := None;
    } else if description.Str? {
      d := Some(description.s);
    } else {
      return Fail(500, "创建分类失败");
    }
    var id := store.nextCategoryId;
    var category := Category(name.s, d);
    store.categories := store.categories[id := category];
    store.nextCategoryId := id + 1;
    r := Ok((id, category));
  }

  /** How an update body's `description` changes the column: `undefined`
      leaves it, `null` clears it, a string sets it; anything else is refused
      by the database client. */
  function NewDescription(current: Option<string>, description: Value): (r: Option<Option<string>>)
    ensures description.Undefined? ==> r == Some(current)
    ensures description.Null? ==> r == Some(None)
    ensures description.Str? ==> r == Some(Some(description.s))
    ensures r.None? <==> !(description.Undefined? || description.Null? || description.Str?)
  {
    match description
    case Undefined => Some(current)
    case Null => Some(None)
    case Str(s) => Some(Some(s))
    case _ => None
  }

  /** PUT: rename and re-describe the category `id`. Checks, in order: id
      and name present (400), id accepted by the database client (500), the
      category exists (404), no other category has the name (400), the
      description is acceptable (500). */
  method Update(store: Store, id: Value, name: Value, description: Value) returns (r: Response<(int, Category)>)
    requires store.Valid()
    modifies store
    ensures store.Valid()
    ensures store.books == old(store.books) && store.links == old(store.links)
    ensures store.nextBookId == old(store.nextBookId) && store.nextCategoryId == old(store.nextCategoryId)
    ensures !Truthy(id) || !ValidName(name) <==> r == Fail(400, "分类ID和名称不能为空")
    ensures Truthy(id) && ValidName(name) && ClientId(id).None? ==> r == Fail(500, "更新分类失败")
    ensures Truthy(id) && ValidName(name) && ClientId(id).Some? ==>
      var c := ClientId(id).value;
      && (c !in old(store.categories) <==> r == Fail(404, "分类不存在"))
      && (c in old(store.categories) && NameTaken(old(store.categories), name.s, Some(c)) ==> r == Fail(400, "分类名称已存在"))
      && ((c in old(store.categories) && !NameTaken(old(store.categories), name.s, Some(c))
            && NewDescription(old(store.categories)[c].description, description).None?)
            ==> r == Fail(500, "更新分类失败"))
      && (r.Ok? <==>
            c in old(store.categories) && !NameTaken(old(store.categories), name.s, Some(c))
            && NewDescription(old(store.categories)[c].description, description).Some?)
      && (r.Ok? ==>
            && r.value == (c, Category(name.s, NewDescription(old(store.categories)[c].description, description).value))
            && store.categories == old(store.categories)[c := r.value.1])
    ensures r.Fail? ==> store.categories == old(store.categories)
  {
    if !Truthy(id) || !ValidName(name) {
      return Fail(400, "分类ID和名称不能为空");
    }
    var cid := ClientId(id);
    if cid.None? {
      return Fail(500, "更新分类失败");
    }
    var c := cid.value;
    if c !in store.categories {
      return Fail(404, "分类不存在");
    }
    if NameTaken(store.categories, name.s, Some(c)) {
      return Fail(400, "分类名称已存在");
    }
    var d := NewDescription(store.categories[c].description, description);
    if d.None? {
      return Fail(500, "更新分类失败");
    }
    var category := Category(name.s, d.value);
    store.categories := store.categories[c := category];
    r := Ok((c, category));
  }

  /** DELETE: remove the category `id` and, by the foreign key's cascade,
      every link that points at it. */
  method Delete(store: Store, id: Value) returns (r: Response<string>)
    requires store.Valid()
    modifies store
    ensures store.Valid()
    ensures store.books == old(store.books)
    ensures store.nextBookId == old(store.nextBookId) && store.nextCategoryId == old(store.nextCategoryId)
    ensures !Truthy(id) <==> r == Fail(400, "分类ID不能为空")
    ensures Truthy(id) && ClientId(id).None? ==> r == Fail(500, "删除分类失败")
    ensures Truthy(id) && ClientId(id).Some? ==>
      var c := ClientId(id).value;
      && (c !in old(store.categories) <==> r == Fail(404, "分类不存在"))
      && (c in old(store.categories) ==>
            && r == Ok("分类已成功删除")
            && store.categories == old(store.categories) - {c}
            && store.links == set l | l in old(store.links) && l.1 != c)
    ensures r.Fail? ==> store.categories == old(store.categories) && store.links == old(store.links)
  {
    if !Truthy(id) {
      return Fail(400, "分类ID不能为空");
    }
    var cid := ClientId(id);
    if cid.None? {
      return Fail(500, "删除分类失败");
    }
    var c := cid.value;
    if c !in store.categories {
      return Fail(404, "分类不存在");
    }
    store.categories := store.categories - {c};
    store.links := set l | l in store.links && l.1 != c;
    r := Ok("分类已成功删除");
  }

  /** A category created and then deleted by the id it was given leaves the
      category table and the link table as they were. */
  method CreateThenDelete(store: Store, name: Value, description: Value)
    returns (created: Response<(int, Category)>, deleted: Response<string>)
    requires store.Valid()
    modifies store
    ensures store.Valid()
    ensures created.Ok? ==> deleted.Ok?
    ensures created.Ok? ==> store.categories == old(store.categories) && store.links == old(store.links)
  {
    created := Create(store, name, description);
    if created.Ok? {
      var id := created.value.0;
      deleted := Delete(store, Number(Real(id as real)));
      assert old(store.categories)[id := created.value.1] - {id} == old(store.categories);
      assert forall l :: l in old(store.links) ==> l.1 != id;
    } else {
      deleted := Fail(400, "分类ID不能为空");
    }
  }

  /** The `bookCount` of a category equals the number of books the
      association handler lists for it, whichever query text names it. */
  lemma BookCountMatchesListing(books: map<int, Book>, categories: map<int, Category>, links: set<Link>,
                                query: string, c: int)
    requires LinksClosed(links, books, categories) && c in categories
    requires query != "" && ParseIntString(query) == Some(c)
    ensures
      var r := BookCategoriesApi.Get(books, categories, links, BookCategoriesApi.LinkQuery(None, Some(query)));
      r.Ok? && r.value.BooksOf? && LinkCount(links, c) == |r.value.books.Keys|
  {
    var r := BookCategoriesApi.Get(books, categories, links, BookCategoriesApi.LinkQuery(None, Some(query)));
    LinkCountIsBooksIn(links, books, c);
    assert BooksIn(links, books, c) == r.value.books.Keys;
  }
}
