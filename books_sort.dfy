/** The batch reorder handler (server/api/books/sort.ts): PUT with
    `{ books: [{ id, sortOrder }, ...] }` writes each listed book's
    `sortOrder`. The writes are independent: one that fails does not undo
    the others, and the call then answers 500. */
module BooksSort {
  import opened JsValues
  import opened CatalogStore

  /** An element of the `books` array: an object whose `id` and `sortOrder`
      are read (a missing property reads as `undefined`), or a null or
      undefined element, on which reading `id` throws. */
  datatype SortEntry = Entry(id: Value, sortOrder: Value) | Hole

  /** The `books` property of the body: an array, or any other value. */
  datatype SortBody = Entries(entries: seq<SortEntry>) | NotArray(v: Value)

  /** The database client accepts the update of one entry: an integral id
      of an existing book, and a `sortOrder` that is an integral number or
      `undefined` (which leaves the column as it is). */
  predicate Applicable(books: map<int, Book>, e: SortEntry) {
    && e.Entry?
    && ClientId(e.id).Some? && ClientId(e.id).value in books
    && (e.sortOrder.Undefined? || ClientId(e.sortOrder).Some?)
  }

  /** Whether entry `e` writes `n` into the `sortOrder` of book `id`. */
  predicate Assigns(e: SortEntry, id: int, n: int) {
    e.Entry? && ClientId(e.id) == Some(id) && ClientId(e.sortOrder) == Some(n)
  }

  /** The table after the update of one entry: nothing when the client
      refuses it, otherwise the one column of the one row. */
  function ApplyOne(books: map<int, Book>, e: SortEntry): (r: map<int, Book>)
    ensures r.Keys == books.Keys
  {
    if Applicable(books, e) && e.sortOrder.Number? then
      var id := ClientId(e.id).value;
      books[id := books[id].(sortOrder := ClientId(e.sortOrder).value)]
    else books
  }

  /** The table after the updates of a batch, in list order. */
  function ApplyAll(books: map<int, Book>, entries: seq<SortEntry>): (r: map<int, Book>)
    ensures r.Keys == books.Keys
  {
    if entries == [] then books
    else ApplyOne(ApplyAll(books, entries[..|entries| - 1]), entries[|entries| - 1])
  }

  /** The `sortOrder` book `id` ends with: the value of the last entry that
      assigns it, or `current` when none does. */
  function LastAssigned(entries: seq<SortEntry>, id: int, current: int): int {
    if entries == [] then current
    else
      var e := entries[|entries| - 1];
      if e.Entry? && ClientId(e.id) == Some(id) && ClientId(e.sortOrder).Some? then ClientId(e.sortOrder).value
      else LastAssigned(entries[..|entries| - 1], id, current)
  }

  predicate AllApplicable(books: map<int, Book>, entries: seq<SortEntry>) {
    forall i :: 0 <= i < |entries| ==> Applicable(books, entries[i])
  }

  predicate HasHole(entries: seq<SortEntry>) {
    exists i :: 0 <= i < |entries| && entries[i].Hole?
  }

  /** PUT: any other method is 405; a body whose `books` is not an array is
      400; an array with a null element throws while the updates are being
      built, before any runs (500, nothing changes); otherwise every update
      the client accepts is applied and the answer is success exactly when
      it accepts them all. Nothing but `sortOrder` columns change. */
  method SortBooks(store: Store, httpMethod: string, body: SortBody) returns (r: Response<string>)
    requires store.Valid()
    modifies store
    ensures store.Valid()
    ensures store.categories == old(store.categories) && store.links == old(store.links)
    ensures store.nextBookId == old(store.nextBookId) && store.nextCategoryId == old(store.nextCategoryId)
    ensures httpMethod != "PUT" ==> r == Fail(405, "不支持的请求方法")
    ensures httpMethod == "PUT" && body.NotArray? ==> r == Fail(400, "无效的请求数据格式")
    ensures httpMethod == "PUT" && body.Entries? && HasHole(body.entries) ==> r == Fail(500, "更新图书排序失败")
    ensures httpMethod != "PUT" || body.NotArray? || HasHole(body.entries) ==> store.books == old(store.books)
    ensures httpMethod == "PUT" && body.Entries? && !HasHole(body.entries) ==>
      && store.books == ApplyAll(old(store.books), body.entries)
      && (r.Ok? <==> AllApplicable(old(store.books), body.entries))
      && (r.Ok? ==> r.value == "排序更新成功")
      && (r.Fail? ==> r == Fail(500, "更新图书排序失败"))
  {
    if httpMethod != "PUT" {
      return Fail(405, "不支持的请求方法");
    }
    if body.NotArray? {
      return Fail(400, "无效的请求数据格式");
    }
    var entries := body.entries;
    if HasHole(entries) {
      return Fail(500, "更新图书排序失败");
    }
    ghost var books0 := store.books;
    var failed := false;
    var i := 0;
    while i < |entries|
      invariant 0 <= i <= |entries|
      invariant store.books == ApplyAll(books0, entries[..i])
      invariant store.Valid()
      invariant store.categories == old(store.categories) && store.links == old(store.links)
      invariant store.nextBookId == old(store.nextBookId) && store.nextCategoryId == old(store.nextCategoryId)
      invariant failed <==> exists k :: 0 <= k < i && !Applicable(books0, entries[k])
    {
      var e := entries[i];
      ApplyStep(books0, entries, i);
      ApplicableStable(books0, entries[..i], e);
      if Applicable(store.books, e) {
        if e.sortOrder.Number? {
          var id := ClientId(e.id).value;
          store.SetSortOrder(id, ClientId(e.sortOrder).value);
        }
      } else {
        failed := true;
      }
      i := i + 1;
    }
    assert entries[..i] == entries;
    if failed {
      r := Fail(500, "更新图书排序失败");
    } else {
      r := Ok("排序更新成功");
    }
  }

  /** One more entry of the batch applies one more update. */
  lemma ApplyStep(books: map<int, Book>, entries: seq<SortEntry>, i: nat)
    requires i < |entries|
    ensures ApplyAll(books, entries[..i + 1]) == ApplyOne(ApplyAll(books, entries[..i]), entries[i])
  {
    assert entries[..i + 1][..i] == entries[..i];
  }

  /** Whether an update is accepted depends only on the ids present, which
      the batch does not change. */
  lemma ApplicableStable(books: map<int, Book>, entries: seq<SortEntry>, e: SortEntry)
    ensures Applicable(ApplyAll(books, entries), e) == Applicable(books, e)
  {
  }

  /** The batch leaves every row as it was except for its `sortOrder`, and
      each book's `sortOrder` is the last value assigned to it, or its old
      one. */
  lemma {:induction false} ApplyAllEffect(books: map<int, Book>, entries: seq<SortEntry>, id: int)
    requires id in books
    ensures ApplyAll(books, entries)[id] == books[id].(sortOrder := LastAssigned(entries, id, books[id].sortOrder))
  {
    if entries != [] {
      var init := entries[..|entries| - 1];
      ApplyAllEffect(books, init, id);
      var e := entries[|entries| - 1];
      var before := ApplyAll(books, init);
      ApplicableStable(books, init, e);
      if e.Entry? && ClientId(e.id) == Some(id) && ClientId(e.sortOrder).Some? {
        assert Applicable(before, e);
      }
    }
  }

  /** A book no entry names keeps its whole row. */
  lemma {:induction false} UnlistedUnchanged(books: map<int, Book>, entries: seq<SortEntry>, id: int)
    requires id in books
    requires forall i :: 0 <= i < |entries| ==> !(entries[i].Entry? && ClientId(entries[i].id) == Some(id))
    ensures LastAssigned(entries, id, books[id].sortOrder) == books[id].sortOrder
    ensures ApplyAll(books, entries)[id] == books[id]
  {
    if entries != [] {
      var init := entries[..|entries| - 1];
      assert forall i :: 0 <= i < |init| ==> init[i] == entries[i];
      UnlistedUnchanged(books, init, id);
    }
    ApplyAllEffect(books, entries, id);
  }

  /** When the ids of the batch are distinct, the book of entry `k` ends
      with the value that entry assigns, and only that column changes. */
  lemma {:induction false} DistinctAssigns(books: map<int, Book>, entries: seq<SortEntry>, k: int, id: int, n: int)
    requires id in books
    requires 0 <= k < |entries| && Assigns(entries[k], id, n)
    requires forall i, j :: 0 <= i < j < |entries| && entries[i].Entry? && entries[j].Entry? ==>
      ClientId(entries[i].id) != ClientId(entries[j].id)
    ensures LastAssigned(entries, id, books[id].sortOrder) == n
    ensures ApplyAll(books, entries)[id] == books[id].(sortOrder := n)
  {
    var init := entries[..|entries| - 1];
    assert forall i :: 0 <= i < |init| ==> init[i] == entries[i];
    if k < |entries| - 1 {
      DistinctAssigns(books, init, k, id, n);
    }
    ApplyAllEffect(books, entries, id);
  }

  /** `LastAssigned` forgets the starting value as soon as one entry
      assigns the book: from two starting values it either returns both
      unchanged or the same value. */
  lemma {:induction false} LastAssignedCases(entries: seq<SortEntry>, id: int, a: int, b: int)
    ensures || (LastAssigned(entries, id, a) == a && LastAssigned(entries, id, b) == b)
            || LastAssigned(entries, id, a) == LastAssigned(entries, id, b)
  {
    if entries != [] {
      LastAssignedCases(entries[..|entries| - 1], id, a, b);
    }
  }

  /** Replaying a batch on the table it produced changes nothing more. */
  lemma ApplyAllIdempotent(books: map<int, Book>, entries: seq<SortEntry>)
    ensures ApplyAll(ApplyAll(books, entries), entries) == ApplyAll(books, entries)
  {
    var once := ApplyAll(books, entries);
    forall id | id in books
      ensures ApplyAll(once, entries)[id] == once[id]
    {
      ApplyAllEffect(books, entries, id);
      ApplyAllEffect(once, entries, id);
      var v := LastAssigned(entries, id, books[id].sortOrder);
      LastAssignedCases(entries, id, v, books[id].sortOrder);
    }
  }
}
