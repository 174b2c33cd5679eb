# Library catalogue: a Dafny model of its core

A small library-catalogue web application keeps books, categories and the
links between them in a relational store. On top of that store it offers
HTTP handlers to list, create, edit and delete books and categories, to link
books to categories, to reorder books and to read statistics. A shared
administrator account gates the pages through a session cookie. A few
helpers format prices, load the configuration file and rewrite the
database URL in the schema file.

This project models that core in Dafny and proves what each handler
promises:

- `CatalogStore.Store` holds the three tables:
  - `books`: a map from id to `Book`;
  - `categories`: a map from id to `Category`;
  - `links`: a set of `(bookId, categoryId)` pairs.
  It also holds the two id counters. Its invariant `Valid()` says:
  - isbns are unique;
  - category names are pairwise distinct;
  - every link names an existing book and an existing category;
  - every id lies below its counter.
- Each mutating handler branch is a method that `modifies` the store.
  - It keeps `Valid()`.
  - It states its HTTP status, its message and its exact effect on every table.
- Read-only branches are functions over the table values. Where the store
  returns rows in an order, they are methods that build the ordered listing
  and prove its order.
- JavaScript's value semantics are written out in `JsValues`:
  - truthiness and `===`;
  - `trim`, `parseInt`, `Number(string)` and `parseFloat`, over the decimal
    grammar the application uses.
- Prices are exact decimals (`real`), not IEEE doubles.
- The session gate has two halves:
  - on the server, a `CookieJar` class that the endpoints read and update;
  - on the client, an `AuthPlugin` class holding the logged-in flag, and the
    two route guards.

Modules, one per source file of the core:

| file | module | source |
|---|---|---|
| js_values.dfy | JsValues | JavaScript values and conversions used throughout |
| ordering.dfy | Ordering | the store's `ORDER BY`: building a sorted key list |
| catalog_store.dfy | CatalogStore | the three tables and what the store enforces |
| book_categories_api.dfy | BookCategoriesApi | server/api/book-categories.ts |
| categories_api.dfy | CategoriesApi | server/api/categories.ts |
| books_api.dfy | BooksApi | server/api/books.ts |
| books_sort.dfy | BooksSort | server/api/books/sort.ts |
| books_stats.dfy | BooksStats | server/api/books/stats.ts |
| price_format.dfy | PriceFormat | utils/formatPrice.ts |
| auth_session.dfy | AuthSession | server/api/auth/*.ts |
| auth_client.dfy | AuthClient | plugins/auth.ts, middleware/global.ts, middleware/auth.ts |
| app_config.dfy | AppConfig | utils/config.ts |
| schema_rewrite.dfy | SchemaRewrite | scripts/update-prisma-config.mjs |

### Assumptions about the store

The store's schema and client are not part of this model. The handlers
depend on the following, which the model states as assumptions:

- **Book columns.**
  - `title` is required.
  - `isbn`, `price` and `borrowedBy` default to null and `sortOrder` to 0.
  - `addedAt` is set from the clock, which the model passes in as the
    parameter `now`.
  - `isbn` is unique and category `name` is unique.
- **Name order.** The store compares names by code point, so
  `ORDER BY name` is `Ordering.StrLessEq`.
- **Id validation.** The store client accepts an id only when it is a
  number with no fractional part (`CatalogStore.ClientId`).
  - Any other id makes the client throw.
  - In categories.ts and stats.ts that throw becomes a 500.
  - In books.ts the throw is caught and becomes a 400.
- **Cascade on delete.**
  - Deleting a category removes its links.
  - Deleting a book removes its links. server/api/books.ts says nothing
    about links, so this is an assumption.
- **Sort batch.** The batch in sort.ts is built with `.map` before any
  update runs.
  - A null element makes `.map` throw first: the answer is 500 and nothing
    changes.
  - Otherwise every update the client accepts is applied. There is no
    transaction and no rollback.
  - Updates are applied in list order, so when two entries name the same
    book the later one wins.
  - A `sortOrder` of `undefined` leaves the column unchanged.

### Behaviour of the code worth noting

- server/api/book-categories.ts:171-181 creates a link from the book id and
  the category id alone. No per-category order is assigned to it.
- server/api/book-categories.ts handles GET, POST and DELETE only
  (lines 13, 109 and 198). No request reorders the links within a category.
- server/api/book-categories.ts:41-44 and :84-87 list associations with no
  `orderBy`, so the model returns them as maps keyed by id.
- server/api/books/sort.ts:21-36 sends every update and answers 500 if one
  fails. The updates the store accepted stay applied.
- server/api/auth/login.post.ts:11-15 and :37-40 answer a failed login with
  status 200 and `success: false`.
- server/api/categories.ts:51 and :96 trim the name only to test it for
  emptiness. The name is stored and compared as sent (lines 62 and 76).

## Model

| member | source | states |
|---|---|---|
| JsValues.Trim | server/api/categories.ts:51 | the trimmed text neither starts nor ends with white space and is no longer than the input |
| JsValues.TrimIsSlice | server/api/categories.ts:51 | the trimmed text is a slice of the input, and everything cut off on either side is white space |
| JsValues.TrimEmptyIffBlank | server/api/categories.ts:51 | the trimmed text is empty exactly when every character of the input is white space |
| JsValues.ParseInt | server/api/book-categories.ts:120-121 | a number is read as its truncation; undefined, null, booleans, objects and NaN read as NaN |
| JsValues.ParseIntString | server/api/book-categories.ts:120-121 | blank text reads as NaN, and a negative result comes only from a leading '-'; digit strings are read as their value (DigitsParseInt, NatToStringNumber) |
| JsValues.StringToNumber | server/api/books.ts:54 | an empty or all-blank string is 0 |
| JsValues.ParseFloat | server/api/books/stats.ts:24 | blank text reads as NaN, and a negative result comes only from a leading '-'; what it adds to a total is stated by BooksStats.PriceValue |
| JsValues.NatToStringNumber | server/api/books.ts:54 | a decimal id written out is read back as that id by both `Number` and `parseInt` |
| JsValues.DigitsNumber | server/api/books.ts:54 | a non-empty string of digits is read by `Number` as its decimal value |
| JsValues.DigitsParseInt | server/api/book-categories.ts:120-121 | any non-empty digit string, leading zeros included, is read by `parseInt` as its decimal value |
| Ordering.SortKeys | server/api/categories.ts:24-26 | the listing holds every key exactly once and is sorted by the given total preorder |
| Ordering.StrLessEqTotal | server/api/categories.ts:24-26 | any two names are comparable in code-point order |
| Ordering.StrLessEqTransitive | server/api/categories.ts:24-26 | code-point order is transitive |
| Ordering.StrLessEqAntisymmetric | server/api/categories.ts:24-26 | two names ordered both ways are equal |
| CatalogStore.ClientId | server/api/books.ts:64-65 | the client takes exactly the integral numbers as ids, with the same value |
| CatalogStore.Patched | server/api/books.ts:64-67 | every field the body gives takes the given value, and every field it leaves out keeps its old value |
| CatalogStore.BooksIn | server/api/book-categories.ts:60-92 | a book is in a category's set exactly when it exists and is linked to it |
| CatalogStore.LinkCount | server/api/categories.ts:30-34 | the count is the number of links naming the category |
| CatalogStore.LinksCountBooks | server/api/categories.ts:30-34 | links of one category are as many as the distinct books they name |
| CatalogStore.LinkCountIsBooksIn | server/api/books/stats.ts:35-40 | with links closed over books, a category's link count is the number of its books |
| CatalogStore.Store.SetSortOrder | server/api/books/sort.ts:22-25 | the update writes the one `sortOrder` column of the one row, keeps `Valid()` and leaves every other table and counter alone |
| BookCategoriesApi.Get | server/api/book-categories.ts:13-106 | bookId wins over categoryId; an unreadable id gives 400, an unknown one 404, neither parameter 400; otherwise the result is exactly the linked categories (or books) with their rows |
| BookCategoriesApi.LinkIds | server/api/book-categories.ts:113-128 | a falsy id gives 400 "图书ID和分类ID不能为空"; the ids are accepted exactly when both are truthy and `parseInt` reads both |
| BookCategoriesApi.Link | server/api/book-categories.ts:109-195 | the book is checked before the category and then the duplicate; success adds exactly the pair; any failure changes nothing; books and categories never change |
| BookCategoriesApi.Unlink | server/api/book-categories.ts:198-262 | a missing pair gives 404 and no change; an existing pair is removed alone, with the message naming the category and the book |
| BookCategoriesApi.LinkThenUnlink | server/api/book-categories.ts:171-181 | a successful link followed by the unlink of the same pair restores the link set; after a duplicate refusal the unlink succeeds and removes the pair |
| CategoriesApi.ByNameTotal | server/api/categories.ts:24-26 | ordering categories by name is a total preorder on their ids |
| CategoriesApi.ListCategories | server/api/categories.ts:13-44 | every category exactly once, strictly ascending by name, each with its row and a bookCount equal to its number of links |
| CategoriesApi.ListingProperties | server/api/categories.ts:13-44 | ids sorted by name without repeats, over distinct names, give rows naming every category once, with its columns and link count, in strictly ascending name order |
| CategoriesApi.Create | server/api/categories.ts:47-89 | a missing, non-string or blank name gives 400; an exactly equal existing name gives 400; a truthy non-string description gives 500; otherwise exactly one category is added under the next id, with the untrimmed name and the description or null; name distinctness is kept |
| CategoriesApi.NewDescription | server/api/categories.ts:140-143 | undefined keeps the description, null clears it, a string sets it, anything else is refused |
| CategoriesApi.Update | server/api/categories.ts:92-154 | missing id or invalid name gives 400, an id the store refuses 500, an unknown id 404, a name held by another category 400, a description the store refuses 500 "更新分类失败"; renaming to its own name succeeds; success changes only that row |
| CategoriesApi.Delete | server/api/categories.ts:157-198 | a falsy id gives 400, an id the store refuses 500, an unknown id 404; success removes the category and exactly its links and leaves books untouched |
| CategoriesApi.CreateThenDelete | server/api/categories.ts:73-81 | deleting a category just created succeeds and restores categories and links |
| CategoriesApi.BookCountMatchesListing | server/api/categories.ts:30-34 | a category's bookCount equals the number of books the association listing returns for it |
| BooksApi.FindByIsbn | server/api/books.ts:19-24 | null exactly when no book has the isbn; otherwise the one book that has it |
| BooksApi.NewestFirstTotal | server/api/books.ts:28 | ordering books by addedAt descending is a total preorder |
| BooksApi.ListBooks | server/api/books.ts:26-30 | every book exactly once with its row, addedAt non-increasing along the list |
| BooksApi.ListingProperties | server/api/books.ts:26-30 | ids sorted newest first without repeats give rows naming every book once, with its row, addedAt non-increasing |
| BooksApi.Get | server/api/books.ts:15-31 | a non-empty isbn gives the single lookup; otherwise the full listing |
| BooksApi.NewBook | server/api/books.ts:38-40 | a new row is the default row with the body's fields applied |
| BooksApi.Create | server/api/books.ts:34-49 | 400 "创建书籍失败" exactly when the title is missing or the isbn is taken, with no change; every other request succeeds and adds one row under the next id |
| BooksApi.LastSegmentShape | server/api/books.ts:54 | the segment is a suffix of the path, holds no '/', and is preceded by '/' when shorter than the path |
| BooksApi.LastSegment | server/api/books.ts:54 | the segment is no longer than the path; its exact shape is stated by LastSegmentShape |
| BooksApi.PathId | server/api/books.ts:54-80 | `Number` of the last segment; a path ending in '/' gives id 0, because `Number('')` is 0; an id written after '/' reads back (PathOfId) |
| BooksApi.Target | server/api/books.ts:64-65 | a row is targeted exactly when the id is integral and exists |
| BooksApi.Update | server/api/books.ts:52-76 | a NaN id gives 400 before any change; an unknown id or a taken isbn gives 400 "更新书籍失败"; for a known id every request whose isbn is not taken by another book succeeds and patches only the supplied fields of that row |
| BooksApi.Delete | server/api/books.ts:79-101 | a NaN id gives 400; an unknown id gives 400 "删除书籍失败" with no change; success removes exactly that book (and its links) |
| BooksApi.PathOfId | server/api/books.ts:54 | the id in `/…/<id>` is read back as that id |
| BooksApi.LastSegmentOfDigits | server/api/books.ts:54 | a digit string after the last '/' is the segment taken |
| BooksSort.ApplyOne | server/api/books/sort.ts:22-25 | one update keeps the set of book ids |
| BooksSort.ApplyAll | server/api/books/sort.ts:21-28 | the updates applied in list order keep the set of book ids; what they change is stated by ApplyAllEffect, UnlistedUnchanged and ApplyAllIdempotent |
| BooksSort.SortBooks | server/api/books/sort.ts:4-44 | non-PUT gives 405, a non-array body 400, a null entry 500, each with no change; otherwise the table is the batch applied in list order and success holds exactly when every entry is accepted; categories and links never change |
| BooksSort.ApplyAllEffect | server/api/books/sort.ts:21-28 | each book changes at most in sortOrder, which becomes the last value assigned to it |
| BooksSort.UnlistedUnchanged | server/api/books/sort.ts:21-28 | a book no entry names keeps its whole row |
| BooksSort.DistinctAssigns | server/api/books/sort.ts:21-30 | with distinct ids each listed book ends with its assigned sortOrder and nothing else changes |
| BooksSort.LastAssignedCases | server/api/books/sort.ts:21-28 | once a book is assigned, its starting sortOrder no longer matters |
| BooksSort.ApplyAllIdempotent | server/api/books/sort.ts:21-28 | applying a batch twice gives the state of applying it once |
| BooksStats.PriceValue | server/api/books/stats.ts:23-26 | a null or empty price counts 0, an unparseable one 0, a parseable one its value |
| BooksStats.TotalValue | server/api/books/stats.ts:23-26 | the summed price of a set of books; books without a price sum to 0; the order of the fold does not matter (TotalValueRemove) |
| BooksStats.TotalValueRemove | server/api/books/stats.ts:23-26 | the sum does not depend on the order in which books are added |
| BooksStats.UnreadablePriceAddsNothing | server/api/books/stats.ts:23-26 | a book with a null or unparseable price leaves the total unchanged |
| BooksStats.Overall | server/api/books/stats.ts:12-26 | total is the number of books, borrowed the number with a non-null borrower, available their difference, between 0 and total |
| BooksStats.CategoryFigures | server/api/books/stats.ts:35-54 | the category's total is its link count and its number of books; borrowed is the number of its books with a truthy borrower, available the difference; its value is the summed price of its books |
| BooksStats.CategoryStats | server/api/books/stats.ts:29-56 | no or empty categoryId, or a NaN one, gives null; a number that is not whole fails with 500 "获取图书统计失败"; a whole number always succeeds with the figures of that category |
| BooksStats.Breakdown | server/api/books/stats.ts:59-80 | exactly one row per category, with its id, its name, its link count and the summed price of its books |
| BooksStats.GetStats | server/api/books/stats.ts:9-104 | non-GET gives 405; otherwise the overall figures, the category figures and the breakdown, or 500 when the category id is refused |
| BooksStats.CategoryAgreesWithBreakdown | server/api/books/stats.ts:34-80 | category figures and breakdown row agree on count and value |
| BooksStats.UnknownCategoryIsZero | server/api/books/stats.ts:31-55 | a categoryId that reads as a whole number naming no category gives a successful answer with all-zero figures, not an error |
| BooksStats.EmptyBorrowerCountsOnlyOverall | server/api/books/stats.ts:14 | an empty-string borrower counts as borrowed overall but not in its category |
| PriceFormat.FormatPrice | utils/formatPrice.ts:8-29 | null, undefined, '' and NaN give '未知'; text with '¥' or '￥' is returned unchanged; non-numeric text is returned unchanged; otherwise '¥' and a two-decimal number free of currency signs |
| PriceFormat.WithYen | utils/formatPrice.ts:28 | '¥' followed by `toFixed(2)` of the value |
| PriceFormat.ToFixed2 | utils/formatPrice.ts:28 | a minus sign exactly for a negative value, an integer part without superfluous leading zeros, a point and exactly two fractional digits; reading it back gives the value rounded to cents |
| PriceFormat.Round2 | utils/formatPrice.ts:28 | rounding moves the value by at most half a cent and leaves whole cents alone |
| PriceFormat.ParsePrice | utils/formatPrice.ts:38-56 | null, undefined, '' and NaN give 0; a number gives itself; text whose cleaned form is not a number gives 0 |
| PriceFormat.RemoveCurrencySigns | utils/formatPrice.ts:50 | no currency sign is left, text without one is unchanged, a sign alone gives '' and any other single character stays |
| PriceFormat.RemoveCurrencySignsConcat | utils/formatPrice.ts:50 | removal works piece by piece, so the characters around the signs are kept in order |
| PriceFormat.ParseIgnoresCurrencySigns | utils/formatPrice.ts:49-53 | parsing a text equals parsing it with every currency sign removed |
| PriceFormat.ParseOfFormattedNumber | utils/formatPrice.ts:28-52 | parsing the display of x gives x rounded to cents, and x itself when x has at most two decimals |
| PriceFormat.ParseOfFormattedText | utils/formatPrice.ts:20-52 | the same round trip from a numeric string |
| PriceFormat.FormatOfNumber | utils/formatPrice.ts:20-28 | a number is displayed as '¥' and its `toFixed(2)` |
| PriceFormat.ToFixed2Unpadded | utils/formatPrice.ts:28-50 | `toFixed(2)` neither starts nor ends with white space, so trimming leaves it alone |
| PriceFormat.ParseOfYen | utils/formatPrice.ts:49-52 | '¥' before an unpadded number text without currency signs parses to that number |
| PriceFormat.ParseOfPlainText | utils/formatPrice.ts:49-52 | a number text without currency signs parses to its `Number` value |
| PriceFormat.FormatIdempotent | utils/formatPrice.ts:15-17 | formatting a display again changes nothing |
| AuthSession.SessionCookieFor | server/api/auth/login.post.ts:21-29 | value 'authenticated', httpOnly, path '/', max-age 1209600 seconds, secure only in production |
| AuthSession.CookieJar.Login | server/api/auth/login.post.ts:1-41 | missing credentials and any mismatch fail with their messages and leave the jar alone; an exact match sets the session cookie and succeeds; a live session stays live |
| AuthSession.CookieJar.Logout | server/api/auth/logout.post.ts:1-12 | always succeeds; removes only the session cookie, after which verify is false; without a session cookie it changes nothing |
| AuthSession.Verify | server/api/auth/verify.ts:1-11 | logged in exactly when the session cookie equals 'authenticated' |
| AuthSession.Session | server/api/auth/session.ts:4-15 | echoes all cookies and the session cookie (absent when missing), with the same decision as verify |
| AuthSession.LoginUntilLogout | server/api/auth/verify.ts:6 | a successful login is seen by verify and by the session endpoint; a failed one leaves their answer as it was; after logout, and after a second logout, verify is false and the jar is the pre-login jar less the session cookie |
| AuthClient.AuthPlugin.constructor | plugins/auth.ts:3 | the flag starts false |
| AuthClient.AuthPlugin.SetLoggedIn | plugins/auth.ts:15-17 | the flag becomes the given value |
| AuthClient.AuthPlugin.Login | plugins/auth.ts:20-38 | a truthy success sets the flag; otherwise the flag stays and the server's message (or '登录失败') is returned; a failed request returns '登录失败，请稍后重试' |
| AuthClient.AuthPlugin.Logout | plugins/auth.ts:41-51 | the flag is false afterwards whether or not the request failed |
| AuthClient.DebugEnabled | middleware/global.ts:4 | debug is on exactly for the string 'true' |
| AuthClient.AuthGuard | middleware/auth.ts:1-13 | '/login' passes; other paths pass exactly when the flag is set and otherwise go to '/login'; never redirects a page to itself |
| AuthClient.GlobalGuard | middleware/global.ts:1-40 | '/login' passes; '/debug' with debug off goes to '/'; otherwise the flag becomes the verify answer (false on failure) and the decision is the client guard's |
| AppConfig.FirstExisting | utils/config.ts:53-59 | the index is that of an existing candidate with no existing candidate before it, or none exists |
| AppConfig.FindConfigPath | utils/config.ts:53-59 | the loop chooses the first existing candidate in list order, or the empty path |
| AppConfig.Validate | utils/config.ts:70-83 | the isbn key, admin and server checks run in order and the first failing one decides the error; a passing document is returned unchanged |
| AppConfig.LoadConfig | utils/config.ts:42-88 | no existing candidate throws '配置文件 config.yaml 未找到'; otherwise the chosen document is validated |
| AppConfig.ZeroPortRefused | utils/config.ts:79-81 | a server port of 0 is refused |
| SchemaRewrite.MatchAt | scripts/update-prisma-config.mjs:26 | a match at i ends after i within the text; MatchAtSound and MatchAtComplete state that it finds exactly the pattern's matches |
| SchemaRewrite.SkipSpace | scripts/update-prisma-config.mjs:26 | `\s*` stops at the first character that is not white space |
| SchemaRewrite.SkipNonQuote | scripts/update-prisma-config.mjs:26 | `[^"]*` stops at the first double quote |
| SchemaRewrite.MatchAtSound | scripts/update-prisma-config.mjs:26 | every match the scanner reports has the pattern's shape |
| SchemaRewrite.MatchAtComplete | scripts/update-prisma-config.mjs:26 | every span of the pattern's shape is found by the scanner |
| SchemaRewrite.FirstMatch | scripts/update-prisma-config.mjs:29-30 | the leftmost match, or none anywhere |
| SchemaRewrite.UpdateDatasourceUrl | scripts/update-prisma-config.mjs:29-34 | the corrected rewrite: with no match the text is unchanged; RewriteShape, RewriteIdempotent and RewriteLastWins state the rest |
| SchemaRewrite.RewriteShape | scripts/update-prisma-config.mjs:29-34 | with no match the text is unchanged; otherwise the text before and after the first match is kept and `url = "<url>"` is written in its place |
| SchemaRewrite.NewLineMatches | scripts/update-prisma-config.mjs:26-27 | the written line with a quote-free url matches the pattern over exactly its own length |
| SchemaRewrite.NoEarlierMatch | scripts/update-prisma-config.mjs:26-30 | after a rewrite no match starts before the written line |
| SchemaRewrite.RewriteLastWins | scripts/update-prisma-config.mjs:26-31 | rewriting twice is rewriting once with the later url |
| SchemaRewrite.RewriteIdempotent | scripts/update-prisma-config.mjs:26-31 | for a url without a double quote, running the rewrite twice equals running it once |
| SchemaRewrite.WrittenLineIsFirst | scripts/update-prisma-config.mjs:26-30 | in the rewritten text the written line is the first match |
| SchemaRewrite.Expand | scripts/update-prisma-config.mjs:30 | the `$` substitution of `replace`: a template without '$' is copied as it is; ExpandDollarPair shows '$$' becoming '$' |
| SchemaRewrite.ExpandDollarPair | scripts/update-prisma-config.mjs:27-30 | a '$$' in the written line becomes one '$' |
| SchemaRewrite.UpdateAsWritten | scripts/update-prisma-config.mjs:29-30 | the rewrite as written: with no match the text is unchanged, and the text before the first match is kept; the replacement goes through Expand |
| SchemaRewrite.AsWrittenAgreesWithoutDollar | scripts/update-prisma-config.mjs:30 | for a url without '$' the script's rewrite and the literal one agree |
| SchemaRewrite.RewriteOfLine | scripts/update-prisma-config.mjs:29-30 | on a text that is one quote-free line, the script writes the expanded template and the corrected rewrite writes the new line |
| SchemaRewrite.DollarPairCollapses | scripts/update-prisma-config.mjs:30 | the script turns url 'a$$b' into 'a$b'; the literal rewrite keeps 'a$$b' |

## Left out

- The 500 branches for store or connection failures other than a refused
  id: the store is total in this model.
- Handlers that return nothing for an HTTP method they do not handle are
  not modelled. For example, categories.ts and book-categories.ts answer
  nothing for PATCH.
- Ids passed as arrays or objects in queries or bodies: query parameters
  are strings and body ids are scalar `Value`s.
- BooksApi.Create: server/api/books.ts passes `data: body` straight to the
  store, and a book row has further columns (author, publisher, pubdate,
  summary, pages, coverUrl and others, filled in server/api/isbn.ts:49-70).
  The body is modelled as six columns: isbn, title, price, borrowedBy,
  addedAt and sortOrder. BooksApi.Update and CatalogStore.Patched have the
  same limit.
- BooksApi.Create: a body field of the wrong type (for example `title: 5`)
  is refused by the store client, giving 400 "创建书籍失败". BooksApi.Update
  gives 400 "更新书籍失败" for the same reason. Neither is modelled: every
  given field is taken to have its column's type.
- BooksApi.Create: a body `id` gives the new row that id instead of the next
  one. In BooksApi.Update a body `id` changes the row's id. Neither is
  modelled: the body has no `id` column.
- The 32-bit range check the store applies to ids: ids are unbounded
  integers.
- A request whose body is missing, so that reading `body.name` or
  `body.books` throws.
- JsValues.StringToNumber: the model reads only an optionally signed
  decimal. Exponents, `Infinity`, and hexadecimal, octal and binary
  prefixes are not read, and give NaN.
- JsValues.ParseFloat: it reads no exponent and no `Infinity`.
- JsValues.ParseInt: the string form of a number is its truncation. Numbers
  whose string form uses an exponent (at or above 1e21, or below 1e-6) are
  not modelled.
- BooksStats.PriceValue: sums are exact reals, not IEEE doubles. The
  rounding of `parseFloat` and of repeated addition is not captured.
- PriceFormat.ToFixed2: `toFixed(2)` rounds the exact decimal half away
  from zero. It does not model the binary representation of the double,
  which can round some halves down. For a magnitude of 1e21 or more,
  `toFixed(2)` writes the exponent form, so formatPrice(1e21) is "¥1e+21".
  The model always writes two fractional digits, and PriceFormat.FormatPrice
  inherits this.
- BooksSort.SortBooks: `Promise.all` runs the updates concurrently. The
  model applies them one at a time in list order. Interleavings and the
  point at which the 500 is sent are not modelled.
- BookCategoriesApi.Get: the listings are maps keyed by id, because the
  store is asked for no order.
- AuthSession.CookieJar.Login: the browser's expiry of the cookie after
  fourteen days is not modelled. A present cookie stays valid.
- AppConfig.LoadConfig: these parts are abstracted:
  - reading the file and parsing YAML become the map of parsed documents;
  - an empty or unparsable file is not modelled;
  - logging is not modelled.
- SchemaRewrite.UpdateDatasourceUrl: these parts are not modelled:
  - reading and writing schema.prisma;
  - loading config.yaml;
  - the `process.exit` paths;
  - a `database.url` that is not a string.
- Routing of `/api/books/{id}` to its own file: server/api/books/[id].ts is
  not part of this model.

## Findings

| source | as written | input that shows it | evidently intended | confidence | as-written member | corrected member |
|---|---|---|---|---|---|---|
| scripts/update-prisma-config.mjs:30 | `replace` with a string replacement expands `$$`, `$&`, `` $` `` and `$'` in the configured url | schema line `url = "x"` with database url `a$$b` is rewritten to `url = "a$b"` | the url is written into the schema exactly as configured | high (proved about the model; not executed) | SchemaRewrite.DollarPairCollapses | SchemaRewrite.RewriteShape |
