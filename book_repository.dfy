/**
 * The coupon-book table (a sequence of rows in insertion order): its read
 * queries and the row changes of `incrementGeneratedCount`, `update`,
 * `save` and `delete`, as functions of the table.
 */
module BookRepository {
  import opened Wrappers
  import opened Entities
  import opened Seqs

  function BookIds(books: seq<CouponBook>): set<Id> {
    set b | b in books :: b.id
  }

  /** The primary key `id`. */
  predicate UniqueBookIds(books: seq<CouponBook>) {
    forall i, j :: 0 <= i < j < |books| ==> books[i].id != books[j].id
  }

  /** `findById`: the book with that id, or null. */
  function FindById(books: seq<CouponBook>, id: Id): (found: Option<CouponBook>)
    ensures found.Some? ==> found.value in books && found.value.id == id
    ensures found.None? <==> id !in BookIds(books)
  {
    if books == [] then None
    else if books[0].id == id then Some(books[0])
    else
      assert BookIds(books) == {books[0].id} + BookIds(books[1..]);
      FindById(books[1..], id)
  }

  /** With unique ids, `findById` returns the very row carrying the id. */
  lemma {:induction false} FindByIdUnique(books: seq<CouponBook>, b: CouponBook)
    requires UniqueBookIds(books) && b in books
    ensures FindById(books, b.id) == Some(b)
  {
    if books[0] != b {
      assert books[0].id != b.id;
      FindByIdUnique(books[1..], b);
    }
  }

  function CreatedAt(b: CouponBook): int {
    b.createdAt
  }

  /**
   * The WHERE clause of `findAll`: the business filter applies only when a
   * non-empty id is given, the status filter only when a status is given.
   */
  function FindAllFilter(businessId: Option<Id>, status: Option<BookStatus>): CouponBook -> bool {
    (b: CouponBook) =>
      (businessId.None? || businessId.value == "" || b.businessId == businessId.value)
      && (status.None? || b.status == status.value)
  }

  /** `findAll(filters)`, `created_at DESC`. */
  function FindAll(books: seq<CouponBook>, businessId: Option<Id>, status: Option<BookStatus>): (rows: seq<CouponBook>)
    ensures businessId.Some? && businessId.value != "" ==>
      forall b :: b in rows ==> b.businessId == businessId.value
    ensures status.Some? ==> forall b :: b in rows ==> b.status == status.value
    ensures (businessId.None? || businessId.value == "") && status.None? ==> forall b :: b in rows <==> b in books
    ensures forall b :: (b in books && (businessId.None? || businessId.value == "" || b.businessId == businessId.value)
                         && (status.None? || b.status == status.value)) ==> b in rows
    ensures forall b :: b in rows ==> b in books
    ensures |rows| <= |books|
    ensures Ascending(books, CreatedAt) ==> Descending(rows, CreatedAt)
  {
    var p := FindAllFilter(businessId, status);
    ReverseSameElements(Filter(books, p));
    assert Ascending(books, CreatedAt) ==> Descending(Reverse(Filter(books, p)), CreatedAt) by {
      if Ascending(books, CreatedAt) {
        NewestFirst(books, p, CreatedAt);
      }
    }
    Reverse(Filter(books, p))
  }

  /** `findActiveByBusiness`: the ACTIVE books of a business (whatever their expiry). */
  function FindActiveByBusiness(books: seq<CouponBook>, businessId: Id): (rows: seq<CouponBook>)
    ensures forall b :: b in rows <==> b in books && b.businessId == businessId && b.status == Active
  {
    Filter(books, (b: CouponBook) => b.businessId == businessId && b.status == Active)
  }

  /** `findExpiredBooks`: `expires_at IS NOT NULL AND expires_at < NOW()`. */
  function FindExpiredBooks(books: seq<CouponBook>, now: Timestamp): (rows: seq<CouponBook>)
    ensures forall b :: b in rows <==> b in books && IsExpired(b, now)
  {
    Filter(books, (b: CouponBook) => b.expiresAt.Some? && b.expiresAt.value < now)
  }

  /** The table after `incrementGeneratedCount(id, amount)`. */
  function WithGeneratedCountIncrement(books: seq<CouponBook>, id: Id, amount: int): (updated: seq<CouponBook>)
    ensures |updated| == |books|
    ensures forall i :: 0 <= i < |books| && books[i].id == id ==>
      updated[i].generatedCount == books[i].generatedCount + amount
    ensures forall i :: 0 <= i < |books| ==> updated[i].(generatedCount := books[i].generatedCount) == books[i]
    ensures forall i :: 0 <= i < |books| && books[i].id != id ==> updated[i] == books[i]
    ensures BookIds(updated) == BookIds(books)
    ensures UniqueBookIds(books) ==> UniqueBookIds(updated)
  {
    seq(|books|, i requires 0 <= i < |books| =>
      if books[i].id == id then books[i].(generatedCount := books[i].generatedCount + amount) else books[i])
  }

  /**
   * The columns a `Partial<CouponBook>` given to `update` can set, apart
   * from the key `id` and `createdAt`; `None` leaves the column alone
   * (nullable columns take `Some(None)` for null).
   */
  datatype BookPatch = BookPatch(
    businessId: Option<Id>,
    name: Option<string>,
    description: Option<Option<string>>,
    maxRedeemsPerUser: Option<Option<int>>,
    maxCodesPerUser: Option<Option<int>>,
    status: Option<BookStatus>,
    totalCodesExpected: Option<Option<int>>,
    generatedCount: Option<int>,
    expiresAt: Option<Option<Timestamp>>)

  /** One row with a patch applied: every given column is set, the others (and id, creation time) kept. */
  function Patched(b: CouponBook, patch: BookPatch): (p: CouponBook)
    ensures p.id == b.id && p.createdAt == b.createdAt
    ensures p.businessId == patch.businessId.GetOr(b.businessId)
    ensures p.generatedCount == patch.generatedCount.GetOr(b.generatedCount)
    ensures p.name == patch.name.GetOr(b.name)
    ensures p.description == patch.description.GetOr(b.description)
    ensures p.maxRedeemsPerUser == patch.maxRedeemsPerUser.GetOr(b.maxRedeemsPerUser)
    ensures p.maxCodesPerUser == patch.maxCodesPerUser.GetOr(b.maxCodesPerUser)
    ensures p.status == patch.status.GetOr(b.status)
    ensures p.totalCodesExpected == patch.totalCodesExpected.GetOr(b.totalCodesExpected)
    ensures p.expiresAt == patch.expiresAt.GetOr(b.expiresAt)
  {
    b.(businessId := patch.businessId.GetOr(b.businessId),
       name := patch.name.GetOr(b.name),
       description := patch.description.GetOr(b.description),
       maxRedeemsPerUser := patch.maxRedeemsPerUser.GetOr(b.maxRedeemsPerUser),
       maxCodesPerUser := patch.maxCodesPerUser.GetOr(b.maxCodesPerUser),
       status := patch.status.GetOr(b.status),
       totalCodesExpected := patch.totalCodesExpected.GetOr(b.totalCodesExpected),
       generatedCount := patch.generatedCount.GetOr(b.generatedCount),
       expiresAt := patch.expiresAt.GetOr(b.expiresAt))
  }

  /** The table after `update(id, patch)`. */
  function WithPatch(books: seq<CouponBook>, id: Id, patch: BookPatch): (updated: seq<CouponBook>)
    ensures |updated| == |books|
    ensures forall i :: 0 <= i < |books| && books[i].id == id ==> updated[i] == Patched(books[i], patch)
    ensures forall i :: 0 <= i < |books| && books[i].id != id ==> updated[i] == books[i]
    ensures BookIds(updated) == BookIds(books)
    ensures UniqueBookIds(books) ==> UniqueBookIds(updated)
  {
    seq(|books|, i requires 0 <= i < |books| => if books[i].id == id then Patched(books[i], patch) else books[i])
  }

  /** The table after `save(book)` of a row that already exists: the row with its id is replaced. */
  function WithSaved(books: seq<CouponBook>, book: CouponBook): (updated: seq<CouponBook>)
    ensures |updated| == |books|
    ensures forall i :: 0 <= i < |books| && books[i].id == book.id ==> updated[i] == book
    ensures forall i :: 0 <= i < |books| && books[i].id != book.id ==> updated[i] == books[i]
    ensures BookIds(updated) == BookIds(books)
    ensures UniqueBookIds(books) ==> UniqueBookIds(updated)
  {
    seq(|books|, i requires 0 <= i < |books| => if books[i].id == book.id then book else books[i])
  }

  /** After saving over an existing row of a table with unique ids, `findById` returns the saved row. */
  lemma SavedRowFound(books: seq<CouponBook>, book: CouponBook)
    requires UniqueBookIds(books) && book.id in BookIds(books)
    ensures FindById(WithSaved(books, book), book.id) == Some(book)
  {
    var updated := WithSaved(books, book);
    var i :| 0 <= i < |books| && books[i].id == book.id;
    assert updated[i] == book;
    FindByIdUnique(updated, book);
  }

  /** The table after `delete(id)`. */
  function Without(books: seq<CouponBook>, id: Id): (rest: seq<CouponBook>)
    ensures forall b :: b in rest <==> b in books && b.id != id
    ensures BookIds(rest) == BookIds(books) - {id}
    ensures UniqueBookIds(books) ==> UniqueBookIds(rest)
  {
    if books == [] then []
    else
      var rest := Without(books[1..], id);
      assert BookIds(books) == {books[0].id} + BookIds(books[1..]);
      if books[0].id == id then rest else [books[0]] + rest
  }
}
