/**
 * Coupon-book administration: creating a book (always as a DRAFT, with
 * absent quotas meaning unlimited), reading one by id, updating the fields
 * an update may touch, and the per-status code counts of a book.
 */
module BookService {
  import opened Wrappers
  import opened Entities
  import opened Errors
  import opened Store
  import Codes = CodeRepository
  import Books = BookRepository
  import Preservation

  /**
   * The accepted input of `create`. Absent optional fields are `None`; the
   * quotas and the expected total, when given, are positive integers.
   */
  datatype CreateBookInput = CreateBookInput(
    businessId: Id,
    name: string,
    description: Option<string>,
    maxRedeemsPerUser: Option<int>,
    maxCodesPerUser: Option<int>,
    totalCodesExpected: Option<int>,
    expiresAt: Option<Timestamp>)

  /** The bounds the create request validation enforces on the numeric fields. */
  predicate ValidCreateInput(input: CreateBookInput) {
    (input.maxRedeemsPerUser.Some? ==> input.maxRedeemsPerUser.value > 0)
    && (input.maxCodesPerUser.Some? ==> input.maxCodesPerUser.value > 0)
    && (input.totalCodesExpected.Some? ==> input.totalCodesExpected.value > 0)
  }

  /**
   * The row `create` inserts: the status is DRAFT whatever the request says,
   * absent quotas and expected total are null (unlimited), and
   * `generated_count` takes its default 0.
   */
  function NewBook(input: CreateBookInput, id: Id, now: Timestamp): (b: CouponBook)
    ensures b.id == id && b.businessId == input.businessId && b.name == input.name
    ensures b.status == Draft && b.generatedCount == 0 && b.createdAt == now
    ensures b.maxRedeemsPerUser == input.maxRedeemsPerUser && b.maxCodesPerUser == input.maxCodesPerUser
    ensures b.description == input.description && b.totalCodesExpected == input.totalCodesExpected
    ensures b.expiresAt == input.expiresAt
    ensures forall t :: !IsActive(b, t)
  {
    CouponBook(id, input.businessId, input.name, input.description, input.maxRedeemsPerUser,
               input.maxCodesPerUser, Draft, input.totalCodesExpected, 0, now, input.expiresAt)
  }

  /** Appending a book keeps every assignment's governing book, so the redeem quota holds on. */
  lemma BookAddedKeepsQuota(codes: seq<CouponCode>, assignments: seq<CouponAssignment>, books: seq<CouponBook>,
                            book: CouponBook)
    requires TablesValid(codes, assignments, books) && TablesValid(codes, assignments, books + [book])
    requires book.maxRedeemsPerUser.Some? ==> book.maxRedeemsPerUser.value > 0
    requires book.maxCodesPerUser.Some? ==> book.maxCodesPerUser.value > 0
    ensures RedeemQuotaRespected(codes, assignments, books) ==> RedeemQuotaRespected(codes, assignments, books + [book])
  {
    if RedeemQuotaRespected(codes, assignments, books) {
      CodesUnchangedKept(codes);
      Preservation.BookAppendedKeepsPolicies(books, book);
      Preservation.QuotaKept(codes, assignments, books, codes, books + [book]);
    }
  }

  lemma CodesUnchangedKept(codes: seq<CouponCode>)
    ensures Preservation.CodeBooksKept(codes, codes)
  {
    forall c | c in codes ensures exists c2 :: c2 in codes && c2.id == c.id && c2.bookId == c.bookId {
      assert c in codes;
    }
  }

  /** `create(dto)` at time `now`; `newId` is the key the database gives the row. */
  method Create(st: CouponStore, input: CreateBookInput, newId: Id, now: Timestamp) returns (book: CouponBook)
    requires st.Valid() && ValidCreateInput(input) && newId !in Books.BookIds(st.books)
    modifies st
    ensures book == NewBook(input, newId, now)
    ensures st.books == old(st.books) + [book]
    ensures st.codes == old(st.codes) && st.assignments == old(st.assignments)
    ensures st.audit == old(st.audit) && st.cache == old(st.cache)
    ensures st.Valid()
    ensures old(RedeemQuotaRespected(st.codes, st.assignments, st.books)) ==> RedeemQuotaRespected(st.codes, st.assignments, st.books)
  {
    book := NewBook(input, newId, now);
    ghost var before := st.books;
    st.CreateBook(book);
    BookAddedKeepsQuota(st.codes, st.assignments, before, book);
  }

  /** `getById(id)`: the book, or NotFound. */
  function GetById(books: seq<CouponBook>, id: Id): (r: Result<CouponBook>)
    ensures r.Ok? <==> id in Books.BookIds(books)
    ensures r.Ok? ==> r.value in books && r.value.id == id
    ensures r.Err? ==> r.error == NotFoundError("Coupon book with ID " + id + " not found") && r.error.statusCode == 404
  {
    BaseErrorStatuses();
    match Books.FindById(books, id)
    case None => Err(NotFoundError("Coupon book with ID " + id + " not found"))
    case Some(b) => Ok(b)
  }

  /** The accepted input of `update`; every field is optional. */
  datatype UpdateBookInput = UpdateBookInput(
    name: Option<string>,
    description: Option<string>,
    status: Option<BookStatus>,
    expiresAt: Option<Timestamp>)

  /**
   * The field merge of `update`: the name is replaced only by a non-empty
   * one, the description whenever one is given (an empty one included), the
   * status and expiry whenever given; no other field changes.
   */
  function ApplyUpdate(b: CouponBook, input: UpdateBookInput): (u: CouponBook)
    ensures u.(name := b.name, description := b.description, status := b.status, expiresAt := b.expiresAt) == b
    ensures u.name != b.name ==> input.name == Some(u.name) && u.name != ""
    ensures input.name.Some? && input.name.value != "" ==> u.name == input.name.value
    ensures input.description.Some? ==> u.description == input.description
    ensures input.description.None? ==> u.description == b.description
    ensures u.status == input.status.GetOr(b.status)
    ensures input.expiresAt.Some? ==> u.expiresAt == input.expiresAt
    ensures input.expiresAt.None? ==> u.expiresAt == b.expiresAt
  {
    var named := if input.name.Some? && input.name.value != "" then b.(name := input.name.value) else b;
    var described := if input.description.Some? then named.(description := input.description) else named;
    var stated := if input.status.Some? then described.(status := input.status.value) else described;
    if input.expiresAt.Some? then stated.(expiresAt := input.expiresAt) else stated
  }

  /** An update changes neither quota, so the redeem quota of every assignment holds on. */
  lemma UpdateKeepsQuota(codes: seq<CouponCode>, assignments: seq<CouponAssignment>, books: seq<CouponBook>,
                         b: CouponBook, input: UpdateBookInput)
    requires TablesValid(codes, assignments, books) && b in books
    requires TablesValid(codes, assignments, Books.WithSaved(books, ApplyUpdate(b, input)))
    ensures RedeemQuotaRespected(codes, assignments, books) ==>
      RedeemQuotaRespected(codes, assignments, Books.WithSaved(books, ApplyUpdate(b, input)))
  {
    var u := ApplyUpdate(b, input);
    forall x | x in books && x.id == u.id
      ensures x.maxRedeemsPerUser == u.maxRedeemsPerUser && x.maxCodesPerUser == u.maxCodesPerUser
    {
      Books.FindByIdUnique(books, x);
      Books.FindByIdUnique(books, b);
    }
    if RedeemQuotaRespected(codes, assignments, books) {
      CodesUnchangedKept(codes);
      Preservation.BookSavedKeepsPolicies(books, u);
      Preservation.QuotaKept(codes, assignments, books, codes, Books.WithSaved(books, u));
    }
  }

  /** `update(id, dto)`: read the book, merge the fields, save it. */
  method Update(st: CouponStore, id: Id, input: UpdateBookInput) returns (r: Result<CouponBook>)
    requires st.Valid()
    modifies st
    ensures var found := old(GetById(st.books, id));
      found.Err? ==> r == Err(found.error) && unchanged(st)
    ensures var found := old(GetById(st.books, id));
      found.Ok? ==> r == Ok(ApplyUpdate(found.value, input)) && st.books == Books.WithSaved(old(st.books), r.value)
    ensures st.codes == old(st.codes) && st.assignments == old(st.assignments)
    ensures st.audit == old(st.audit) && st.cache == old(st.cache)
    ensures st.Valid()
    ensures old(RedeemQuotaRespected(st.codes, st.assignments, st.books)) ==> RedeemQuotaRespected(st.codes, st.assignments, st.books)
  {
    var found := GetById(st.books, id);
    if found.Err? {
      return Err(found.error);
    }
    var updated := ApplyUpdate(found.value, input);
    ghost var before := st.books;
    st.SaveBook(updated);
    UpdateKeepsQuota(st.codes, st.assignments, before, found.value, input);
    r := Ok(updated);
  }

  /** A book and its code counts keyed by status. */
  datatype BookStatistics = BookStatistics(book: CouponBook, codeStatistics: map<CodeStatus, nat>)

  /** `stats.reduce((acc, row) => { acc[row.status] = count; return acc }, {})`. */
  function CountsByStatus(rows: seq<Codes.StatusCount>): (acc: map<CodeStatus, nat>)
    ensures forall s :: s in acc <==> exists r :: r in rows && r.status == s
    ensures forall s :: s in acc ==> acc[s] == Codes.LastCount(rows, s)
  {
    if rows == [] then map[]
    else
      var init := rows[..|rows| - 1];
      var last := rows[|rows| - 1];
      assert forall r :: r in rows <==> r in init || r == last;
      CountsByStatus(init)[last.status := last.count]
  }

  /**
   * `getStatistics(id)`: NotFound for an unknown book; otherwise the book
   * and, for every status the book's codes have, the number of them.
   */
  function GetStatistics(codes: seq<CouponCode>, books: seq<CouponBook>, id: Id): (r: Result<BookStatistics>)
    ensures r.Err? <==> id !in Books.BookIds(books)
    ensures r.Err? ==> r.error == GetById(books, id).error
    ensures r.Ok? ==> GetById(books, id) == Ok(r.value.book)
    ensures r.Ok? ==> forall s :: (s in r.value.codeStatistics <==> Codes.CountByBookAndStatus(codes, id, s) > 0)
    ensures r.Ok? ==> forall s :: s in r.value.codeStatistics ==> r.value.codeStatistics[s] == Codes.CountByBookAndStatus(codes, id, s)
  {
    var book :- GetById(books, id);
    var rows := Codes.GetBookStatistics(codes, id);
    var counts := CountsByStatus(rows);
    assert forall s :: (s in counts <==> Codes.CountByBookAndStatus(codes, id, s) > 0) && (s in counts ==> counts[s] == Codes.CountByBookAndStatus(codes, id, s)) by {
      forall s ensures (s in counts <==> Codes.CountByBookAndStatus(codes, id, s) > 0) && (s in counts ==> counts[s] == Codes.CountByBookAndStatus(codes, id, s)) {
        Codes.StatisticsPerStatus(codes, id, s);
      }
    }
    Ok(BookStatistics(book, counts))
  }
}
