/**
 * Claiming an AVAILABLE code for a user: a random one from a book's pool
 * (`assignRandomCode`) or a named one (`assignSpecificCode`), and the
 * listing of a user's assignments. The checks made before the database
 * transaction are pure functions of the state; the transaction re-reads the
 * code row, moves it to ASSIGNED and inserts the assignment row. No audit
 * row is written and the lock cache is not touched.
 */
module AssignmentService {
  import opened Wrappers
  import opened Entities
  import opened Errors
  import opened Store
  import opened Seqs
  import Codes = CodeRepository
  import Assignments = AssignmentRepository
  import Books = BookRepository
  import Preservation
  import Randomness
  import Decimal
  import RedemptionService
  import BookService

  /** What an assign call returns: the assignment joined with its code and book. */
  datatype AssignView = AssignView(
    id: Id, codeId: Id, code: string, userId: Id, bookId: Id, bookName: string, assignedAt: Timestamp)

  /** The message of the per-user code quota error. */
  function CodeQuotaMessage(max: int): string {
    "User has reached the maximum limit of " + Decimal.IntToString(max) + " codes for this book"
  }

  /** A user already holding `maxCodesPerUser` codes of the book gets no more. */
  function CodeQuotaGuard(codes: seq<CouponCode>, assignments: seq<CouponAssignment>, book: CouponBook,
                          userId: Id, bookId: Id): Result<()>
  {
    if book.maxCodesPerUser.Some?
       && Assignments.CountByUserAndBook(assignments, codes, userId, bookId) >= book.maxCodesPerUser.value
    then Err(BadRequestError(CodeQuotaMessage(book.maxCodesPerUser.value)))
    else Ok(())
  }

  /** The user may take one more code of the book. */
  predicate UnderCodeQuota(codes: seq<CouponCode>, assignments: seq<CouponAssignment>, book: CouponBook,
                           userId: Id, bookId: Id)
  {
    book.maxCodesPerUser.None?
    || Assignments.CountByUserAndBook(assignments, codes, userId, bookId) < book.maxCodesPerUser.value
  }

  // ---------------------------------------------------------------- random code

  /** The book a random assignment draws from, and its pool of AVAILABLE codes. */
  datatype Pool = Pool(book: CouponBook, codes: seq<CouponCode>)

  /** `assignRandomCode` up to the draw: book, activity, expiry, quota and pool checks. */
  function RandomPrecheck(codes: seq<CouponCode>, assignments: seq<CouponAssignment>, books: seq<CouponBook>,
                          userId: Id, bookId: Id, now: Timestamp): (r: Result<Pool>)
    ensures r.Ok? ==> r.value.book in books && r.value.book.id == bookId && IsActive(r.value.book, now)
    ensures r.Ok? ==> UnderCodeQuota(codes, assignments, r.value.book, userId, bookId)
    ensures r.Ok? ==> r.value.codes == Codes.FindAvailableByBook(codes, bookId) && |r.value.codes| > 0
  {
    var book :- BookService.GetById(books, bookId);
    if !IsActive(book, now) then Err(BadRequestError("This coupon book is not active"))
    else if IsExpired(book, now) then Err(BadRequestError("This coupon book has expired"))
    else
      var _ :- CodeQuotaGuard(codes, assignments, book, userId, bookId);
      var pool := Codes.FindAvailableByBook(codes, bookId);
      if |pool| == 0 then Err(BadRequestError("No available codes in this book"))
      else Ok(Pool(book, pool))
  }

  /**
   * The checks of `assignRandomCode`, in order: a missing book is NotFound,
   * an inactive (in particular an expired) book, a user at the quota and an
   * empty pool are BadRequest; the expiry error itself is never raised.
   */
  lemma RandomPrecheckRules(codes: seq<CouponCode>, assignments: seq<CouponAssignment>, books: seq<CouponBook>,
                            userId: Id, bookId: Id, now: Timestamp)
    ensures var r := RandomPrecheck(codes, assignments, books, userId, bookId, now);
      (bookId !in Books.BookIds(books) ==>
        r == Err(NotFoundError("Coupon book with ID " + bookId + " not found")) && r.error.statusCode == 404)
      && (forall b :: b in books && b.id == bookId && Books.UniqueBookIds(books) ==>
        (!IsActive(b, now) ==> r == Err(BadRequestError("This coupon book is not active")))
        && (IsActive(b, now) && !UnderCodeQuota(codes, assignments, b, userId, bookId) ==>
              r == Err(BadRequestError(CodeQuotaMessage(b.maxCodesPerUser.value))))
        && (IsActive(b, now) && UnderCodeQuota(codes, assignments, b, userId, bookId) ==>
              (r.Ok? <==> |Codes.FindAvailableByBook(codes, bookId)| > 0)))
      && (r.Err? && bookId in Books.BookIds(books) ==> r.error.statusCode == 400)
      && r != Err(BadRequestError("This coupon book has expired"))
  {
    BaseErrorStatuses();
    forall b | b in books && b.id == bookId && Books.UniqueBookIds(books)
      ensures Books.FindById(books, bookId) == Some(b)
    {
      Books.FindByIdUnique(books, b);
    }
    assert |"This coupon book has expired"| != |"This coupon book is not active"|;
    assert |"This coupon book has expired"| != |"No available codes in this book"|;
    assert forall m :: "This coupon book has expired" != CodeQuotaMessage(m) by {
      forall m ensures "This coupon book has expired" != CodeQuotaMessage(m) {
        assert CodeQuotaMessage(m)[0] == 'U';
      }
    }
  }

  /** `availableCodes[Math.floor(Math.random() * availableCodes.length)]`. */
  function PickCode(pool: seq<CouponCode>, draw: real): (c: CouponCode)
    requires Randomness.IsDraw(draw) && |pool| > 0
    ensures c in pool
  {
    pool[Randomness.RandomIndex(draw, |pool|)]
  }

  // ---------------------------------------------------------------- the transaction

  /**
   * Claiming the code `codeId` moves it to ASSIGNED and appends the new
   * assignment: the keys, the legal status moves and the redeem quota are
   * kept.
   */
  lemma AssignKeepsInvariants(codes: seq<CouponCode>, assignments: seq<CouponAssignment>, books: seq<CouponBook>,
                              codeId: Id, a: CouponAssignment)
    requires TablesValid(codes, assignments, books)
    requires Codes.FindById(codes, codeId).Some? && Codes.FindById(codes, codeId).value.status == Available
    requires a.id !in Assignments.AssignmentIds(assignments) && a.codeId == codeId && a.redeemCount == 0
    ensures TablesValid(Codes.WithStatus(codes, codeId, Assigned), assignments + [a], books)
    ensures CodesStep(codes, Codes.WithStatus(codes, codeId, Assigned))
    ensures RedeemQuotaRespected(codes, assignments, books) ==>
      RedeemQuotaRespected(Codes.WithStatus(codes, codeId, Assigned), assignments + [a], books)
  {
    var codes2 := Codes.WithStatus(codes, codeId, Assigned);
    Preservation.StatusChange(codes, assignments, books, codeId, Assigned);
    Preservation.AssignmentAppended(codes2, assignments, books, a);
  }

  /**
   * The transaction of both assign calls: the row is re-read with
   * `status = AVAILABLE`; when it is gone or no longer AVAILABLE the call
   * fails with `lostMessage` and nothing is written, otherwise the code
   * becomes ASSIGNED and one assignment row `newId` is inserted.
   */
  method AssignTransaction(st: CouponStore, codeId: Id, userId: Id, bookId: Id, newId: Id, now: Timestamp,
                           lostMessage: string)
    returns (r: Result<CouponAssignment>)
    requires st.Valid() && newId !in Assignments.AssignmentIds(st.assignments)
    modifies st
    ensures var row := Codes.FindById(old(st.codes), codeId);
      row.Some? && row.value.status == Available ==>
        r == Ok(NewAssignment(newId, codeId, userId, bookId, now))
        && st.codes == Codes.WithStatus(old(st.codes), codeId, Assigned)
        && st.assignments == old(st.assignments) + [r.value]
    ensures var row := Codes.FindById(old(st.codes), codeId);
      row.None? || row.value.status != Available ==>
        r == Err(BadRequestError(lostMessage)) && unchanged(st)
    ensures st.books == old(st.books) && st.audit == old(st.audit) && st.cache == old(st.cache)
    ensures st.Valid() && CodesStep(old(st.codes), st.codes)
    ensures old(RedeemQuotaRespected(st.codes, st.assignments, st.books)) ==> RedeemQuotaRespected(st.codes, st.assignments, st.books)
  {
    var row := Codes.FindById(st.codes, codeId);
    if row.None? || row.value.status != Available {
      return Err(BadRequestError(lostMessage));
    }
    var a := NewAssignment(newId, codeId, userId, bookId, now);
    AssignKeepsInvariants(st.codes, st.assignments, st.books, codeId, a);
    st.codes, st.assignments := Codes.WithStatus(st.codes, codeId, Assigned), st.assignments + [a];
    r := Ok(a);
  }

  /**
   * `assignRandomCode(userId, bookId)` at time `now`; `draw` is the value of
   * `Math.random()` and `newId` the key the database gives the new row.
   */
  method AssignRandomCode(st: CouponStore, userId: Id, bookId: Id, draw: real, newId: Id, now: Timestamp)
    returns (result: Result<AssignView>)
    requires st.Valid() && Randomness.IsDraw(draw) && newId !in Assignments.AssignmentIds(st.assignments)
    modifies st
    ensures st.Valid() && CodesStep(old(st.codes), st.codes)
    ensures st.books == old(st.books) && st.audit == old(st.audit) && st.cache == old(st.cache)
    ensures old(RedeemQuotaRespected(st.codes, st.assignments, st.books)) ==> RedeemQuotaRespected(st.codes, st.assignments, st.books)
    ensures var p := old(RandomPrecheck(st.codes, st.assignments, st.books, userId, bookId, now));
      p.Err? ==> result == Err(p.error) && unchanged(st)
    ensures var p := old(RandomPrecheck(st.codes, st.assignments, st.books, userId, bookId, now));
      p.Ok? ==>
        var c := PickCode(p.value.codes, draw);
        result == Ok(AssignView(newId, c.id, c.code, userId, bookId, p.value.book.name, now))
        && st.codes == Codes.WithStatus(old(st.codes), c.id, Assigned)
        && st.assignments == old(st.assignments) + [NewAssignment(newId, c.id, userId, bookId, now)]
  {
    var pre := RandomPrecheck(st.codes, st.assignments, st.books, userId, bookId, now);
    if pre.Err? {
      return Err(pre.error);
    }
    var c := PickCode(pre.value.codes, draw);
    Codes.FindByIdUnique(st.codes, c);
    var r := AssignTransaction(st, c.id, userId, pre.value.book.id, newId, now, "Selected code is no longer available");
    assert r.Ok?;
    result := Ok(AssignView(newId, c.id, c.code, userId, bookId, pre.value.book.name, now));
  }

  // ---------------------------------------------------------------- specific code

  /** The code a specific assignment names, and its book. */
  datatype Choice = Choice(code: CouponCode, book: CouponBook)

  function FindAvailableCode(codes: seq<CouponCode>, code: string): Result<CouponCode> {
    match Codes.FindByCode(codes, code)
    case None => Err(NotFoundError("Coupon code '" + code + "' not found"))
    case Some(c) =>
      if c.status != Available
      then Err(BadRequestError("Coupon code '" + code + "' is not available (status: " + CodeStatusName(c.status) + ")"))
      else Ok(c)
  }

  /** `assignSpecificCode` up to the transaction: code, status, book and quota checks. */
  function SpecificPrecheck(codes: seq<CouponCode>, assignments: seq<CouponAssignment>, books: seq<CouponBook>,
                            code: string, userId: Id, now: Timestamp): (r: Result<Choice>)
    ensures r.Ok? ==> r.value.code in codes && r.value.code.code == code && r.value.code.status == Available
    ensures r.Ok? ==> r.value.book in books && r.value.book.id == r.value.code.bookId && IsActive(r.value.book, now)
    ensures r.Ok? ==> UnderCodeQuota(codes, assignments, r.value.book, userId, r.value.code.bookId)
  {
    var c :- FindAvailableCode(codes, code);
    var book :- RedemptionService.BookGuard(books, c, now);
    var _ :- CodeQuotaGuard(codes, assignments, book, userId, c.bookId);
    Ok(Choice(c, book))
  }

  /**
   * The checks of `assignSpecificCode`, in order: the code's existence and
   * status are decided before the book is looked at; then the book guard
   * and the quota of the code's book.
   */
  lemma SpecificPrecheckRules(codes: seq<CouponCode>, assignments: seq<CouponAssignment>, books: seq<CouponBook>,
                              code: string, userId: Id, now: Timestamp)
    requires Codes.UniqueCodes(codes)
    ensures var r := SpecificPrecheck(codes, assignments, books, code, userId, now);
      (code !in Codes.CodeStrings(codes) ==> r == Err(NotFoundError("Coupon code '" + code + "' not found")))
      && (forall c :: c in codes && c.code == code ==>
        (c.status != Available ==>
          r == Err(BadRequestError("Coupon code '" + code + "' is not available (status: " + CodeStatusName(c.status) + ")"))
          && r.error.statusCode == 400)
        && (c.status == Available && RedemptionService.BookGuard(books, c, now).Err? ==>
          r == RedemptionService.BookGuard(books, c, now).PropagateFailure())
        && (c.status == Available && RedemptionService.BookGuard(books, c, now).Ok? ==>
          var b := RedemptionService.BookGuard(books, c, now).value;
          (UnderCodeQuota(codes, assignments, b, userId, c.bookId) <==> r == Ok(Choice(c, b)))
          && (!UnderCodeQuota(codes, assignments, b, userId, c.bookId) ==>
                r == Err(BadRequestError(CodeQuotaMessage(b.maxCodesPerUser.value))))))
  {
    BaseErrorStatuses();
    forall c | c in codes && c.code == code
      ensures Codes.FindByCode(codes, code) == Some(c)
    {
      Codes.FindByCodeUnique(codes, c);
    }
  }

  /** `assignSpecificCode(code, userId)` at time `now`; `newId` is the key of the new row. */
  method AssignSpecificCode(st: CouponStore, code: string, userId: Id, newId: Id, now: Timestamp)
    returns (result: Result<AssignView>)
    requires st.Valid() && newId !in Assignments.AssignmentIds(st.assignments)
    modifies st
    ensures st.Valid() && CodesStep(old(st.codes), st.codes)
    ensures st.books == old(st.books) && st.audit == old(st.audit) && st.cache == old(st.cache)
    ensures old(RedeemQuotaRespected(st.codes, st.assignments, st.books)) ==> RedeemQuotaRespected(st.codes, st.assignments, st.books)
    ensures var p := old(SpecificPrecheck(st.codes, st.assignments, st.books, code, userId, now));
      p.Err? ==> result == Err(p.error) && unchanged(st)
    ensures var p := old(SpecificPrecheck(st.codes, st.assignments, st.books, code, userId, now));
      p.Ok? ==>
        var c := p.value.code;
        result == Ok(AssignView(newId, c.id, c.code, userId, c.bookId, p.value.book.name, now))
        && st.codes == Codes.WithStatus(old(st.codes), c.id, Assigned)
        && st.assignments == old(st.assignments) + [NewAssignment(newId, c.id, userId, c.bookId, now)]
  {
    var pre := SpecificPrecheck(st.codes, st.assignments, st.books, code, userId, now);
    if pre.Err? {
      return Err(pre.error);
    }
    var c := pre.value.code;
    Codes.FindByIdUnique(st.codes, c);
    var r := AssignTransaction(st, c.id, userId, c.bookId, newId, now, "Code is no longer available");
    assert r.Ok?;
    result := Ok(AssignView(newId, c.id, c.code, userId, c.bookId, pre.value.book.name, now));
  }

  // ---------------------------------------------------------------- effect of a claim

  /** Claiming a code changes that code's row only, and only its status. */
  lemma OnlyClaimedCodeChanges(codes: seq<CouponCode>, c: CouponCode)
    requires Codes.UniqueCodes(codes) && c in codes
    ensures forall i :: 0 <= i < |codes| ==>
      Codes.WithStatus(codes, c.id, Assigned)[i] == if codes[i] == c then c.(status := Assigned) else codes[i]
  {
  }

  /**
   * A claim of code `c` by user `a.userId` adds one to that user's count in
   * the code's book and leaves every other (user, book) count alone.
   */
  lemma {:induction false} ClaimCountsTowardsQuota(codes: seq<CouponCode>, assignments: seq<CouponAssignment>,
                                                   c: CouponCode, a: CouponAssignment, userId: Id, bookId: Id)
    requires Codes.UniqueCodes(codes) && c in codes && a.codeId == c.id
    ensures Assignments.CountByUserAndBook(assignments + [a], Codes.WithStatus(codes, c.id, Assigned), userId, bookId)
         == Assignments.CountByUserAndBook(assignments, codes, userId, bookId)
            + (if userId == a.userId && bookId == c.bookId then 1 else 0)
  {
    var codes2 := Codes.WithStatus(codes, c.id, Assigned);
    var p := Assignments.HeldInBook(codes, userId, bookId);
    var q := Assignments.HeldInBook(codes2, userId, bookId);
    forall k | 0 <= k < |assignments| ensures q(assignments[k]) == p(assignments[k]) {
      Codes.FindByIdWithStatus(codes, c.id, Assigned, assignments[k].codeId);
    }
    CountWhereSame(assignments, q, p);
    CountWhereAppend(assignments, a, q);
    Codes.FindByIdUnique(codes, c);
    Codes.FindByIdWithStatus(codes, c.id, Assigned, c.id);
  }

  /**
   * The code quota holds after a claim: the user had fewer codes of the book
   * than its maximum, and has exactly one more.
   */
  lemma ClaimWithinCodeQuota(codes: seq<CouponCode>, assignments: seq<CouponAssignment>, book: CouponBook,
                             c: CouponCode, a: CouponAssignment)
    requires Codes.UniqueCodes(codes) && c in codes && a.codeId == c.id
    requires UnderCodeQuota(codes, assignments, book, a.userId, c.bookId)
    ensures var after := Assignments.CountByUserAndBook(assignments + [a], Codes.WithStatus(codes, c.id, Assigned), a.userId, c.bookId);
      after == Assignments.CountByUserAndBook(assignments, codes, a.userId, c.bookId) + 1
      && (book.maxCodesPerUser.Some? ==> after <= book.maxCodesPerUser.value)
  {
    ClaimCountsTowardsQuota(codes, assignments, c, a, a.userId, c.bookId);
  }

  /**
   * In a book with `maxCodesPerUser = 1`, a user's first random claim uses
   * up the quota: the next random claim in that book, while the book is
   * still active, is refused with the quota error.
   */
  lemma SecondClaimRefused(codes: seq<CouponCode>, assignments: seq<CouponAssignment>, books: seq<CouponBook>,
                           userId: Id, bookId: Id, draw: real, newId: Id, now: Timestamp, later: Timestamp)
    requires TablesValid(codes, assignments, books) && Randomness.IsDraw(draw)
    requires RandomPrecheck(codes, assignments, books, userId, bookId, now).Ok?
    requires RandomPrecheck(codes, assignments, books, userId, bookId, now).value.book.maxCodesPerUser == Some(1)
    requires IsActive(RandomPrecheck(codes, assignments, books, userId, bookId, now).value.book, later)
    ensures var c := PickCode(RandomPrecheck(codes, assignments, books, userId, bookId, now).value.codes, draw);
      RandomPrecheck(Codes.WithStatus(codes, c.id, Assigned), assignments + [NewAssignment(newId, c.id, userId, bookId, now)],
                     books, userId, bookId, later)
      == Err(BadRequestError(CodeQuotaMessage(1)))
  {
    var p := RandomPrecheck(codes, assignments, books, userId, bookId, now).value;
    var c := PickCode(p.codes, draw);
    var a := NewAssignment(newId, c.id, userId, bookId, now);
    ClaimWithinCodeQuota(codes, assignments, p.book, c, a);
    Books.FindByIdUnique(books, p.book);
  }

  // ---------------------------------------------------------------- listing

  /** One listed assignment: its code string, and the book of its code. */
  function ViewOf(codes: seq<CouponCode>, books: seq<CouponBook>, a: CouponAssignment): AssignView
    requires a.codeId in Codes.CodeIds(codes) && CodesReferenceBooks(codes, books)
  {
    var c := Codes.FindById(codes, a.codeId).value;
    var b := Books.FindById(books, c.bookId).value;
    AssignView(a.id, a.codeId, c.code, a.userId, c.bookId, b.name, a.assignedAt)
  }

  /**
   * `getUserAssignments(userId)`: the user's assignments, newest first, each
   * with its code string and the book of its code (not the assignment's own
   * `bookId` column).
   */
  function GetUserAssignments(codes: seq<CouponCode>, assignments: seq<CouponAssignment>, books: seq<CouponBook>,
                              userId: Id): (views: seq<AssignView>)
    requires TablesValid(codes, assignments, books)
    ensures var rows := Assignments.FindUserAssignments(assignments, userId);
      |views| == |rows|
      && forall i :: 0 <= i < |rows| ==>
        views[i].id == rows[i].id && views[i].codeId == rows[i].codeId && views[i].userId == userId
        && views[i].assignedAt == rows[i].assignedAt
        && (exists c :: c in codes && c.id == rows[i].codeId && views[i].code == c.code && views[i].bookId == c.bookId
              && exists b :: b in books && b.id == c.bookId && views[i].bookName == b.name)
  {
    var rows := Assignments.FindUserAssignments(assignments, userId);
    seq(|rows|, i requires 0 <= i < |rows| => ViewOf(codes, books, rows[i]))
  }

  /** Every assignment of the user is listed, and only those; newest first when rows are inserted in time order. */
  lemma UserAssignmentsComplete(codes: seq<CouponCode>, assignments: seq<CouponAssignment>, books: seq<CouponBook>,
                                userId: Id)
    requires TablesValid(codes, assignments, books)
    ensures var views := GetUserAssignments(codes, assignments, books, userId);
      (forall a :: a in assignments && a.userId == userId ==> exists v :: v in views && v.id == a.id && v.codeId == a.codeId)
      && (forall v :: v in views ==> v.userId == userId && exists a :: a in assignments && a.id == v.id)
      && (Ascending(assignments, Assignments.AssignedAt) ==>
            forall i, j :: 0 <= i < j < |views| ==> views[i].assignedAt >= views[j].assignedAt)
  {
    var views := GetUserAssignments(codes, assignments, books, userId);
    var rows := Assignments.FindUserAssignments(assignments, userId);
    forall a | a in assignments && a.userId == userId
      ensures exists v :: v in views && v.id == a.id && v.codeId == a.codeId
    {
      var i :| 0 <= i < |rows| && rows[i] == a;
      assert views[i] in views;
    }
    forall v | v in views ensures v.userId == userId && exists a :: a in assignments && a.id == v.id {
      var i :| 0 <= i < |views| && views[i] == v;
      assert rows[i] in rows;
    }
  }
}
