/**
 * The state the services act on: the coupon-book, coupon-code and
 * assignment tables, the append-only redemption audit trail and the lock
 * cache, with the repository writes and the invariants every service call
 * keeps.
 */
module Store {
  import opened Wrappers
  import opened Entities
  import opened Errors
  import Codes = CodeRepository
  import Assignments = AssignmentRepository
  import Books = BookRepository

  /** The value cached under a lock key: who holds the lock and until when. */
  datatype LockData = LockData(codeId: Id, userId: Id, lockedAt: Timestamp, expiresAt: Timestamp)

  const LockKeyPrefix: string := "coupon:lock:"

  /** `getLockKey(codeId)`. */
  function LockKey(codeId: Id): (key: string)
    ensures |key| == |LockKeyPrefix| + |codeId| && key[..|LockKeyPrefix|] == LockKeyPrefix
  {
    LockKeyPrefix + codeId
  }

  /** Distinct codes never share a lock key. */
  lemma LockKeyInjective(a: Id, b: Id)
    requires LockKey(a) == LockKey(b)
    ensures a == b
  {
    assert a == LockKey(a)[|LockKeyPrefix|..];
  }

  /**
   * A cache read at time `now`: an entry stored with a TTL is gone once its
   * expiry time is reached.
   */
  function CacheGet(cache: map<string, LockData>, key: string, now: Timestamp): (entry: Option<LockData>)
    ensures entry.Some? ==> key in cache && entry.value == cache[key] && now < entry.value.expiresAt
    ensures entry.None? ==> key !in cache || now >= cache[key].expiresAt
  {
    if key in cache && now < cache[key].expiresAt then Some(cache[key]) else None
  }

  /** `config.features.redisCache ? cache.get(key) : null`. */
  function ReadLock(redisCache: bool, cache: map<string, LockData>, key: string, now: Timestamp): (entry: Option<LockData>)
    ensures !redisCache ==> entry.None?
    ensures entry.Some? ==> entry == CacheGet(cache, key, now)
  {
    if redisCache then CacheGet(cache, key, now) else None
  }

  /**
   * `getRetryAfterSeconds(expiresAt)`: `max(0, ceil((expiresAt - now) / 1000))`,
   * the least whole number of seconds covering the rest of the lock.
   */
  function RetryAfterSeconds(expiresAt: Timestamp, now: Timestamp): (seconds: nat)
    ensures seconds * 1000 >= expiresAt - now
    ensures seconds > 0 ==> (seconds - 1) * 1000 < expiresAt - now
  {
    var remaining := expiresAt - now;
    var up := -((-remaining) / 1000);
    if up < 0 then 0 else up
  }

  /** A live lock always asks the client to wait at least one second. */
  lemma RetryAfterLiveLock(expiresAt: Timestamp, now: Timestamp)
    requires now < expiresAt
    ensures RetryAfterSeconds(expiresAt, now) >= 1
  {
  }

  /** The foreign key `coupon_codes.book_id -> coupon_books.id`. */
  predicate CodesReferenceBooks(codes: seq<CouponCode>, books: seq<CouponBook>) {
    forall c :: c in codes ==> c.bookId in Books.BookIds(books)
  }

  /** The foreign key `coupon_assignments.code_id -> coupon_codes.id`. */
  predicate AssignmentsReferenceCodes(assignments: seq<CouponAssignment>, codes: seq<CouponCode>) {
    forall a :: a in assignments ==> a.codeId in Codes.CodeIds(codes)
  }

  /** Primary keys, the unique code column and the two foreign keys. */
  predicate TablesValid(codes: seq<CouponCode>, assignments: seq<CouponAssignment>, books: seq<CouponBook>) {
    Codes.UniqueCodes(codes) && Assignments.UniqueAssignmentIds(assignments) && Books.UniqueBookIds(books)
    && CodesReferenceBooks(codes, books) && AssignmentsReferenceCodes(assignments, codes)
  }

  /** Quotas, when set, are positive (the bound the book API accepts). */
  predicate QuotasPositive(books: seq<CouponBook>) {
    forall b :: b in books ==>
      (b.maxRedeemsPerUser.Some? ==> b.maxRedeemsPerUser.value > 0)
      && (b.maxCodesPerUser.Some? ==> b.maxCodesPerUser.value > 0)
  }

  /** The book whose policy governs an assignment: the book of its code. */
  function GoverningBook(codes: seq<CouponCode>, books: seq<CouponBook>, a: CouponAssignment): Option<CouponBook> {
    match Codes.FindById(codes, a.codeId)
    case None => None
    case Some(c) => Books.FindById(books, c.bookId)
  }

  /** An assignment has not been redeemed more often than its book allows. */
  predicate WithinRedeemQuota(codes: seq<CouponCode>, books: seq<CouponBook>, a: CouponAssignment) {
    match GoverningBook(codes, books, a)
    case None => true
    case Some(b) => b.maxRedeemsPerUser.None? || a.redeemCount <= b.maxRedeemsPerUser.value
  }

  /** `redeemCount <= maxRedeemsPerUser` for every assignment whose book sets a maximum. */
  predicate RedeemQuotaRespected(codes: seq<CouponCode>, assignments: seq<CouponAssignment>, books: seq<CouponBook>) {
    QuotasPositive(books) && forall a :: a in assignments ==> WithinRedeemQuota(codes, books, a)
  }

  /**
   * The status changes one call may make to one code: none, a claim
   * (AVAILABLE to ASSIGNED), a lock, an unlock, or a final redemption.
   */
  predicate StatusStep(before: CodeStatus, after: CodeStatus) {
    before == after
    || (before == Available && after == Assigned)
    || (before == Assigned && after == Locked)
    || (before == Locked && after == Assigned)
    || ((before == Assigned || before == Locked) && after == Redeemed)
  }

  /**
   * One call's effect on the code table: existing rows keep their position
   * and every column but the status, statuses move by `StatusStep`, and new
   * rows are appended AVAILABLE.
   */
  predicate CodesStep(before: seq<CouponCode>, after: seq<CouponCode>) {
    |before| <= |after|
    && (forall i :: 0 <= i < |before| ==>
          after[i].(status := before[i].status) == before[i] && StatusStep(before[i].status, after[i].status))
    && (forall i :: |before| <= i < |after| ==> after[i].status == Available)
  }

  /** The audit trail only grows, by at most one row. */
  predicate AuditStep(before: seq<RedemptionAudit>, after: seq<RedemptionAudit>) {
    before <= after && |after| <= |before| + 1
  }

  /** REDEEMED is never left, and no single step goes from AVAILABLE to REDEEMED. */
  lemma StatusStepFacts(before: CodeStatus, after: CodeStatus)
    requires StatusStep(before, after)
    ensures before == Redeemed ==> after == Redeemed
    ensures before == Available ==> after != Redeemed && after != Locked
    ensures after == Redeemed ==> before != Available
  {
  }

  /**
   * Along any run of calls, a code that was REDEEMED is still REDEEMED, and
   * still the same code of the same book.
   */
  lemma {:induction false} RedeemedStaysRedeemed(run: seq<seq<CouponCode>>, i: nat)
    requires |run| > 0 && i < |run[0]|
    requires forall k :: 0 <= k < |run| - 1 ==> CodesStep(run[k], run[k + 1])
    ensures i < |run[|run| - 1]|
    ensures run[|run| - 1][i].id == run[0][i].id && run[|run| - 1][i].bookId == run[0][i].bookId
    ensures run[0][i].status == Redeemed ==> run[|run| - 1][i].status == Redeemed
  {
    if |run| > 1 {
      var prefix := run[..|run| - 1];
      RedeemedStaysRedeemed(prefix, i);
      var k := |run| - 2;
      assert CodesStep(run[k], run[k + 1]);
      assert run[k][i].(status := run[k][i].status) == run[k][i];
      assert run[k + 1][i].(status := run[k][i].status) == run[k][i];
    }
  }

  /** The rows a batch insert may add without violating a key or the unique code column. */
  predicate Insertable(codes: seq<CouponCode>, books: seq<CouponBook>, rows: seq<CouponCode>) {
    (forall r :: r in rows ==> r.code !in Codes.CodeStrings(codes) && r.bookId in Books.BookIds(books))
    && (forall i, j :: 0 <= i < j < |rows| ==> rows[i].code != rows[j].code)
  }

  /** Generated primary keys: distinct among themselves and unused in the table. */
  predicate FreshCodeIds(codes: seq<CouponCode>, rows: seq<CouponCode>) {
    (forall r :: r in rows ==> r.id !in Codes.CodeIds(codes))
    && (forall i, j :: 0 <= i < j < |rows| ==> rows[i].id != rows[j].id)
  }

  lemma AppendCodesValid(codes: seq<CouponCode>, assignments: seq<CouponAssignment>, books: seq<CouponBook>, rows: seq<CouponCode>)
    requires TablesValid(codes, assignments, books)
    requires Insertable(codes, books, rows) && FreshCodeIds(codes, rows)
    ensures TablesValid(codes + rows, assignments, books)
  {
    var all := codes + rows;
    forall i, j | 0 <= i < j < |all| ensures all[i].id != all[j].id && all[i].code != all[j].code {
      if j >= |codes| && i < |codes| {
        assert all[j] in rows;
        assert all[i].id in Codes.CodeIds(codes) && all[i].code in Codes.CodeStrings(codes);
      } else if i >= |codes| {
        assert all[i] == rows[i - |codes|] && all[j] == rows[j - |codes|];
      }
    }
    forall a | a in assignments ensures a.codeId in Codes.CodeIds(all) {
      var c :| c in codes && c.id == a.codeId;
      assert c in all;
    }
  }

  class CouponStore {
    var codes: seq<CouponCode>
    var assignments: seq<CouponAssignment>
    var books: seq<CouponBook>
    var audit: seq<RedemptionAudit>
    var cache: map<string, LockData>
    const auditLogging: bool
    const redisCache: bool
    const lockTtlSeconds: int

    /** An empty database and cache, with the feature flags and lock TTL of the configuration. */
    constructor(auditLogging: bool, redisCache: bool, lockTtlSeconds: int)
      ensures this.auditLogging == auditLogging && this.redisCache == redisCache
      ensures this.lockTtlSeconds == lockTtlSeconds
      ensures codes == [] && assignments == [] && books == [] && audit == [] && cache == map[]
      ensures Valid() && RedeemQuotaRespected(codes, assignments, books)
    {
      this.auditLogging := auditLogging;
      this.redisCache := redisCache;
      this.lockTtlSeconds := lockTtlSeconds;
      codes := [];
      assignments := [];
      books := [];
      audit := [];
      cache := map[];
    }

    predicate Valid()
      reads this
    {
      TablesValid(codes, assignments, books)
    }

    /** `couponCode.repository.ts` `updateStatus(id, status)`. */
    method UpdateStatus(id: Id, status: CodeStatus)
      requires Valid()
      modifies this
      ensures codes == Codes.WithStatus(old(codes), id, status)
      ensures assignments == old(assignments) && books == old(books)
      ensures audit == old(audit) && cache == old(cache)
      ensures Valid()
    {
      codes := Codes.WithStatus(codes, id, status);
    }

    /**
     * `couponCode.repository.ts` `bulkCreate(rows)`: all rows are inserted in
     * one statement, or none when one breaks the unique code column or the
     * book foreign key.
     */
    method BulkCreateCodes(rows: seq<CouponCode>) returns (r: Result<seq<CouponCode>>)
      requires Valid() && FreshCodeIds(codes, rows)
      modifies this
      ensures Insertable(old(codes), books, rows) ==> r == Ok(rows) && codes == old(codes) + rows
      ensures !Insertable(old(codes), books, rows) ==> r == Err(QueryFailedError()) && unchanged(this)
      ensures assignments == old(assignments) && books == old(books)
      ensures audit == old(audit) && cache == old(cache)
      ensures Valid()
    {
      if Insertable(codes, books, rows) {
        AppendCodesValid(codes, assignments, books, rows);
        codes := codes + rows;
        r := Ok(rows);
      } else {
        r := Err(QueryFailedError());
      }
    }

    /** `couponAssignment.repository.ts` `create(a)`: one row more, if its code exists. */
    method CreateAssignment(a: CouponAssignment) returns (r: Result<CouponAssignment>)
      requires Valid() && a.id !in Assignments.AssignmentIds(assignments)
      modifies this
      ensures a.codeId in Codes.CodeIds(old(codes)) ==> r == Ok(a) && assignments == old(assignments) + [a]
      ensures a.codeId !in Codes.CodeIds(old(codes)) ==> r == Err(QueryFailedError()) && assignments == old(assignments)
      ensures codes == old(codes) && books == old(books)
      ensures audit == old(audit) && cache == old(cache)
      ensures Valid()
    {
      if a.codeId in Codes.CodeIds(codes) {
        assignments := assignments + [a];
        r := Ok(a);
      } else {
        r := Err(QueryFailedError());
      }
    }

    /** `couponAssignment.repository.ts` `delete(id)`. */
    method DeleteAssignment(id: Id)
      requires Valid()
      modifies this
      ensures assignments == Assignments.Without(old(assignments), id)
      ensures codes == old(codes) && books == old(books)
      ensures audit == old(audit) && cache == old(cache)
      ensures Valid()
    {
      assignments := Assignments.Without(assignments, id);
    }

    /** `couponBook.repository.ts` `create(book)`. */
    method CreateBook(book: CouponBook)
      requires Valid() && book.id !in Books.BookIds(books)
      modifies this
      ensures books == old(books) + [book]
      ensures codes == old(codes) && assignments == old(assignments)
      ensures audit == old(audit) && cache == old(cache)
      ensures Valid()
    {
      books := books + [book];
    }

    /** `couponBook.repository.ts` `incrementGeneratedCount(id, amount)`. */
    method IncrementGeneratedCount(id: Id, amount: int)
      requires Valid()
      modifies this
      ensures books == Books.WithGeneratedCountIncrement(old(books), id, amount)
      ensures codes == old(codes) && assignments == old(assignments)
      ensures audit == old(audit) && cache == old(cache)
      ensures Valid()
    {
      books := Books.WithGeneratedCountIncrement(books, id, amount);
    }

    /** `couponBook.repository.ts` `update(id, patch)`. */
    method UpdateBook(id: Id, patch: Books.BookPatch)
      requires Valid()
      modifies this
      ensures books == Books.WithPatch(old(books), id, patch)
      ensures codes == old(codes) && assignments == old(assignments)
      ensures audit == old(audit) && cache == old(cache)
      ensures Valid()
    {
      books := Books.WithPatch(books, id, patch);
    }

    /** `couponBook.repository.ts` `save(book)`: an update of the row with its id, or an insert. */
    method SaveBook(book: CouponBook)
      requires Valid()
      modifies this
      ensures book.id in Books.BookIds(old(books)) ==> books == Books.WithSaved(old(books), book)
      ensures book.id !in Books.BookIds(old(books)) ==> books == old(books) + [book]
      ensures codes == old(codes) && assignments == old(assignments)
      ensures audit == old(audit) && cache == old(cache)
      ensures Valid()
    {
      if book.id in Books.BookIds(books) {
        books := Books.WithSaved(books, book);
      } else {
        books := books + [book];
      }
    }

    /** `couponBook.repository.ts` `delete(id)`: refused while a code of the book exists. */
    method DeleteBook(id: Id) returns (r: Result<()>)
      requires Valid()
      modifies this
      ensures (exists c :: c in old(codes) && c.bookId == id) ==> r == Err(QueryFailedError()) && books == old(books)
      ensures (forall c :: c in old(codes) ==> c.bookId != id) ==> r == Ok(()) && books == Books.Without(old(books), id)
      ensures codes == old(codes) && assignments == old(assignments)
      ensures audit == old(audit) && cache == old(cache)
      ensures Valid()
    {
      if exists c :: c in codes && c.bookId == id {
        r := Err(QueryFailedError());
      } else {
        books := Books.Without(books, id);
        r := Ok(());
      }
    }
  }
}
