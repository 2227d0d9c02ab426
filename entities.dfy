/**
 * The persistent records of the coupon service (coupon books, coupon codes,
 * assignments of codes to users and the redemption audit trail), their
 * enumerations, and the computed getters of the book and assignment entities.
 * Times are integers (milliseconds since the epoch) supplied by the caller.
 */
module Entities {
  import opened Wrappers

  /** Opaque uuid identifiers of rows, users and businesses. */
  type Id = string

  /** Milliseconds since the epoch. */
  type Timestamp = int

  datatype BookStatus = Draft | Active | Closed

  datatype CodeStatus = Available | Assigned | Locked | Redeemed | Expired

  datatype AuditAction = Assign | Lock | Unlock | Redeem | Expire

  /** The string value of a code status, as stored and as shown in messages. */
  function CodeStatusName(s: CodeStatus): string {
    match s
    case Available => "AVAILABLE"
    case Assigned => "ASSIGNED"
    case Locked => "LOCKED"
    case Redeemed => "REDEEMED"
    case Expired => "EXPIRED"
  }

  /** The stored strings of the statuses are pairwise different, so a message names its status exactly. */
  lemma CodeStatusNamesDistinct(s: CodeStatus, t: CodeStatus)
    ensures CodeStatusName(s) == CodeStatusName(t) <==> s == t
  {
  }

  /**
   * A coupon book: the policy container of a set of codes. A quota that is
   * `None` is unlimited; `maxRedeemsPerUser == Some(1)` is a single-use book.
   */
  datatype CouponBook = CouponBook(
    id: Id,
    businessId: Id,
    name: string,
    description: Option<string>,
    maxRedeemsPerUser: Option<int>,
    maxCodesPerUser: Option<int>,
    status: BookStatus,
    totalCodesExpected: Option<int>,
    generatedCount: int,
    createdAt: Timestamp,
    expiresAt: Option<Timestamp>)

  /** The `isExpired` getter: a book expires strictly after its expiry time. */
  function IsExpired(book: CouponBook, now: Timestamp): (expired: bool)
    ensures book.expiresAt.None? ==> !expired
    ensures book.expiresAt == Some(now) ==> !expired
  {
    match book.expiresAt
    case Some(t) => now > t
    case None => false
  }

  /** The `isActive` getter. */
  function IsActive(book: CouponBook, now: Timestamp): (active: bool)
    ensures active ==> !IsExpired(book, now)
    ensures book.status != Active ==> !active
    ensures book.status == Active && book.expiresAt.None? ==> active
  {
    book.status == Active && !IsExpired(book, now)
  }

  /** Once expired, a book stays expired. */
  lemma ExpiryIsPermanent(book: CouponBook, t: Timestamp, later: Timestamp)
    requires IsExpired(book, t) && t <= later
    ensures IsExpired(book, later) && !IsActive(book, later)
  {
  }

  /** One coupon code; a new row is AVAILABLE, and `code` is unique in the table. */
  datatype CouponCode = CouponCode(
    id: Id,
    bookId: Id,
    code: string,
    status: CodeStatus,
    createdAt: Timestamp)

  /**
   * The claim of one code by one user. The lock window (`lockedAt`,
   * `lockedUntil`) is a column of the row; `redeemedAt` is stamped by the
   * redemption that exhausts the quota.
   */
  datatype CouponAssignment = CouponAssignment(
    id: Id,
    codeId: Id,
    userId: Id,
    bookId: Id,
    assignedAt: Timestamp,
    lockedAt: Option<Timestamp>,
    lockedUntil: Option<Timestamp>,
    redeemedAt: Option<Timestamp>,
    redeemCount: int)

  /** The `isLocked` getter: both ends of the window set and its end still ahead. */
  function IsLocked(a: CouponAssignment, now: Timestamp): (locked: bool)
    ensures locked ==> a.lockedAt.Some? && a.lockedUntil.Some?
    ensures a.lockedUntil.Some? && now >= a.lockedUntil.value ==> !locked
  {
    a.lockedAt.Some? && a.lockedUntil.Some? && now < a.lockedUntil.value
  }

  /** A lock observed at some time was also in force at every earlier time of its window. */
  lemma LockedEarlier(a: CouponAssignment, t: Timestamp, earlier: Timestamp)
    requires IsLocked(a, t) && earlier <= t
    ensures IsLocked(a, earlier)
  {
  }

  /** The `isRedeemed` getter. */
  predicate IsRedeemed(a: CouponAssignment) {
    a.redeemedAt.Some?
  }

  /**
   * A freshly inserted assignment row: the nullable columns are null and
   * `redeem_count` takes its column default 0.
   */
  function NewAssignment(id: Id, codeId: Id, userId: Id, bookId: Id, now: Timestamp): (a: CouponAssignment)
    ensures a.id == id && a.codeId == codeId && a.userId == userId && a.bookId == bookId
    ensures a.redeemCount == 0 && !IsRedeemed(a)
    ensures forall t :: !IsLocked(a, t)
  {
    CouponAssignment(id, codeId, userId, bookId, now, None, None, None, 0)
  }

  /** A JSON value of the free-form metadata column (flat values only). */
  datatype MetaValue = MetaString(s: string) | MetaInt(i: int) | MetaBool(b: bool) | MetaNull

  type Metadata = map<string, MetaValue>

  /** One row of the append-only redemption audit trail. */
  datatype RedemptionAudit = RedemptionAudit(
    codeId: Id,
    userId: Id,
    action: AuditAction,
    statusBefore: Option<CodeStatus>,
    statusAfter: CodeStatus,
    ipAddress: Option<string>,
    userAgent: Option<string>,
    metadata: Option<Metadata>,
    createdAt: Timestamp)
}
