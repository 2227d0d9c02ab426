/**
 * Locking, unlocking and redeeming an assigned coupon code. Each call is one
 * atomic step over the store: the checks made before the database
 * transaction are pure functions of the state (`LockPrecheck`,
 * `UnlockPrecheck`, `RedeemPrecheck`), and the transaction body is a method
 * of its own that re-reads the code row.
 */
module RedemptionService {
  import opened Wrappers
  import opened Entities
  import opened Errors
  import opened Store
  import Codes = CodeRepository
  import Assignments = AssignmentRepository
  import Books = BookRepository
  import Preservation

  /** The code named by the caller and the assignment found for it. */
  datatype Held = Held(code: CouponCode, assignment: CouponAssignment)

  /** A held code together with the book it belongs to. */
  datatype Claim = Claim(code: CouponCode, assignment: CouponAssignment, book: CouponBook)

  /**
   * The lookups every transition starts with: the code by its string, the
   * assignment of the code, and the check that the caller holds it.
   */
  function FindHeld(codes: seq<CouponCode>, assignments: seq<CouponAssignment>, code: string, userId: Id): (r: Result<Held>)
    ensures r.Ok? ==> r.value.code in codes && r.value.code.code == code
    ensures r.Ok? ==> r.value.assignment in assignments && r.value.assignment.codeId == r.value.code.id
    ensures r.Ok? ==> r.value.assignment.userId == userId
  {
    match Codes.FindByCode(codes, code)
    case None => Err(NotFoundError("Coupon code '" + code + "' not found"))
    case Some(c) =>
      match Assignments.FindByCodeId(assignments, c.id)
      case None => Err(BadRequestError("This coupon code is not assigned to any user"))
      case Some(a) =>
        if a.userId != userId then Err(ForbiddenError("This coupon code is assigned to another user"))
        else Ok(Held(c, a))
  }

  /**
   * The identity errors: an unknown code is NotFound, a code nobody holds is
   * BadRequest, a code held by someone else is Forbidden; otherwise the
   * lookup succeeds.
   */
  lemma FindHeldOutcomes(codes: seq<CouponCode>, assignments: seq<CouponAssignment>, code: string, userId: Id)
    requires Codes.UniqueCodes(codes)
    ensures code !in Codes.CodeStrings(codes) ==>
      FindHeld(codes, assignments, code, userId) == Err(NotFoundError("Coupon code '" + code + "' not found"))
    ensures forall c :: c in codes && c.code == code ==>
      ((forall a :: a in assignments ==> a.codeId != c.id) ==>
        FindHeld(codes, assignments, code, userId) == Err(BadRequestError("This coupon code is not assigned to any user")))
      && ((exists a :: a in assignments && a.codeId == c.id) ==>
        var holder := Assignments.FindByCodeId(assignments, c.id);
        holder.Some?
        && (FindHeld(codes, assignments, code, userId).Ok? <==> holder.value.userId == userId)
        && (holder.value.userId != userId ==>
              FindHeld(codes, assignments, code, userId) == Err(ForbiddenError("This coupon code is assigned to another user"))))
  {
    forall c | c in codes && c.code == code
      ensures Codes.FindByCode(codes, code) == Some(c)
      ensures Assignments.FindByCodeId(assignments, c.id).None? <==> forall a :: a in assignments ==> a.codeId != c.id
    {
      Codes.FindByCodeUnique(codes, c);
      Assignments.FindByCodeIdNone(assignments, c.id);
    }
  }

  /**
   * The book checks of lock and redeem: the code's book must exist and be
   * active; the separate expiry error comes after the activity check.
   */
  function BookGuard(books: seq<CouponBook>, c: CouponCode, now: Timestamp): (r: Result<CouponBook>)
    ensures r.Ok? ==> r.value in books && r.value.id == c.bookId && IsActive(r.value, now)
    ensures c.bookId !in Books.BookIds(books) ==> r == Err(NotFoundError("Associated coupon book not found"))
  {
    match Books.FindById(books, c.bookId)
    case None => Err(NotFoundError("Associated coupon book not found"))
    case Some(b) =>
      if !IsActive(b, now) then Err(BadRequestError("The coupon book is not active"))
      else if IsExpired(b, now) then Err(BadRequestError("The coupon book has expired"))
      else Ok(b)
  }

  /**
   * The "book has expired" error is never raised: an expired book is not
   * active, and the activity check comes first.
   */
  lemma ExpiredBookErrorUnreachable(books: seq<CouponBook>, c: CouponCode, now: Timestamp)
    ensures BookGuard(books, c, now) != Err(BadRequestError("The coupon book has expired"))
    ensures Books.FindById(books, c.bookId).Some? && IsExpired(Books.FindById(books, c.bookId).value, now) ==>
      BookGuard(books, c, now) == Err(BadRequestError("The coupon book is not active"))
  {
    assert |"The coupon book has expired"| != |"The coupon book is not active"|;
    assert |"The coupon book has expired"| != |"Associated coupon book not found"|;
  }

  // ---------------------------------------------------------------- lock

  /** `lockCoupon` up to the cache read: identity, book and status checks. */
  function LockPrecheck(codes: seq<CouponCode>, assignments: seq<CouponAssignment>, books: seq<CouponBook>,
                        code: string, userId: Id, now: Timestamp): (r: Result<Claim>)
    ensures FindHeld(codes, assignments, code, userId).Err? ==> r == FindHeld(codes, assignments, code, userId).PropagateFailure()
    ensures r.Ok? ==> r.value.code.status == Assigned || r.value.code.status == Locked
    ensures r.Ok? ==> FindHeld(codes, assignments, code, userId) == Ok(Held(r.value.code, r.value.assignment))
    ensures r.Ok? ==> BookGuard(books, r.value.code, now) == Ok(r.value.book)
  {
    var held :- FindHeld(codes, assignments, code, userId);
    var book :- BookGuard(books, held.code, now);
    var c := held.code;
    match c.status
    case Redeemed => Err(AlreadyRedeemedError(NoDetails))
    case Expired => Err(BadRequestError("This coupon code has expired"))
    case Available => Err(BadRequestError("This coupon code is not assigned yet"))
    case _ => Ok(Claim(c, held.assignment, book))
  }

  /**
   * Once the caller holds the code and its book is active, the status
   * decides: REDEEMED is a 409, EXPIRED and AVAILABLE are 400s, ASSIGNED and
   * LOCKED pass.
   */
  lemma LockStatusRules(codes: seq<CouponCode>, assignments: seq<CouponAssignment>, books: seq<CouponBook>,
                        code: string, userId: Id, now: Timestamp)
    requires FindHeld(codes, assignments, code, userId).Ok?
    requires BookGuard(books, FindHeld(codes, assignments, code, userId).value.code, now).Ok?
    ensures var status := FindHeld(codes, assignments, code, userId).value.code.status;
      var r := LockPrecheck(codes, assignments, books, code, userId, now);
      (status == Redeemed ==> r == Err(AlreadyRedeemedError(NoDetails)) && r.error.statusCode == 409)
      && (status == Expired || status == Available ==> r.Err? && r.error.statusCode == 400)
      && (status == Assigned || status == Locked ==> r.Ok?)
  {
    SpecificErrorStatuses();
    BaseErrorStatuses();
  }

  /** How a lock request that passed the checks is answered. */
  datatype LockPath =
    | LockRejected(error: AppError)
    | FromCache(claim: Claim, entry: LockData)
    | NewLock(claim: Claim)

  /**
   * The decision of `lockCoupon`: a LOCKED code with a live cache entry is
   * answered from the cache (or refused when the entry names someone else);
   * every other code that passed the checks is locked afresh.
   */
  function PlanLock(codes: seq<CouponCode>, assignments: seq<CouponAssignment>, books: seq<CouponBook>,
                    redisCache: bool, cache: map<string, LockData>, code: string, userId: Id, now: Timestamp)
    : (p: LockPath)
    ensures LockPrecheck(codes, assignments, books, code, userId, now).Err? ==>
      p == LockRejected(LockPrecheck(codes, assignments, books, code, userId, now).error)
    ensures !p.LockRejected? ==> LockPrecheck(codes, assignments, books, code, userId, now) == Ok(p.claim)
    ensures p.FromCache? ==>
      p.claim.code.status == Locked && p.entry.userId == userId
      && ReadLock(redisCache, cache, LockKey(p.claim.code.id), now) == Some(p.entry)
    ensures p.NewLock? && p.claim.code.status == Locked ==> ReadLock(redisCache, cache, LockKey(p.claim.code.id), now).None?
    ensures !redisCache && LockPrecheck(codes, assignments, books, code, userId, now).Ok? ==> p.NewLock?
  {
    match LockPrecheck(codes, assignments, books, code, userId, now)
    case Err(e) => LockRejected(e)
    case Ok(claim) =>
      var entry := ReadLock(redisCache, cache, LockKey(claim.code.id), now);
      if claim.code.status == Locked && entry.Some? then
        if entry.value.userId != userId then
          LockRejected(AlreadyLockedError(LockedDetails(entry.value.expiresAt, RetryAfterSeconds(entry.value.expiresAt, now))))
        else FromCache(claim, entry.value)
      else NewLock(claim)
  }

  /**
   * "Locked by another user" arises only from a live cache entry whose
   * holder is not the assignment's holder (who is the caller), and it tells
   * the caller how long to wait.
   */
  lemma LockConflictOnlyFromForeignEntry(codes: seq<CouponCode>, assignments: seq<CouponAssignment>, books: seq<CouponBook>,
                                         redisCache: bool, cache: map<string, LockData>, code: string, userId: Id, now: Timestamp)
    requires PlanLock(codes, assignments, books, redisCache, cache, code, userId, now).LockRejected?
    requires PlanLock(codes, assignments, books, redisCache, cache, code, userId, now).error.kind == CouponAlreadyLocked
    ensures FindHeld(codes, assignments, code, userId).Ok?
    ensures var h := FindHeld(codes, assignments, code, userId).value;
      var entry := ReadLock(redisCache, cache, LockKey(h.code.id), now);
      redisCache && h.code.status == Locked && entry.Some? && entry.value.userId != h.assignment.userId
      && PlanLock(codes, assignments, books, redisCache, cache, code, userId, now).error.details
         == LockedDetails(entry.value.expiresAt, RetryAfterSeconds(entry.value.expiresAt, now))
  {
  }

  /** The reply of a successful lock. */
  datatype LockView = LockView(codeId: Id, code: string, userId: Id, status: CodeStatus, lockedUntil: Timestamp, lockTtlSeconds: int)

  /**
   * The transaction of `lockCoupon`: re-read the code row, refuse unless it
   * is ASSIGNED or LOCKED, then set LOCKED and append the LOCK audit row.
   * On an error nothing is written. The result is the status read.
   */
  method LockTransaction(st: CouponStore, codeId: Id, userId: Id, metadata: Option<Metadata>,
                         ipAddress: Option<string>, userAgent: Option<string>, now: Timestamp)
    returns (r: Result<CodeStatus>)
    requires st.Valid()
    modifies st
    ensures Codes.FindById(old(st.codes), codeId).None? ==>
      r == Err(BadRequestError("Coupon code is no longer available"))
    ensures Codes.FindById(old(st.codes), codeId).Some? ==>
      var before := Codes.FindById(old(st.codes), codeId).value.status;
      if before == Assigned || before == Locked then r == Ok(before)
      else r == Err(BadRequestError("Coupon code cannot be locked from status: " + CodeStatusName(before)))
    ensures r.Err? ==> unchanged(st)
    ensures r.Ok? ==> st.codes == Codes.WithStatus(old(st.codes), codeId, Locked)
    ensures r.Ok? ==>
      st.audit == old(st.audit) +
      (if st.auditLogging then [RedemptionAudit(codeId, userId, Lock, Some(r.value), Locked, ipAddress, userAgent, metadata, now)] else [])
    ensures st.assignments == old(st.assignments) && st.books == old(st.books) && st.cache == old(st.cache)
    ensures st.Valid()
  {
    var row := Codes.FindById(st.codes, codeId);
    if row.None? {
      return Err(BadRequestError("Coupon code is no longer available"));
    }
    var before := row.value.status;
    if before != Assigned && before != Locked {
      return Err(BadRequestError("Coupon code cannot be locked from status: " + CodeStatusName(before)));
    }
    Preservation.StatusChange(st.codes, st.assignments, st.books, codeId, Locked);
    st.codes := Codes.WithStatus(st.codes, codeId, Locked);
    if st.auditLogging {
      st.audit := st.audit + [RedemptionAudit(codeId, userId, Lock, Some(before), Locked, ipAddress, userAgent, metadata, now)];
    }
    r := Ok(before);
  }

  /** `lockCoupon(code, userId, metadata, ipAddress, userAgent)` at time `now`. */
  method LockCoupon(st: CouponStore, code: string, userId: Id, metadata: Option<Metadata>,
                    ipAddress: Option<string>, userAgent: Option<string>, now: Timestamp)
    returns (result: Result<LockView>)
    requires st.Valid()
    modifies st
    ensures st.Valid() && CodesStep(old(st.codes), st.codes) && AuditStep(old(st.audit), st.audit)
    ensures st.assignments == old(st.assignments) && st.books == old(st.books)
    ensures old(RedeemQuotaRespected(st.codes, st.assignments, st.books)) ==> RedeemQuotaRespected(st.codes, st.assignments, st.books)
    ensures !st.redisCache ==> st.cache == old(st.cache)
    ensures var p := old(PlanLock(st.codes, st.assignments, st.books, st.redisCache, st.cache, code, userId, now));
      p.LockRejected? ==> result == Err(p.error) && unchanged(st)
    ensures var p := old(PlanLock(st.codes, st.assignments, st.books, st.redisCache, st.cache, code, userId, now));
      p.FromCache? ==>
        result == Ok(LockView(p.claim.code.id, p.claim.code.code, userId, Locked, p.entry.expiresAt, st.lockTtlSeconds))
        && unchanged(st)
    ensures var p := old(PlanLock(st.codes, st.assignments, st.books, st.redisCache, st.cache, code, userId, now));
      p.NewLock? ==>
        var id := p.claim.code.id;
        var until := now + st.lockTtlSeconds * 1000;
        result == Ok(LockView(id, p.claim.code.code, userId, Locked, until, st.lockTtlSeconds))
        && st.codes == Codes.WithStatus(old(st.codes), id, Locked)
        && st.audit == old(st.audit) +
          (if st.auditLogging then [RedemptionAudit(id, userId, Lock, Some(p.claim.code.status), Locked, ipAddress, userAgent, metadata, now)]
           else [])
        && (st.redisCache ==> st.cache == old(st.cache)[LockKey(id) := LockData(id, userId, now, until)])
  {
    var p := PlanLock(st.codes, st.assignments, st.books, st.redisCache, st.cache, code, userId, now);
    match p
    case LockRejected(e) =>
      result := Err(e);
    case FromCache(claim, entry) =>
      result := Ok(LockView(claim.code.id, claim.code.code, userId, Locked, entry.expiresAt, st.lockTtlSeconds));
    case NewLock(claim) =>
      var view := LockAfresh(st, claim.code, userId, metadata, ipAddress, userAgent, now);
      result := Ok(view);
  }

  /**
   * Locking a held code keeps the tables consistent, is a permitted status
   * step, and leaves every redemption quota as it was.
   */
  lemma LockKeepsInvariants(codes: seq<CouponCode>, assignments: seq<CouponAssignment>, books: seq<CouponBook>, c: CouponCode)
    requires TablesValid(codes, assignments, books) && c in codes && (c.status == Assigned || c.status == Locked)
    ensures Codes.FindById(codes, c.id) == Some(c)
    ensures TablesValid(Codes.WithStatus(codes, c.id, Locked), assignments, books)
    ensures CodesStep(codes, Codes.WithStatus(codes, c.id, Locked))
    ensures RedeemQuotaRespected(codes, assignments, books) ==>
      RedeemQuotaRespected(Codes.WithStatus(codes, c.id, Locked), assignments, books)
  {
    Codes.FindByIdUnique(codes, c);
    Preservation.StatusChange(codes, assignments, books, c.id, Locked);
  }

  /**
   * The second half of `lockCoupon`, for an ASSIGNED or LOCKED code without
   * a usable cache entry: drop a stale entry of an ASSIGNED code, run the
   * transaction, then record the new lock window in the cache.
   */
  method LockAfresh(st: CouponStore, c: CouponCode, userId: Id, metadata: Option<Metadata>,
                    ipAddress: Option<string>, userAgent: Option<string>, now: Timestamp)
    returns (view: LockView)
    requires st.Valid() && c in st.codes && (c.status == Assigned || c.status == Locked)
    modifies st
    ensures st.Valid() && CodesStep(old(st.codes), st.codes) && AuditStep(old(st.audit), st.audit)
    ensures st.assignments == old(st.assignments) && st.books == old(st.books)
    ensures old(RedeemQuotaRespected(st.codes, st.assignments, st.books)) ==> RedeemQuotaRespected(st.codes, st.assignments, st.books)
    ensures var until := now + st.lockTtlSeconds * 1000;
      view == LockView(c.id, c.code, userId, Locked, until, st.lockTtlSeconds)
      && st.codes == Codes.WithStatus(old(st.codes), c.id, Locked)
      && st.audit == old(st.audit) +
        (if st.auditLogging then [RedemptionAudit(c.id, userId, Lock, Some(c.status), Locked, ipAddress, userAgent, metadata, now)]
         else [])
      && st.cache == if st.redisCache then old(st.cache)[LockKey(c.id) := LockData(c.id, userId, now, until)] else old(st.cache)
  {
    var key := LockKey(c.id);
    ghost var cache0 := st.cache;
    if c.status == Assigned && ReadLock(st.redisCache, st.cache, key, now).Some? {
      st.cache := st.cache - {key};
    }
    LockKeepsInvariants(st.codes, st.assignments, st.books, c);
    var r := LockTransaction(st, c.id, userId, metadata, ipAddress, userAgent, now);
    assert r == Ok(c.status);
    var until := now + st.lockTtlSeconds * 1000;
    if st.redisCache {
      st.cache := st.cache[key := LockData(c.id, userId, now, until)];
      assert st.cache == cache0[key := LockData(c.id, userId, now, until)];
    }
    view := LockView(c.id, c.code, userId, Locked, until, st.lockTtlSeconds);
  }

  // -------------------------------------------------------------- unlock

  /** `unlockCoupon` up to the transaction: identity and status checks, no book checks. */
  function UnlockPrecheck(codes: seq<CouponCode>, assignments: seq<CouponAssignment>, code: string, userId: Id)
    : (r: Result<Held>)
    ensures FindHeld(codes, assignments, code, userId).Err? ==> r == FindHeld(codes, assignments, code, userId)
    ensures r.Ok? ==> r == FindHeld(codes, assignments, code, userId)
    ensures r.Ok? ==> r.value.code.status == Assigned || r.value.code.status == Locked
  {
    var held :- FindHeld(codes, assignments, code, userId);
    var status := held.code.status;
    if status == Redeemed then Err(AlreadyRedeemedError(NoDetails))
    else if status == Expired then Err(BadRequestError("This coupon code has expired"))
    else if status != Assigned && status != Locked then
      Err(BadRequestError("Coupon code cannot be unlocked from status: " + CodeStatusName(status)))
    else Ok(held)
  }

  /** Unlocking an AVAILABLE code is a 400; a REDEEMED one is a 409. */
  lemma UnlockStatusRules(codes: seq<CouponCode>, assignments: seq<CouponAssignment>, code: string, userId: Id)
    requires FindHeld(codes, assignments, code, userId).Ok?
    ensures var status := FindHeld(codes, assignments, code, userId).value.code.status;
      var r := UnlockPrecheck(codes, assignments, code, userId);
      (status == Available ==>
        r == Err(BadRequestError("Coupon code cannot be unlocked from status: " + CodeStatusName(Available))))
      && (status == Redeemed ==> r.Err? && r.error.statusCode == 409)
      && (status == Expired || status == Available ==> r.Err? && r.error.statusCode == 400)
  {
    SpecificErrorStatuses();
    BaseErrorStatuses();
  }

  /** The reply of a successful unlock. */
  datatype UnlockView = UnlockView(codeId: Id, code: string, userId: Id, status: CodeStatus, unlockedAt: Timestamp)

  /**
   * The transaction of `unlockCoupon`: re-read the code row, refuse unless it
   * is LOCKED, then set ASSIGNED and append the UNLOCK audit row.
   */
  method UnlockTransaction(st: CouponStore, codeId: Id, userId: Id, metadata: Option<Metadata>,
                           ipAddress: Option<string>, userAgent: Option<string>, now: Timestamp)
    returns (r: Result<()>)
    requires st.Valid()
    modifies st
    ensures Codes.FindById(old(st.codes), codeId).None? ==>
      r == Err(BadRequestError("Coupon code is no longer available"))
    ensures Codes.FindById(old(st.codes), codeId).Some? ==>
      var before := Codes.FindById(old(st.codes), codeId).value.status;
      if before == Locked then r == Ok(())
      else r == Err(BadRequestError("Coupon code cannot be unlocked from status: " + CodeStatusName(before)))
    ensures r.Err? ==> unchanged(st)
    ensures r.Ok? ==> st.codes == Codes.WithStatus(old(st.codes), codeId, Assigned)
    ensures r.Ok? ==>
      st.audit == old(st.audit) +
      (if st.auditLogging then [RedemptionAudit(codeId, userId, Unlock, Some(Locked), Assigned, ipAddress, userAgent, metadata, now)] else [])
    ensures st.assignments == old(st.assignments) && st.books == old(st.books) && st.cache == old(st.cache)
    ensures st.Valid()
  {
    var row := Codes.FindById(st.codes, codeId);
    if row.None? {
      return Err(BadRequestError("Coupon code is no longer available"));
    }
    if row.value.status != Locked {
      return Err(BadRequestError("Coupon code cannot be unlocked from status: " + CodeStatusName(row.value.status)));
    }
    Preservation.StatusChange(st.codes, st.assignments, st.books, codeId, Assigned);
    st.codes := Codes.WithStatus(st.codes, codeId, Assigned);
    if st.auditLogging {
      st.audit := st.audit + [RedemptionAudit(codeId, userId, Unlock, Some(Locked), Assigned, ipAddress, userAgent, metadata, now)];
    }
    r := Ok(());
  }

  /**
   * `unlockCoupon(code, userId, metadata, ipAddress, userAgent)` at time
   * `now`: an ASSIGNED code is a successful no-op that only drops a live
   * cache entry; a LOCKED code goes back to ASSIGNED.
   */
  method UnlockCoupon(st: CouponStore, code: string, userId: Id, metadata: Option<Metadata>,
                      ipAddress: Option<string>, userAgent: Option<string>, now: Timestamp)
    returns (result: Result<UnlockView>)
    requires st.Valid()
    modifies st
    ensures st.Valid() && CodesStep(old(st.codes), st.codes) && AuditStep(old(st.audit), st.audit)
    ensures st.assignments == old(st.assignments) && st.books == old(st.books)
    ensures old(RedeemQuotaRespected(st.codes, st.assignments, st.books)) ==> RedeemQuotaRespected(st.codes, st.assignments, st.books)
    ensures !st.redisCache ==> st.cache == old(st.cache)
    ensures var g := old(UnlockPrecheck(st.codes, st.assignments, code, userId));
      g.Err? ==> result == Err(g.error) && unchanged(st)
    ensures var g := old(UnlockPrecheck(st.codes, st.assignments, code, userId));
      g.Ok? ==> result == Ok(UnlockView(g.value.code.id, g.value.code.code, userId, Assigned, now))
    ensures var g := old(UnlockPrecheck(st.codes, st.assignments, code, userId));
      g.Ok? && g.value.code.status == Assigned ==>
        var key := LockKey(g.value.code.id);
        st.codes == old(st.codes) && st.audit == old(st.audit)
        && st.cache == if old(ReadLock(st.redisCache, st.cache, key, now)).Some? then old(st.cache) - {key} else old(st.cache)
    ensures var g := old(UnlockPrecheck(st.codes, st.assignments, code, userId));
      g.Ok? && g.value.code.status == Locked ==>
        var id := g.value.code.id;
        st.codes == Codes.WithStatus(old(st.codes), id, Assigned)
        && st.audit == old(st.audit) +
          (if st.auditLogging then [RedemptionAudit(id, userId, Unlock, Some(Locked), Assigned, ipAddress, userAgent, metadata, now)]
           else [])
        && st.cache == if st.redisCache then old(st.cache) - {LockKey(id)} else old(st.cache)
  {
    var g := UnlockPrecheck(st.codes, st.assignments, code, userId);
    if g.Err? {
      return Err(g.error);
    }
    var c := g.value.code;
    var key := LockKey(c.id);
    var entry := ReadLock(st.redisCache, st.cache, key, now);
    if c.status == Assigned {
      if entry.Some? {
        st.cache := st.cache - {key};
      }
      return Ok(UnlockView(c.id, c.code, userId, Assigned, now));
    }
    Codes.FindByIdUnique(st.codes, c);
    Preservation.StatusChange(st.codes, st.assignments, st.books, c.id, Assigned);
    var r := UnlockTransaction(st, c.id, userId, metadata, ipAddress, userAgent, now);
    assert r.Ok?;
    if st.redisCache {
      st.cache := st.cache - {key};
    }
    result := Ok(UnlockView(c.id, c.code, userId, Assigned, now));
  }

  // -------------------------------------------------------------- redeem

  /**
   * Whether a redemption is the last one allowed: always with no maximum,
   * otherwise when the new count reaches the maximum.
   */
  function IsFinalRedeem(maxRedeems: Option<int>, redeemCount: int): (final: bool)
    ensures maxRedeems.None? ==> final
    ensures maxRedeems.Some? && redeemCount < maxRedeems.value ==> (final <==> redeemCount + 1 == maxRedeems.value)
  {
    maxRedeems.None? || redeemCount + 1 >= maxRedeems.value
  }

  /** With a maximum of `n`, redemptions number 1 to n-1 are partial and number n is final. */
  lemma FinalRedeemIsTheLastAllowed(n: int, redeemCount: nat)
    requires redeemCount < n
    ensures !IsFinalRedeem(Some(n), redeemCount) <==> redeemCount + 1 < n
  {
  }

  /** `redeemCoupon` up to the transaction: identity, book, status and quota checks. */
  function RedeemPrecheck(codes: seq<CouponCode>, assignments: seq<CouponAssignment>, books: seq<CouponBook>,
                          code: string, userId: Id, now: Timestamp): (r: Result<Claim>)
    ensures FindHeld(codes, assignments, code, userId).Err? ==> r == FindHeld(codes, assignments, code, userId).PropagateFailure()
    ensures r.Ok? ==> r.value.code.status == Assigned || r.value.code.status == Locked
    ensures r.Ok? ==> FindHeld(codes, assignments, code, userId) == Ok(Held(r.value.code, r.value.assignment))
    ensures r.Ok? ==> BookGuard(books, r.value.code, now) == Ok(r.value.book)
    ensures r.Ok? ==> r.value.book.maxRedeemsPerUser.None? || r.value.assignment.redeemCount < r.value.book.maxRedeemsPerUser.value
  {
    var held :- FindHeld(codes, assignments, code, userId);
    var book :- BookGuard(books, held.code, now);
    var c := held.code;
    var a := held.assignment;
    match c.status
    case Redeemed => Err(AlreadyRedeemedError(RedeemedDetails(a.redeemedAt, a.redeemCount)))
    case Expired => Err(BadRequestError("This coupon code has expired"))
    case Available => Err(BadRequestError("This coupon code is not assigned yet"))
    case _ =>
      if book.maxRedeemsPerUser.Some? && a.redeemCount >= book.maxRedeemsPerUser.value then
        Err(RedeemLimitReachedError(RedeemLimitDetails(a.redeemCount, book.maxRedeemsPerUser.value)))
      else Ok(Claim(c, a, book))
  }

  /**
   * The quota rule of redeem: with the caller holding an ASSIGNED or LOCKED
   * code of an active book, a set maximum already reached is a 409
   * CouponRedeemLimitReached, and anything below it passes.
   */
  lemma RedeemQuotaRule(codes: seq<CouponCode>, assignments: seq<CouponAssignment>, books: seq<CouponBook>,
                        code: string, userId: Id, now: Timestamp)
    requires FindHeld(codes, assignments, code, userId).Ok?
    requires var c := FindHeld(codes, assignments, code, userId).value.code; c.status == Assigned || c.status == Locked
    requires BookGuard(books, FindHeld(codes, assignments, code, userId).value.code, now).Ok?
    ensures var h := FindHeld(codes, assignments, code, userId).value;
      var max := BookGuard(books, h.code, now).value.maxRedeemsPerUser;
      var r := RedeemPrecheck(codes, assignments, books, code, userId, now);
      (max.Some? && h.assignment.redeemCount >= max.value ==>
        r == Err(RedeemLimitReachedError(RedeemLimitDetails(h.assignment.redeemCount, max.value)))
        && r.error.statusCode == 409)
      && (max.None? || h.assignment.redeemCount < max.value ==> r.Ok?)
  {
    SpecificErrorStatuses();
  }

  /** A fully redeemed code is refused with its redemption record. */
  lemma RedeemOfRedeemedCode(codes: seq<CouponCode>, assignments: seq<CouponAssignment>, books: seq<CouponBook>,
                             code: string, userId: Id, now: Timestamp)
    requires FindHeld(codes, assignments, code, userId).Ok?
    requires FindHeld(codes, assignments, code, userId).value.code.status == Redeemed
    requires BookGuard(books, FindHeld(codes, assignments, code, userId).value.code, now).Ok?
    ensures var a := FindHeld(codes, assignments, code, userId).value.assignment;
      RedeemPrecheck(codes, assignments, books, code, userId, now)
        == Err(AlreadyRedeemedError(RedeemedDetails(a.redeemedAt, a.redeemCount)))
  {
  }

  /**
   * The audit metadata of a redemption: the caller's metadata with
   * `redeemCount`, `maxRedeems` and `isFinalRedeem` written over it.
   */
  function RedeemMetadata(metadata: Option<Metadata>, redeemCount: int, maxRedeems: Option<int>, isFinal: bool): (m: Metadata)
    ensures "redeemCount" in m && m["redeemCount"] == MetaInt(redeemCount)
    ensures "maxRedeems" in m && m["maxRedeems"] == (if maxRedeems.Some? then MetaInt(maxRedeems.value) else MetaNull)
    ensures "isFinalRedeem" in m && m["isFinalRedeem"] == MetaBool(isFinal)
    ensures m.Keys == metadata.GetOr(map[]).Keys + {"redeemCount", "maxRedeems", "isFinalRedeem"}
    ensures forall k :: k in metadata.GetOr(map[]) && k !in {"redeemCount", "maxRedeems", "isFinalRedeem"} ==>
      m[k] == metadata.GetOr(map[])[k]
  {
    metadata.GetOr(map[]) + map[
      "redeemCount" := MetaInt(redeemCount),
      "maxRedeems" := (if maxRedeems.Some? then MetaInt(maxRedeems.value) else MetaNull),
      "isFinalRedeem" := MetaBool(isFinal)]
  }

  /** The reply of a successful redemption. */
  datatype RedeemView = RedeemView(codeId: Id, code: string, userId: Id, status: CodeStatus, redeemCount: int,
                                   maxRedeems: Option<int>, isFinalRedeem: bool, redeemedAt: Timestamp)

  /** Whether redeeming a claim is its final redemption. */
  function FinalFor(claim: Claim): bool {
    IsFinalRedeem(claim.book.maxRedeemsPerUser, claim.assignment.redeemCount)
  }

  /** The code table after redeeming a claim: the code becomes REDEEMED on the final redemption only. */
  function RedeemedCodes(codes: seq<CouponCode>, claim: Claim): seq<CouponCode> {
    if FinalFor(claim) then Codes.WithStatus(codes, claim.code.id, Redeemed) else codes
  }

  /** The `redeemedAt` a redemption writes: the time on the final redemption, null otherwise. */
  function RedeemedAt(claim: Claim, now: Timestamp): Option<Timestamp> {
    if FinalFor(claim) then Some(now) else None
  }

  /**
   * The assignment table after redeeming a claim: the count read before the
   * transaction plus one, and `redeemedAt` set on the final redemption and
   * cleared otherwise.
   */
  function RedeemedAssignments(assignments: seq<CouponAssignment>, claim: Claim, now: Timestamp): seq<CouponAssignment> {
    Assignments.WithRedeemState(assignments, claim.assignment.id, claim.assignment.redeemCount + 1, RedeemedAt(claim, now))
  }

  /** The REDEEM audit row of a claim; its status before is the one read before the transaction. */
  function RedeemAuditRow(claim: Claim, userId: Id, metadata: Option<Metadata>,
                          ipAddress: Option<string>, userAgent: Option<string>, now: Timestamp): RedemptionAudit {
    var final := FinalFor(claim);
    RedemptionAudit(claim.code.id, userId, Redeem, Some(claim.code.status), if final then Redeemed else claim.code.status,
                    ipAddress, userAgent,
                    Some(RedeemMetadata(metadata, claim.assignment.redeemCount + 1, claim.book.maxRedeemsPerUser, final)), now)
  }

  /** Redeeming a claim keeps the foreign keys and the uniqueness of the tables. */
  lemma RedeemTablesValid(codes: seq<CouponCode>, assignments: seq<CouponAssignment>, books: seq<CouponBook>,
                          claim: Claim, now: Timestamp)
    requires TablesValid(codes, assignments, books)
    ensures TablesValid(RedeemedCodes(codes, claim), RedeemedAssignments(assignments, claim, now), books)
  {
    if FinalFor(claim) {
      Preservation.StatusChange(codes, assignments, books, claim.code.id, Redeemed);
    }
    var a := claim.assignment;
    Preservation.RedeemStateValid(RedeemedCodes(codes, claim), assignments, books, a.id, a.redeemCount + 1, RedeemedAt(claim, now));
  }

  /**
   * What an accepted redemption has read: the code row found by code, the
   * caller's assignment found by the code's id, and the code's book, active
   * and not expired.
   */
  lemma {:induction false} ClaimRows(codes: seq<CouponCode>, assignments: seq<CouponAssignment>, books: seq<CouponBook>,
                                     code: string, userId: Id, now: Timestamp, claim: Claim)
    requires RedeemPrecheck(codes, assignments, books, code, userId, now) == Ok(claim)
    ensures Codes.FindByCode(codes, code) == Some(claim.code)
    ensures Assignments.FindByCodeId(assignments, claim.code.id) == Some(claim.assignment)
    ensures claim.assignment.userId == userId
    ensures Books.FindById(books, claim.code.bookId) == Some(claim.book)
    ensures IsActive(claim.book, now) && !IsExpired(claim.book, now)
  {
  }

  /** The assignment row a redemption write leaves: one more redemption and the `redeemedAt` written. */
  lemma {:induction false} RedeemStateFound(assignments: seq<CouponAssignment>, claim: Claim, at: Option<Timestamp>)
    requires Assignments.FindByCodeId(assignments, claim.code.id) == Some(claim.assignment)
    ensures Assignments.FindByCodeId(Assignments.WithRedeemState(assignments, claim.assignment.id,
                                                                 claim.assignment.redeemCount + 1, at),
                                     claim.code.id)
      == Some(claim.assignment.(redeemCount := claim.assignment.redeemCount + 1, redeemedAt := at))
  {
    Assignments.FindByCodeIdWithRedeemState(assignments, claim.code.id, claim.assignment,
                                            claim.assignment.redeemCount + 1, at);
  }

  /**
   * `RedeemPrecheck` of a code the caller holds (the row found by code, and
   * the caller's assignment found by the code's id) whose book passes:
   * decided by the code's status and the count.
   */
  lemma {:induction false} PrecheckOfHeld(codes: seq<CouponCode>, assignments: seq<CouponAssignment>, books: seq<CouponBook>,
                                          code: string, userId: Id, now: Timestamp,
                                          codeId: Id, c: CouponCode, a: CouponAssignment, book: CouponBook, bookId: Id)
    requires Codes.FindByCode(codes, code) == Some(c) && c.id == codeId && c.bookId == bookId
    requires Assignments.FindByCodeId(assignments, codeId) == Some(a) && a.userId == userId
    requires Books.FindById(books, bookId) == Some(book) && IsActive(book, now) && !IsExpired(book, now)
    ensures c.status == Redeemed ==>
      RedeemPrecheck(codes, assignments, books, code, userId, now)
        == Err(AlreadyRedeemedError(RedeemedDetails(a.redeemedAt, a.redeemCount)))
    ensures ((c.status == Assigned || c.status == Locked)
             && (book.maxRedeemsPerUser.None? || a.redeemCount < book.maxRedeemsPerUser.value)) ==>
      RedeemPrecheck(codes, assignments, books, code, userId, now) == Ok(Claim(c, a, book))
  {
    assert FindHeld(codes, assignments, code, userId) == Ok(Held(c, a));
  }

  /** The rows an accepted redemption has read, as `ClaimRows` lists them. */
  predicate ClaimRead(codes: seq<CouponCode>, assignments: seq<CouponAssignment>, books: seq<CouponBook>,
                      code: string, userId: Id, now: Timestamp, claim: Claim) {
    Codes.FindByCode(codes, code) == Some(claim.code)
    && Assignments.FindByCodeId(assignments, claim.code.id) == Some(claim.assignment)
    && claim.assignment.userId == userId
    && Books.FindById(books, claim.code.bookId) == Some(claim.book)
    && IsActive(claim.book, now) && !IsExpired(claim.book, now)
  }

  /** The tables a redemption leaves, by whether it is the final one. */
  lemma RedeemedTables(codes: seq<CouponCode>, assignments: seq<CouponAssignment>, claim: Claim, now: Timestamp)
    ensures FinalFor(claim) ==>
      RedeemedCodes(codes, claim) == Codes.WithStatus(codes, claim.code.id, Redeemed)
      && RedeemedAssignments(assignments, claim, now)
         == Assignments.WithRedeemState(assignments, claim.assignment.id, claim.assignment.redeemCount + 1, Some(now))
    ensures !FinalFor(claim) ==>
      RedeemedCodes(codes, claim) == codes
      && RedeemedAssignments(assignments, claim, now)
         == Assignments.WithRedeemState(assignments, claim.assignment.id, claim.assignment.redeemCount + 1, None)
  {
  }

  lemma {:induction false} PartialThenAccepted(codes: seq<CouponCode>, assignments: seq<CouponAssignment>,
                                               books: seq<CouponBook>, code: string, userId: Id, now: Timestamp,
                                               claim: Claim)
    requires ClaimRead(codes, assignments, books, code, userId, now, claim)
    requires claim.code.status == Assigned || claim.code.status == Locked
    requires !FinalFor(claim)
    ensures RedeemPrecheck(codes, Assignments.WithRedeemState(assignments, claim.assignment.id, claim.assignment.redeemCount + 1, None),
                           books, code, userId, now)
      == Ok(claim.(assignment := claim.assignment.(redeemCount := claim.assignment.redeemCount + 1, redeemedAt := None)))
  {
    RedeemStateFound(assignments, claim, None);
    PrecheckOfHeld(codes, Assignments.WithRedeemState(assignments, claim.assignment.id, claim.assignment.redeemCount + 1, None), books, code, userId, now, claim.code.id, claim.code,
                   claim.assignment.(redeemCount := claim.assignment.redeemCount + 1, redeemedAt := None), claim.book,
                   claim.code.bookId);
  }

  lemma {:induction false} FinalThenRefused(codes: seq<CouponCode>, assignments: seq<CouponAssignment>,
                                            books: seq<CouponBook>, code: string, userId: Id, now: Timestamp,
                                            claim: Claim)
    requires Codes.UniqueCodes(codes) && ClaimRead(codes, assignments, books, code, userId, now, claim)
    requires FinalFor(claim)
    ensures RedeemPrecheck(Codes.WithStatus(codes, claim.code.id, Redeemed),
                           Assignments.WithRedeemState(assignments, claim.assignment.id, claim.assignment.redeemCount + 1, Some(now)),
                           books, code, userId, now)
      == Err(AlreadyRedeemedError(RedeemedDetails(Some(now), claim.assignment.redeemCount + 1)))
  {
    Codes.FindByCodeUnique(codes, claim.code);
    Codes.FindByCodeWithStatus(codes, claim.code, Redeemed);
    RedeemStateFound(assignments, claim, Some(now));
    PrecheckOfHeld(Codes.WithStatus(codes, claim.code.id, Redeemed),
                   Assignments.WithRedeemState(assignments, claim.assignment.id, claim.assignment.redeemCount + 1, Some(now)),
                   books, code, userId, now, claim.code.id, claim.code.(status := Redeemed),
                   claim.assignment.(redeemCount := claim.assignment.redeemCount + 1, redeemedAt := Some(now)), claim.book,
                   claim.code.bookId);
  }

  /**
   * Redeeming again at the same moment: after a partial redemption the next
   * one is accepted for the same code and book with the count one higher;
   * after the final one it is refused as already redeemed, reporting that
   * moment and the new count.
   */
  lemma {:induction false} RedeemAgain(codes: seq<CouponCode>, assignments: seq<CouponAssignment>, books: seq<CouponBook>,
                                       code: string, userId: Id, now: Timestamp, claim: Claim)
    requires TablesValid(codes, assignments, books)
    requires RedeemPrecheck(codes, assignments, books, code, userId, now) == Ok(claim)
    ensures FinalFor(claim) ==>
      RedeemPrecheck(RedeemedCodes(codes, claim), RedeemedAssignments(assignments, claim, now), books, code, userId, now)
        == Err(AlreadyRedeemedError(RedeemedDetails(Some(now), claim.assignment.redeemCount + 1)))
    ensures !FinalFor(claim) ==>
      RedeemPrecheck(RedeemedCodes(codes, claim), RedeemedAssignments(assignments, claim, now), books, code, userId, now)
        == Ok(claim.(assignment := claim.assignment.(redeemCount := claim.assignment.redeemCount + 1, redeemedAt := None)))
  {
    ClaimRows(codes, assignments, books, code, userId, now, claim);
    RedeemedTables(codes, assignments, claim, now);
    if FinalFor(claim) {
      FinalThenRefused(codes, assignments, books, code, userId, now, claim);
    } else {
      PartialThenAccepted(codes, assignments, books, code, userId, now, claim);
    }
  }

  /**
   * A book allowing three redemptions per user, and an assignment not yet
   * redeemed, all at the same moment: the first and second redemptions are
   * partial and leave the code redeemable, the third is final, and a fourth
   * is refused as already redeemed with a count of 3.
   */
  lemma {:induction false} ThreeRedemptionsAllowed(codes: seq<CouponCode>, assignments: seq<CouponAssignment>,
                                                   books: seq<CouponBook>, code: string, userId: Id, now: Timestamp,
                                                   claim: Claim)
    requires TablesValid(codes, assignments, books)
    requires RedeemPrecheck(codes, assignments, books, code, userId, now) == Ok(claim)
    requires claim.book.maxRedeemsPerUser == Some(3) && claim.assignment.redeemCount == 0
    ensures var second := claim.(assignment := claim.assignment.(redeemCount := 1, redeemedAt := None));
      var third := claim.(assignment := claim.assignment.(redeemCount := 2, redeemedAt := None));
      var codes1, assignments1 := RedeemedCodes(codes, claim), RedeemedAssignments(assignments, claim, now);
      var codes2, assignments2 := RedeemedCodes(codes1, second), RedeemedAssignments(assignments1, second, now);
      var codes3, assignments3 := RedeemedCodes(codes2, third), RedeemedAssignments(assignments2, third, now);
      !FinalFor(claim) && RedeemPrecheck(codes1, assignments1, books, code, userId, now) == Ok(second)
      && !FinalFor(second) && RedeemPrecheck(codes2, assignments2, books, code, userId, now) == Ok(third)
      && FinalFor(third)
      && RedeemPrecheck(codes3, assignments3, books, code, userId, now) == Err(AlreadyRedeemedError(RedeemedDetails(Some(now), 3)))
  {
    var second := claim.(assignment := claim.assignment.(redeemCount := 1, redeemedAt := None));
    var third := claim.(assignment := claim.assignment.(redeemCount := 2, redeemedAt := None));
    RedeemAgain(codes, assignments, books, code, userId, now, claim);
    RedeemTablesValid(codes, assignments, books, claim, now);
    var codes1, assignments1 := RedeemedCodes(codes, claim), RedeemedAssignments(assignments, claim, now);
    RedeemAgain(codes1, assignments1, books, code, userId, now, second);
    RedeemTablesValid(codes1, assignments1, books, second, now);
    var codes2, assignments2 := RedeemedCodes(codes1, second), RedeemedAssignments(assignments1, second, now);
    RedeemAgain(codes2, assignments2, books, code, userId, now, third);
  }

  /**
   * The transaction of `redeemCoupon`. It only checks that the code row
   * still exists; the status, count and audit row it writes are computed
   * from the rows read before the transaction.
   */
  method RedeemTransaction(st: CouponStore, claim: Claim, userId: Id, metadata: Option<Metadata>,
                           ipAddress: Option<string>, userAgent: Option<string>, now: Timestamp)
    returns (r: Result<()>)
    requires st.Valid()
    modifies st
    ensures Codes.FindById(old(st.codes), claim.code.id).None? ==>
      r == Err(BadRequestError("Coupon code is no longer available")) && unchanged(st)
    ensures Codes.FindById(old(st.codes), claim.code.id).Some? ==>
      r == Ok(())
      && st.codes == RedeemedCodes(old(st.codes), claim)
      && st.assignments == RedeemedAssignments(old(st.assignments), claim, now)
      && st.audit == old(st.audit) +
        (if st.auditLogging then [RedeemAuditRow(claim, userId, metadata, ipAddress, userAgent, now)] else [])
    ensures st.books == old(st.books) && st.cache == old(st.cache)
    ensures st.Valid()
  {
    var codeId := claim.code.id;
    if Codes.FindById(st.codes, codeId).None? {
      return Err(BadRequestError("Coupon code is no longer available"));
    }
    RedeemTablesValid(st.codes, st.assignments, st.books, claim, now);
    var codes := RedeemedCodes(st.codes, claim);
    var assignments := RedeemedAssignments(st.assignments, claim, now);
    st.codes, st.assignments := codes, assignments;
    if st.auditLogging {
      st.audit := st.audit + [RedeemAuditRow(claim, userId, metadata, ipAddress, userAgent, now)];
    }
    r := Ok(());
  }

  /**
   * `redeemCoupon(code, userId, metadata, ipAddress, userAgent)` at time
   * `now`: one more redemption of the caller's code, final when the book's
   * maximum is reached or unset.
   */
  method RedeemCoupon(st: CouponStore, code: string, userId: Id, metadata: Option<Metadata>,
                      ipAddress: Option<string>, userAgent: Option<string>, now: Timestamp)
    returns (result: Result<RedeemView>)
    requires st.Valid()
    modifies st
    ensures st.Valid() && CodesStep(old(st.codes), st.codes) && AuditStep(old(st.audit), st.audit)
    ensures st.books == old(st.books)
    ensures old(RedeemQuotaRespected(st.codes, st.assignments, st.books)) ==> RedeemQuotaRespected(st.codes, st.assignments, st.books)
    ensures !st.redisCache ==> st.cache == old(st.cache)
    ensures var g := old(RedeemPrecheck(st.codes, st.assignments, st.books, code, userId, now));
      g.Err? ==> result == Err(g.error) && unchanged(st)
    ensures var g := old(RedeemPrecheck(st.codes, st.assignments, st.books, code, userId, now));
      g.Ok? ==>
        result == Ok(RedeemReply(g.value, userId, now))
        && st.codes == RedeemedCodes(old(st.codes), g.value)
        && st.assignments == RedeemedAssignments(old(st.assignments), g.value, now)
        && st.audit == old(st.audit) +
          (if st.auditLogging then [RedeemAuditRow(g.value, userId, metadata, ipAddress, userAgent, now)] else [])
        && st.cache == if st.redisCache then old(st.cache) - {LockKey(g.value.code.id)} else old(st.cache)
  {
    var g := RedeemPrecheck(st.codes, st.assignments, st.books, code, userId, now);
    if g.Err? {
      return Err(g.error);
    }
    result := RedeemClaim(st, g.value, userId, metadata, ipAddress, userAgent, now);
  }

  /** The reply of a redemption: the new count, the maximum, whether it was final, and the time. */
  function RedeemReply(claim: Claim, userId: Id, now: Timestamp): (v: RedeemView)
    ensures v.codeId == claim.code.id && v.code == claim.code.code && v.userId == userId && v.redeemedAt == now
    ensures v.redeemCount == claim.assignment.redeemCount + 1 && v.maxRedeems == claim.book.maxRedeemsPerUser
    ensures v.isFinalRedeem == IsFinalRedeem(claim.book.maxRedeemsPerUser, claim.assignment.redeemCount)
    ensures claim.code.status != Redeemed ==> (v.status == Redeemed <==> v.isFinalRedeem)
    ensures !v.isFinalRedeem ==> v.status == claim.code.status
  {
    var final := FinalFor(claim);
    RedeemView(claim.code.id, claim.code.code, userId, if final then Redeemed else claim.code.status,
               claim.assignment.redeemCount + 1, claim.book.maxRedeemsPerUser, final, now)
  }

  /**
   * A redemption that passed the checks keeps the tables consistent, moves
   * the code's status only by a permitted step, and keeps every assignment
   * within its book's redemption quota.
   */
  lemma RedeemKeepsInvariants(codes: seq<CouponCode>, assignments: seq<CouponAssignment>, books: seq<CouponBook>,
                              claim: Claim, now: Timestamp)
    requires TablesValid(codes, assignments, books)
    requires claim.code in codes && claim.assignment in assignments && claim.assignment.codeId == claim.code.id
    requires Books.FindById(books, claim.code.bookId) == Some(claim.book)
    requires claim.code.status == Assigned || claim.code.status == Locked
    requires claim.book.maxRedeemsPerUser.None? || claim.assignment.redeemCount < claim.book.maxRedeemsPerUser.value
    ensures TablesValid(RedeemedCodes(codes, claim), RedeemedAssignments(assignments, claim, now), books)
    ensures CodesStep(codes, RedeemedCodes(codes, claim))
    ensures RedeemQuotaRespected(codes, assignments, books) ==>
      RedeemQuotaRespected(RedeemedCodes(codes, claim), RedeemedAssignments(assignments, claim, now), books)
  {
    RedeemTablesValid(codes, assignments, books, claim, now);
    Codes.FindByIdUnique(codes, claim.code);
    if FinalFor(claim) {
      Preservation.StatusChange(codes, assignments, books, claim.code.id, Redeemed);
    }
    if RedeemQuotaRespected(codes, assignments, books) {
      RedeemQuotaKept(codes, assignments, books, claim, now);
    }
  }

  /** The redemption quota survives a redemption below the book's maximum. */
  lemma RedeemQuotaKept(codes: seq<CouponCode>, assignments: seq<CouponAssignment>, books: seq<CouponBook>,
                        claim: Claim, now: Timestamp)
    requires TablesValid(codes, assignments, books) && RedeemQuotaRespected(codes, assignments, books)
    requires claim.code in codes && claim.assignment in assignments && claim.assignment.codeId == claim.code.id
    requires Books.FindById(books, claim.code.bookId) == Some(claim.book)
    requires claim.book.maxRedeemsPerUser.None? || claim.assignment.redeemCount < claim.book.maxRedeemsPerUser.value
    ensures RedeemQuotaRespected(RedeemedCodes(codes, claim), RedeemedAssignments(assignments, claim, now), books)
  {
    RedeemCountQuotaKept(codes, assignments, books, claim, now);
    RedeemCountValid(codes, assignments, books, claim, now);
    if FinalFor(claim) {
      Preservation.StatusChange(codes, RedeemedAssignments(assignments, claim, now), books, claim.code.id, Redeemed);
    }
  }

  /** The book that governs a claimed assignment's quota is the claim's book. */
  lemma ClaimGovernedByItsBook(codes: seq<CouponCode>, books: seq<CouponBook>, claim: Claim)
    requires Codes.UniqueCodes(codes) && claim.code in codes && claim.assignment.codeId == claim.code.id
    requires Books.FindById(books, claim.code.bookId) == Some(claim.book)
    ensures GoverningBook(codes, books, claim.assignment) == Some(claim.book)
  {
    Codes.FindByIdUnique(codes, claim.code);
  }

  /** The count half of a redemption keeps the tables valid and the quota respected. */
  lemma RedeemCountQuotaKept(codes: seq<CouponCode>, assignments: seq<CouponAssignment>, books: seq<CouponBook>,
                             claim: Claim, now: Timestamp)
    requires TablesValid(codes, assignments, books)
    requires claim.code in codes && claim.assignment in assignments && claim.assignment.codeId == claim.code.id
    requires Books.FindById(books, claim.code.bookId) == Some(claim.book)
    requires claim.book.maxRedeemsPerUser.None? || claim.assignment.redeemCount < claim.book.maxRedeemsPerUser.value
    ensures RedeemQuotaRespected(codes, assignments, books) ==>
      RedeemQuotaRespected(codes, RedeemedAssignments(assignments, claim, now), books)
  {
    ClaimGovernedByItsBook(codes, books, claim);
    Preservation.RedeemRecorded(codes, assignments, books, claim.assignment, RedeemedAt(claim, now));
  }

  /** The count half of a redemption keeps the keys of the tables. */
  lemma RedeemCountValid(codes: seq<CouponCode>, assignments: seq<CouponAssignment>, books: seq<CouponBook>,
                         claim: Claim, now: Timestamp)
    requires TablesValid(codes, assignments, books)
    ensures TablesValid(codes, RedeemedAssignments(assignments, claim, now), books)
  {
    Preservation.RedeemStateValid(codes, assignments, books, claim.assignment.id, claim.assignment.redeemCount + 1,
                                  RedeemedAt(claim, now));
  }

  /**
   * The second half of `redeemCoupon`, for a claim that passed the checks:
   * the transaction, then the removal of the cache entry.
   */
  method RedeemClaim(st: CouponStore, claim: Claim, userId: Id, metadata: Option<Metadata>,
                     ipAddress: Option<string>, userAgent: Option<string>, now: Timestamp)
    returns (result: Result<RedeemView>)
    requires st.Valid()
    requires claim.code in st.codes && claim.assignment in st.assignments && claim.assignment.codeId == claim.code.id
    requires Books.FindById(st.books, claim.code.bookId) == Some(claim.book)
    requires claim.code.status == Assigned || claim.code.status == Locked
    requires claim.book.maxRedeemsPerUser.None? || claim.assignment.redeemCount < claim.book.maxRedeemsPerUser.value
    modifies st
    ensures st.Valid() && CodesStep(old(st.codes), st.codes) && AuditStep(old(st.audit), st.audit)
    ensures st.books == old(st.books)
    ensures old(RedeemQuotaRespected(st.codes, st.assignments, st.books)) ==> RedeemQuotaRespected(st.codes, st.assignments, st.books)
    ensures result == Ok(RedeemReply(claim, userId, now))
    ensures st.codes == RedeemedCodes(old(st.codes), claim)
    ensures st.assignments == RedeemedAssignments(old(st.assignments), claim, now)
    ensures st.audit == old(st.audit) +
      (if st.auditLogging then [RedeemAuditRow(claim, userId, metadata, ipAddress, userAgent, now)] else [])
    ensures st.cache == if st.redisCache then old(st.cache) - {LockKey(claim.code.id)} else old(st.cache)
  {
    Codes.FindByIdUnique(st.codes, claim.code);
    RedeemKeepsInvariants(st.codes, st.assignments, st.books, claim, now);
    var r := RedeemTransaction(st, claim, userId, metadata, ipAddress, userAgent, now);
    assert r.Ok?;
    if st.redisCache {
      st.cache := st.cache - {LockKey(claim.code.id)};
    }
    result := Ok(RedeemReply(claim, userId, now));
  }
}
