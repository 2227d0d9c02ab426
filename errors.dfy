/**
 * The error taxonomy of the service. Every error carries an HTTP status, a
 * machine-readable code, a human-readable message and optional structured
 * details. The coupon-specific errors specialise a base error (a 409
 * Conflict, a 404 Not Found or a 410 Gone) and override only its code and
 * message.
 */
module Errors {
  import opened Wrappers

  datatype ErrorKind =
    // base errors
    | BadRequest | Unauthorized | Forbidden | NotFound | Conflict | Gone
    | TooManyRequests | InternalServer
    // coupon-specific errors
    | CouponAlreadyLocked | CouponAlreadyRedeemed | CouponQuotaExceeded
    | CouponRedeemLimitReached | NoAvailableCodes | LockExpired
    // a failed SQL statement (unique or foreign-key violation), as the error
    // handler answers a `QueryFailedError`
    | QueryFailed

  /** The structured `details` an error carries. */
  datatype Details =
    | NoDetails
    | LockedDetails(lockedUntil: int, retryAfterSeconds: int)
    | RedeemedDetails(redeemedAt: Option<int>, redeemCount: int)
    | RedeemLimitDetails(currentRedeems: int, maxRedeems: int)

  datatype AppError = AppError(kind: ErrorKind, statusCode: int, message: string, code: string, details: Details)

  /** The base error class a specific error extends; base errors are their own base. */
  function BaseKind(kind: ErrorKind): (base: ErrorKind)
    ensures base != kind ==> base in {Conflict, NotFound, Gone}
  {
    match kind
    case CouponAlreadyLocked | CouponAlreadyRedeemed | CouponQuotaExceeded | CouponRedeemLimitReached => Conflict
    case NoAvailableCodes => NotFound
    case LockExpired => Gone
    case _ => kind
  }

  /** The HTTP status: fixed by the base class, so a specific error inherits it. */
  function StatusCode(kind: ErrorKind): (status: int)
    ensures 400 <= status <= 500
  {
    match BaseKind(kind)
    case BadRequest => 400
    case Unauthorized => 401
    case Forbidden => 403
    case NotFound => 404
    case Conflict => 409
    case Gone => 410
    case TooManyRequests => 429
    case _ => 500
  }

  /** A specific error inherits the status of the class it extends, and base classes are their own base. */
  lemma StatusInherited(kind: ErrorKind)
    ensures BaseKind(BaseKind(kind)) == BaseKind(kind)
    ensures StatusCode(kind) == StatusCode(BaseKind(kind))
  {
  }

  /** The machine-readable code. */
  function MachineCode(kind: ErrorKind): string {
    match kind
    case BadRequest => "BAD_REQUEST"
    case Unauthorized => "UNAUTHORIZED"
    case Forbidden => "FORBIDDEN"
    case NotFound => "NOT_FOUND"
    case Conflict => "CONFLICT"
    case Gone => "GONE"
    case TooManyRequests => "TOO_MANY_REQUESTS"
    case InternalServer => "INTERNAL_SERVER_ERROR"
    case CouponAlreadyLocked => "COUPON_ALREADY_LOCKED"
    case CouponAlreadyRedeemed => "COUPON_ALREADY_REDEEMED"
    case CouponQuotaExceeded => "COUPON_QUOTA_EXCEEDED"
    case CouponRedeemLimitReached => "COUPON_REDEEM_LIMIT_REACHED"
    case NoAvailableCodes => "NO_AVAILABLE_CODES"
    case LockExpired => "LOCK_EXPIRED"
    case QueryFailed => "DATABASE_ERROR"
  }

  /** Whether the error's constructor takes a message from its caller. */
  predicate TakesMessage(kind: ErrorKind) {
    BaseKind(kind) == kind
  }

  /**
   * The message used when the caller gives none: the parameter default of a
   * base error, or the fixed message of a specific error.
   */
  function DefaultMessage(kind: ErrorKind): Option<string> {
    match kind
    case Unauthorized => Some("Unauthorized")
    case Forbidden => Some("Forbidden")
    case NotFound => Some("Resource not found")
    case TooManyRequests => Some("Too many requests")
    case InternalServer => Some("Internal server error")
    case CouponAlreadyLocked => Some("This coupon is temporarily locked by another user")
    case CouponAlreadyRedeemed => Some("This coupon has already been redeemed")
    case CouponQuotaExceeded => Some("User has reached maximum coupons limit")
    case CouponRedeemLimitReached => Some("Maximum redemptions reached for this coupon")
    case NoAvailableCodes => Some("No available coupon codes in this book")
    case LockExpired => Some("Lock has expired. Please re-lock the coupon.")
    case QueryFailed => Some("Database operation failed")
    case _ => None
  }

  /**
   * Constructing an error. A specific error takes no message; a base error
   * without a default message must be given one.
   */
  function NewError(kind: ErrorKind, message: Option<string>, details: Details): (e: AppError)
    requires !TakesMessage(kind) ==> message.None?
    requires message.Some? || DefaultMessage(kind).Some?
    ensures e.kind == kind && e.details == details
    ensures e.statusCode == StatusCode(kind) && e.code == MachineCode(kind)
    ensures message.Some? ==> e.message == message.value
    ensures message.None? ==> Some(e.message) == DefaultMessage(kind)
  {
    AppError(kind, StatusCode(kind), message.GetOr(DefaultMessage(kind).GetOr("")), MachineCode(kind), details)
  }

  /** Distinct error kinds are told apart by their machine codes. */
  lemma MachineCodesDistinct(k1: ErrorKind, k2: ErrorKind)
    requires k1 != k2
    ensures MachineCode(k1) != MachineCode(k2)
  {
  }

  /** Every coupon-specific Conflict is a 409; the 404 and 410 specialisations keep their base status. */
  lemma SpecificErrorStatuses()
    ensures StatusCode(CouponAlreadyLocked) == 409 && StatusCode(CouponAlreadyRedeemed) == 409
    ensures StatusCode(CouponQuotaExceeded) == 409 && StatusCode(CouponRedeemLimitReached) == 409
    ensures StatusCode(NoAvailableCodes) == 404 && MachineCode(NoAvailableCodes) == "NO_AVAILABLE_CODES"
    ensures StatusCode(LockExpired) == 410 && MachineCode(LockExpired) == "LOCK_EXPIRED"
  {
  }

  /** The base errors' statuses and codes. */
  lemma BaseErrorStatuses()
    ensures StatusCode(BadRequest) == 400 && MachineCode(BadRequest) == "BAD_REQUEST"
    ensures StatusCode(Unauthorized) == 401 && StatusCode(Forbidden) == 403 && StatusCode(NotFound) == 404
    ensures StatusCode(Conflict) == 409 && MachineCode(Conflict) == "CONFLICT"
    ensures DefaultMessage(Forbidden) == Some("Forbidden") && DefaultMessage(NotFound) == Some("Resource not found")
  {
  }

  // Shorthands for the errors the services raise.

  function BadRequestError(message: string): AppError {
    NewError(BadRequest, Some(message), NoDetails)
  }

  function NotFoundError(message: string): AppError {
    NewError(NotFound, Some(message), NoDetails)
  }

  function ForbiddenError(message: string): AppError {
    NewError(Forbidden, Some(message), NoDetails)
  }

  function AlreadyLockedError(details: Details): AppError {
    NewError(CouponAlreadyLocked, None, details)
  }

  function AlreadyRedeemedError(details: Details): AppError {
    NewError(CouponAlreadyRedeemed, None, details)
  }

  function RedeemLimitReachedError(details: Details): AppError {
    NewError(CouponRedeemLimitReached, None, details)
  }

  function QueryFailedError(): AppError {
    NewError(QueryFailed, None, NoDetails)
  }

  /**
   * The error handler's answer to a failed SQL statement: status 500, code
   * `DATABASE_ERROR` and the production message.
   */
  lemma QueryFailedAnswer()
    ensures QueryFailedError().statusCode == 500 && QueryFailedError().code == "DATABASE_ERROR"
    ensures QueryFailedError().message == "Database operation failed"
    ensures QueryFailedError().details == NoDetails
  {
  }

  /** The outcome of a service call: a value, or the error it throws. */
  datatype Result<+T> = Ok(value: T) | Err(error: AppError) {

    predicate IsFailure() {
      Err?
    }

    function PropagateFailure<U>(): Result<U>
      requires Err?
    {
      Err(error)
    }

    function Extract(): T
      requires Ok?
    {
      value
    }
  }
}
