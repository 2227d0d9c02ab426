# Coupon-code lifecycle engine, modelled in Dafny

This project models the core of a coupon service. A business creates
**coupon books**. Codes are loaded into a book, either generated at random
or uploaded as a list. A user claims a code, at random from the book's pool
or by naming it. The user can **lock** the code for checkout, **unlock** it
again, and **redeem** it. A book may allow several redemptions per user
(`maxRedeemsPerUser`, null meaning unlimited) and several codes per user
(`maxCodesPerUser`). Each code moves through the states AVAILABLE → ASSIGNED →
LOCKED ⇄ ASSIGNED → REDEEMED. Each lock, unlock and redemption may append
one row to an audit trail. The lock window is kept in a cache under the key
`coupon:lock:<codeId>`.

The modules follow the program's layers:

- **Entities.** The entities with their getters `isExpired`, `isActive`,
  `isLocked` and `isRedeemed`.
- **Errors.** The error taxonomy: each kind with its HTTP status, machine
  code and default message. One kind, `QueryFailed`, is not an error class.
  It is the error handler's answer to a failed SQL statement
  (`QueryFailedError`): status 500, code `DATABASE_ERROR` and the message
  "Database operation failed".
- **CodeGenerator.** Random codes and de-duplication, with the randomness
  passed in as draws. Randomness holds `Math.floor(r * n)`.
- **Repositories.** Three repository modules: CodeRepository,
  AssignmentRepository and BookRepository. Their queries are functions over
  tables. Each table is a sequence of rows in insertion order, and "newest
  first" reads that order back to front.
- **Store.** The class `CouponStore` owns the tables, the audit trail and
  the lock cache. It holds the feature flags `auditLogging` and `redisCache`
  and the lock TTL, all fixed at construction. Its methods are the
  repository writes.
- **Services.** Four service modules: BookService, AssignmentService,
  RedemptionService and CodeService. A service call is one atomic step with
  two parts:
  - a pure precheck that returns the error the call throws;
  - a method that changes the store.

  Each method's contract states the whole new state.

Several invariants are proved to hold across every service call that
changes the store:

- keys are unique and the foreign keys hold;
- `redeemCount ≤ maxRedeemsPerUser` whenever the book sets a maximum;
- a REDEEMED code is never left;
- no single step goes from AVAILABLE to REDEEMED or LOCKED;
- the audit trail only grows, by at most one row per call.

Time (`now`, in milliseconds), the random draws and the keys of new rows are
parameters.

## Model

| member | source | states |
|---|---|---|
| Seqs.Filter | src/repositories/couponCode.repository.ts:35-39 | a WHERE clause keeps exactly the rows satisfying it, and never more rows than the table has |
| Seqs.CountWhere | src/repositories/couponCode.repository.ts:73-77 | a COUNT(*) is at most the table size |
| Seqs.CountIsFilterLength | src/repositories/couponCode.repository.ts:73-77 | COUNT(*) equals the length of the matching SELECT |
| Seqs.Reverse | src/repositories/couponCode.repository.ts:56 | DESC order over insertion order is the table read back to front, element by element |
| Seqs.ReverseSameElements | src/repositories/couponBook.repository.ts:22-34 | ordering does not change which rows are returned |
| Seqs.Page | src/repositories/couponCode.repository.ts:57-58 | LIMIT/OFFSET: none past the end, otherwise the rows from the offset on, at most `limit` of them when `limit` is positive and all of them when it is 0 (no LIMIT clause) |
| Seqs.FilterAscending | src/repositories/couponCode.repository.ts:47-59 | a WHERE clause keeps rows in timestamp order |
| Seqs.ReverseDescending | src/repositories/couponCode.repository.ts:56 | reading an ascending table backwards is newest first |
| Seqs.NewestFirst | src/repositories/couponCode.repository.ts:47-59 | the matching rows read backwards are in descending timestamp order |
| Seqs.NewestPage | src/repositories/couponCode.repository.ts:41-60 | a page of the newest-first result holds only matching rows and keeps the newest-first order |
| Seqs.AppendKeepsAscending | src/repositories/couponCode.repository.ts:56 | a row stamped no earlier than every stored row keeps the table in timestamp order, the premise of every newest-first result |
| Seqs.CountWhereUpdate | src/repositories/couponCode.repository.ts:89-91 | rewriting a row the count treats alike leaves a COUNT unchanged |
| Seqs.CountWhereAppend | src/repositories/couponAssignment.repository.ts:12-15 | an inserted row adds one to a COUNT exactly when it matches |
| Seqs.CountWhereSame | src/repositories/couponAssignment.repository.ts:40-47 | two WHERE clauses that agree on every row count the same |
| Entities.IsExpired | src/entities/CouponBook.entity.ts:72-74 | a book without expiry never expires, and at the expiry instant it is not yet expired |
| Entities.IsActive | src/entities/CouponBook.entity.ts:76-78 | active implies not expired; DRAFT and CLOSED are never active; ACTIVE without expiry is always active |
| Entities.ExpiryIsPermanent | src/entities/CouponBook.entity.ts:72-78 | once expired, a book is expired and inactive at every later time |
| Entities.IsLocked | src/entities/CouponAssignment.entity.ts:52-56 | locked needs both window ends set, and is false once `now ≥ lockedUntil` |
| Entities.LockedEarlier | src/entities/CouponAssignment.entity.ts:55 | a lock in force at time t was in force at every earlier time |
| Entities.NewAssignment | src/entities/CouponAssignment.entity.ts:43-60 | a new assignment has `redeemCount` 0, is not redeemed by the `isRedeemed` getter (`Entities.IsRedeemed`: `redeemedAt` set), and is never locked |
| Entities.CodeStatusNamesDistinct | src/types/enums.ts:7-13 | the status strings `Entities.CodeStatusName` gives, as stored and shown in messages, are equal only for equal statuses |
| Errors.BaseKind | src/utils/errors.ts:75-115 | the specific errors extend Conflict, NotFound or Gone; the rest are their own base |
| Errors.StatusCode | src/utils/errors.ts:5-72 | every status is a 4xx or 500 |
| Errors.StatusInherited | src/utils/errors.ts:75-115 | a specific error carries its base class's status; base classes are their own base |
| Errors.NewError | src/utils/errors.ts:5-16 | a constructed error keeps its kind and details, gets its kind's status and code, and takes the given message or else the default one |
| Errors.MachineCodesDistinct | src/utils/errors.ts:19-115 | distinct error kinds have distinct machine codes |
| Errors.QueryFailedAnswer | src/middlewares/errorHandler.ts:42-50 | a failed SQL statement is answered with status 500, code `DATABASE_ERROR` and the production message "Database operation failed" |
| Errors.SpecificErrorStatuses | src/utils/errors.ts:75-115 | the four coupon Conflicts are 409; NoAvailableCodes is 404 `NO_AVAILABLE_CODES`; LockExpired is 410 `LOCK_EXPIRED` |
| Errors.BaseErrorStatuses | src/utils/errors.ts:19-51 | BadRequest 400 `BAD_REQUEST`, Unauthorized 401, Forbidden 403, NotFound 404, Conflict 409 `CONFLICT`; default messages 'Forbidden' and 'Resource not found' |
| Randomness.RandomIndex | src/services/assignment.service.ts:55 | `Math.floor(Math.random() * n)` is an index in `[0, n)` |
| Decimal.NatToString | src/services/assignment.service.ts:42 | `${n}` of a natural is a non-empty digit string without leading zeros |
| Decimal.IntToString | src/services/assignment.service.ts:42 | `${n}` is non-empty, digits for n ≥ 0, a leading minus otherwise |
| Decimal.NatToStringRoundTrip | src/services/assignment.service.ts:42 | reading the digits back gives the number |
| CodeGenerator.Upper | src/utils/codeGenerator.ts:33 | ASCII upper-casing keeps the length (the ASCII restriction is under Left out) |
| CodeGenerator.UpperIdempotent | src/utils/codeGenerator.ts:33 | upper-casing twice is upper-casing once |
| CodeGenerator.UpperConcat | src/utils/codeGenerator.ts:33 | upper-casing `prefix + randomPart` upper-cases each part |
| CodeGenerator.RandomPart | src/utils/codeGenerator.ts:6-13 | one character per draw |
| CodeGenerator.GenerateRandomCode | src/utils/codeGenerator.ts:6-13 | the loop returns exactly `length` characters, all in A–Z0–9, one per draw |
| CodeGenerator.Candidates | src/utils/codeGenerator.ts:31-36 | one candidate per attempt |
| CodeGenerator.CandidatesStep | src/utils/codeGenerator.ts:31-36 | one more attempt appends its candidate |
| CodeGenerator.CandidateOrigin | src/utils/codeGenerator.ts:32-33 | every candidate is `(prefix + randomPart).toUpperCase()` (`CodeGenerator.Candidate`) of one of the attempts |
| CodeGenerator.RemoveDuplicates | src/utils/codeGenerator.ts:66-68 | the same elements with no repeats, no longer than the input |
| CodeGenerator.RemoveDuplicatesKeepsFirstOccurrences | src/utils/codeGenerator.ts:66-68 | the kept elements come in the order of their first occurrences in the input; with the set equality and no repeats this fixes the result |
| CodeGenerator.RemoveDuplicatesOfDistinct | src/utils/codeGenerator.ts:66-68 | a list without repeats is returned unchanged |
| CodeGenerator.GenerateUniqueCodes | src/utils/codeGenerator.ts:22-39 | at most `10 × quantity` attempts; the Set is the de-duplicated candidate list; it has `quantity` codes unless the attempts ran out; pairwise distinct, each the upper-cased prefix plus random part |
| CodeGenerator.FindDuplicates | src/utils/codeGenerator.ts:46-59 | each element occurring at least twice, exactly once, and nothing else |
| CodeGenerator.NoDuplicatesIffNothingRemoved | src/utils/codeGenerator.ts:46-68 | no element occurs twice iff de-duplication removes nothing |
| CodeRepository.FindById | src/repositories/couponCode.repository.ts:23-25 | a row with that id, or null exactly when no row has it |
| CodeRepository.FindByIdUnique | src/repositories/couponCode.repository.ts:23-25 | with unique ids, the very row carrying the id |
| CodeRepository.FindByCode | src/repositories/couponCode.repository.ts:27-29 | a row with that code string, or null exactly when none has it |
| CodeRepository.FindByCodeUnique | src/entities/CouponCode.entity.ts:26-27 | the code column is unique, so the single row with that string is found |
| CodeRepository.FindAvailableByBook | src/repositories/couponCode.repository.ts:35-39 | exactly the book's AVAILABLE rows |
| CodeRepository.FindByBookWithPagination | src/repositories/couponCode.repository.ts:41-60 | rows of the book, filtered by status only when given: the window from `offset` of the matching rows read newest first, at most a positive `limit` of them (all for 0), total = matching count, newest first when the table is in timestamp order |
| CodeRepository.FindExistingCodes | src/repositories/couponCode.repository.ts:62-71 | empty for an empty list, otherwise exactly the book's rows whose code is listed |
| CodeRepository.CountByBookAndStatus | src/repositories/couponCode.repository.ts:73-77 | a count bounded by the table size |
| CodeRepository.CountAvailableIsPoolSize | src/repositories/couponCode.repository.ts:35-77 | the AVAILABLE count is the size of the assignment pool |
| CodeRepository.GroupByStatus | src/repositories/couponCode.repository.ts:79-87 | one row per present status, carrying its count, statuses distinct |
| CodeRepository.GetBookStatistics | src/repositories/couponCode.repository.ts:79-87 | every row's count is `countByBookAndStatus`, every present status has its row, no status twice |
| CodeRepository.GroupedSum | src/repositories/couponCode.repository.ts:79-87 | the GROUP BY counts add up to the per-status counts |
| CodeRepository.SumOverAllStatuses | src/repositories/couponCode.repository.ts:79-87 | the sum over the five statuses, written out |
| CodeRepository.StatusesPartitionBook | src/types/enums.ts:7-13 | every code of a book has exactly one of the five statuses |
| CodeRepository.BookStatisticsSum | src/repositories/couponCode.repository.ts:79-87 | the statistics counts sum to the number of codes of the book |
| CodeRepository.WithStatus | src/repositories/couponCode.repository.ts:89-91 | `updateStatus` changes only the status of the row with that id; keys and code strings stay |
| CodeRepository.FindByIdWithStatus | src/repositories/couponCode.repository.ts:89-91 | after `updateStatus`, `findById` finds the same rows with the same book |
| CodeRepository.FindByCodeWithStatus | src/repositories/couponCode.repository.ts:89-91 | after `updateStatus`, `findByCode` finds the row with its new status |
| CodeRepository.SumCountsAppend | src/services/couponCode.service.ts:163-184 | adding row counts in order: one more row adds its count |
| CodeRepository.LastCount | src/services/couponCode.service.ts:163-184 | a status absent from the rows reads 0; a present one reads a count of one of its rows |
| CodeRepository.StatisticsPerStatus | src/repositories/couponCode.repository.ts:79-87 | read per status, the statistics rows give exactly `countByBookAndStatus`, and a status has a row iff it is counted |
| AssignmentRepository.FindByCodeId | src/repositories/couponAssignment.repository.ts:24-29 | a row naming the code (code_id is not unique) |
| AssignmentRepository.FindByCodeIdNone | src/repositories/couponAssignment.repository.ts:24-29 | null exactly when no row names the code |
| AssignmentRepository.FindByUserAndBook | src/repositories/couponAssignment.repository.ts:31-38 | exactly the user's rows whose code belongs to the book (joined through the code) |
| AssignmentRepository.CountByUserAndBook | src/repositories/couponAssignment.repository.ts:40-47 | the quota counter is bounded by the table size |
| AssignmentRepository.CountIsFindLength | src/repositories/couponAssignment.repository.ts:31-47 | the counter equals the length of `findByUserAndBook` |
| AssignmentRepository.CountIgnoresAssignmentBookId | src/repositories/couponAssignment.repository.ts:40-47 | the count ignores the assignment's own `book_id` column |
| AssignmentRepository.FindUserAssignments | src/repositories/couponAssignment.repository.ts:49-55 | exactly the user's rows, `assigned_at` descending when the table is in timestamp order |
| AssignmentRepository.Without | src/repositories/couponAssignment.repository.ts:57-59 | `delete` removes only the given id, one row when present |
| AssignmentRepository.WithRedeemState | src/services/redemption.service.ts:407-414 | the redemption write changes only `redeemCount`/`redeemedAt` of that row |
| AssignmentRepository.FindByCodeIdWithRedeemState | src/services/redemption.service.ts:407-414 | after that write, the code's assignment is found with the new count and time |
| BookRepository.FindById | src/repositories/couponBook.repository.ts:18-20 | a book with that id, or null exactly when none has it |
| BookRepository.FindByIdUnique | src/repositories/couponBook.repository.ts:18-20 | with unique ids, the very row carrying the id |
| BookRepository.FindAll | src/repositories/couponBook.repository.ts:22-34 | business filter only when a non-empty id is given, status filter only when given, conjunctive, all matches kept, newest first when the table is in timestamp order |
| BookRepository.FindActiveByBusiness | src/repositories/couponBook.repository.ts:36-43 | exactly the ACTIVE books of the business |
| BookRepository.FindExpiredBooks | src/repositories/couponBook.repository.ts:45-51 | exactly the books `isExpired` holds for |
| BookRepository.WithGeneratedCountIncrement | src/repositories/couponBook.repository.ts:53-55 | adds `amount` to that book's `generatedCount` only |
| BookRepository.Patched | src/repositories/couponBook.repository.ts:61-63 | a patch sets exactly the given columns, business and generated count included, and keeps id and creation time |
| BookRepository.WithPatch | src/repositories/couponBook.repository.ts:61-63 | `update` rewrites only the row with that id |
| BookRepository.WithSaved | src/repositories/couponBook.repository.ts:57-59 | `save` over an existing row replaces only that row |
| BookRepository.SavedRowFound | src/repositories/couponBook.repository.ts:57-59 | after `save`, `findById` returns the saved row |
| BookRepository.Without | src/repositories/couponBook.repository.ts:65-67 | `delete` removes only the given id |
| Store.LockKey | src/services/redemption.service.ts:37-39 | the key is `coupon:lock:` followed by the code id |
| Store.LockKeyInjective | src/services/redemption.service.ts:37-39 | distinct codes never share a lock key |
| Store.CacheGet | src/services/redemption.service.ts:94 | a cache read returns the stored entry while it lives, nothing after its expiry |
| Store.ReadLock | src/services/redemption.service.ts:94 | with the cache disabled nothing is read |
| Store.RetryAfterSeconds | src/services/redemption.service.ts:41-45 | `max(0, ceil((expires − now)/1000))`: never negative and the smallest whole second count covering the wait |
| Store.RetryAfterLiveLock | src/services/redemption.service.ts:41-101 | a live lock asks for at least one second |
| Store.StatusStepFacts | src/types/enums.ts:7-13 | under the legal status moves of the services, REDEEMED is never left and AVAILABLE never steps to REDEEMED or LOCKED |
| Store.RedeemedStaysRedeemed | src/services/redemption.service.ts:394-404 | along any run of legal steps, a REDEEMED code stays REDEEMED with the same id and book |
| Store.AppendCodesValid | src/repositories/couponCode.repository.ts:18-21 | inserting insertable rows with fresh ids keeps keys and foreign keys |
| Store.CouponStore.constructor | src/config/environment.ts:111-115 | empty tables and cache, the flags and TTL given, all invariants hold |
| Store.CouponStore.UpdateStatus | src/repositories/couponCode.repository.ts:89-91 | the code table becomes `WithStatus`, nothing else changes |
| Store.CouponStore.BulkCreateCodes | src/repositories/couponCode.repository.ts:18-21 | insertable rows are appended; otherwise a database error and nothing changes |
| Store.CouponStore.CreateAssignment | src/repositories/couponAssignment.repository.ts:12-15 | exactly one row is appended when its code exists, otherwise a database error |
| Store.CouponStore.DeleteAssignment | src/repositories/couponAssignment.repository.ts:57-59 | only the given id is removed |
| Store.CouponStore.CreateBook | src/repositories/couponBook.repository.ts:13-16 | one book is appended |
| Store.CouponStore.IncrementGeneratedCount | src/repositories/couponBook.repository.ts:53-55 | only that book's count rises by `amount` |
| Store.CouponStore.UpdateBook | src/repositories/couponBook.repository.ts:61-63 | only that book is patched |
| Store.CouponStore.SaveBook | src/repositories/couponBook.repository.ts:57-59 | an existing row is replaced, a new one appended |
| Store.CouponStore.DeleteBook | src/repositories/couponBook.repository.ts:65-67 | refused while a code references the book, otherwise only that book goes |
| Preservation.GoverningBookKept | src/repositories/couponAssignment.repository.ts:40-47 | rewrites keeping code books and book quotas keep each assignment's governing quota |
| Preservation.QuotaKept | src/entities/CouponBook.entity.ts:27-33 | `redeemCount ≤ maxRedeemsPerUser` survives any such rewrite |
| Preservation.StatusChangeKeepsBooks | src/repositories/couponCode.repository.ts:89-91 | `updateStatus` keeps every code's id and book |
| Preservation.StatusChange | src/repositories/couponCode.repository.ts:89-91 | `updateStatus` keeps keys and the redeem quota, and is a legal step when the status move is |
| Preservation.AssignmentAppended | src/repositories/couponAssignment.repository.ts:12-15 | a fresh assignment with no redemptions keeps keys and the redeem quota |
| Preservation.RedeemStateValid | src/services/redemption.service.ts:407-414 | the redemption write keeps keys and foreign keys |
| Preservation.RedeemRecorded | src/services/redemption.service.ts:407-414 | one more redemption below the maximum keeps the redeem quota |
| Preservation.CodesAppended | src/services/couponCode.service.ts:43-55 | appending AVAILABLE codes is a legal step that keeps every code's book |
| Preservation.GeneratedCountKeepsPolicies | src/repositories/couponBook.repository.ts:53-55 | the count increment keeps every book's quotas |
| Preservation.BookAppendedKeepsPolicies | src/repositories/couponBook.repository.ts:13-16 | a new book keeps the others' quotas |
| Preservation.BookSavedKeepsPolicies | src/repositories/couponBook.repository.ts:57-59 | saving a book with the same quotas keeps every quota |
| BookService.NewBook | src/services/couponBook.service.ts:17-30 | the created book is DRAFT whatever the request, absent quotas stay null, count 0, never active |
| BookService.BookAddedKeepsQuota | src/services/couponBook.service.ts:17-30 | creating a book keeps the redeem quota |
| BookService.Create | src/services/couponBook.service.ts:17-30 | exactly that row is appended; invariants and the redeem quota kept |
| BookService.GetById | src/services/couponBook.service.ts:36-44 | the book iff the id exists, otherwise NotFound (404) with its message |
| BookService.ApplyUpdate | src/services/couponBook.service.ts:49-53 | name replaced only by a non-empty one, description whenever given (empty included), status and expiry when given, no other field changes |
| BookService.UpdateKeepsQuota | src/services/couponBook.service.ts:46-56 | an update keeps both quotas, so the redeem quota holds on |
| BookService.Update | src/services/couponBook.service.ts:46-56 | NotFound leaves the store alone; otherwise only that book is replaced by the merged one |
| BookService.CountsByStatus | src/services/couponBook.service.ts:65-68 | the reduce keys exactly the row statuses, each to the last count of its status |
| BookService.GetStatistics | src/services/couponBook.service.ts:58-70 | NotFound iff the book is unknown; otherwise a status is keyed iff the book has codes in it, with exactly that count |
| RedemptionService.FindHeld | src/services/redemption.service.ts:54-66 | success names the caller's assignment of that code |
| RedemptionService.FindHeldOutcomes | src/services/redemption.service.ts:54-66 | unknown code → NotFound; unassigned → BadRequest; held by another → Forbidden; success iff the caller holds it |
| RedemptionService.BookGuard | src/services/redemption.service.ts:68-79 | success is the code's active book; a missing book is NotFound |
| RedemptionService.ExpiredBookErrorUnreachable | src/services/redemption.service.ts:77-79 | the "book has expired" error is never raised, an expired book is refused as inactive |
| RedemptionService.LockPrecheck | src/services/redemption.service.ts:54-91 | identity errors pass through; success only for the caller's ASSIGNED or LOCKED code of an active book |
| RedemptionService.LockStatusRules | src/services/redemption.service.ts:81-91 | REDEEMED → 409 AlreadyRedeemed, EXPIRED/AVAILABLE → 400, ASSIGNED/LOCKED pass |
| RedemptionService.PlanLock | src/services/redemption.service.ts:93-116 | answered from the cache only for a LOCKED code with a live entry of the same user; with the cache off always a fresh lock |
| RedemptionService.LockConflictOnlyFromForeignEntry | src/services/redemption.service.ts:96-102 | the lock conflict needs a live cache entry naming someone other than the assignment's holder, and carries its expiry and retry-after |
| RedemptionService.LockTransaction | src/services/redemption.service.ts:118-173 | the re-read row must exist and be ASSIGNED or LOCKED (else 400, nothing written); then LOCKED and one LOCK audit row with the status read |
| RedemptionService.LockCoupon | src/services/redemption.service.ts:47-192 | errors change nothing; a cached lock of the caller is returned unchanged with no write; otherwise LOCKED, one LOCK audit row (prior → LOCKED) and the cache entry `now + ttl`; invariants kept |
| RedemptionService.LockKeepsInvariants | src/services/redemption.service.ts:148-152 | locking an ASSIGNED or LOCKED code is a legal step keeping keys and the redeem quota |
| RedemptionService.LockAfresh | src/services/redemption.service.ts:114-191 | a stale entry of an ASSIGNED code is dropped, the code LOCKED, one audit row appended and the new window cached |
| RedemptionService.UnlockPrecheck | src/services/redemption.service.ts:201-244 | identity errors pass through; success only for ASSIGNED or LOCKED; no book checks |
| RedemptionService.UnlockStatusRules | src/services/redemption.service.ts:215-244 | AVAILABLE → 400 "cannot be unlocked", REDEEMED → 409, EXPIRED → 400 |
| RedemptionService.UnlockTransaction | src/services/redemption.service.ts:252-297 | the re-read row must be LOCKED (else 400, nothing written); then ASSIGNED and one UNLOCK audit row |
| RedemptionService.UnlockCoupon | src/services/redemption.service.ts:194-310 | errors change nothing; ASSIGNED only drops a live cache entry; LOCKED → ASSIGNED with one UNLOCK audit row (LOCKED → ASSIGNED) and the entry deleted |
| RedemptionService.IsFinalRedeem | src/services/redemption.service.ts:394 | final with no maximum, otherwise iff the new count reaches the maximum |
| RedemptionService.FinalRedeemIsTheLastAllowed | src/services/redemption.service.ts:394 | with maximum n, redemptions 1 … n−1 are partial and the n-th is final |
| RedemptionService.RedeemPrecheck | src/services/redemption.service.ts:319-368 | success only for the caller's ASSIGNED or LOCKED code of an active book with the count below the maximum |
| RedemptionService.RedeemQuotaRule | src/services/redemption.service.ts:362-368 | count ≥ a set maximum → 409 RedeemLimitReached with both numbers; below it passes |
| RedemptionService.RedeemOfRedeemedCode | src/services/redemption.service.ts:347-352 | a REDEEMED code is refused with its `redeemedAt` and count |
| RedemptionService.RedeemMetadata | src/services/redemption.service.ts:425-430 | the caller's metadata with `redeemCount`, `maxRedeems` and `isFinalRedeem` set over it |
| RedemptionService.RedeemTablesValid | src/services/redemption.service.ts:394-414 | the redemption writes keep keys and foreign keys |
| RedemptionService.RedeemStateFound | src/services/redemption.service.ts:407-414 | after the write the claim's assignment reads one more redemption and the new `redeemedAt` |
| RedemptionService.PartialThenAccepted | src/services/redemption.service.ts:394-414 | after a partial redemption the next precheck accepts, with the count one higher and `redeemedAt` null |
| RedemptionService.FinalThenRefused | src/services/redemption.service.ts:347-414 | after the final redemption the next precheck is AlreadyRedeemed with time `now` and the new count |
| RedemptionService.RedeemAgain | src/services/redemption.service.ts:319-414 | what a second redeem meets: AlreadyRedeemed after a final one, acceptance with the raised count after a partial one |
| RedemptionService.ThreeRedemptionsAllowed | src/services/redemption.service.ts:363-414 | with maximum 3 and a fresh assignment: first and second partial, third final, fourth AlreadyRedeemed |
| RedemptionService.RedeemTransaction | src/services/redemption.service.ts:378-440 | only the row's existence is re-checked; then, from the values read before, the code table of `RedeemedCodes` (REDEEMED on the final redemption, `FinalFor`), the assignment table of `RedeemedAssignments` (count + 1, `RedeemedAt` set on the final redemption, null otherwise) and one audit row `RedeemAuditRow` |
| RedemptionService.RedeemCoupon | src/services/redemption.service.ts:312-459 | errors change nothing; otherwise the redemption writes, the reply, and the cache entry deleted; invariants kept |
| RedemptionService.RedeemReply | src/services/redemption.service.ts:447-458 | count + 1, the maximum, finality, and REDEEMED status iff final |
| RedemptionService.RedeemKeepsInvariants | src/services/redemption.service.ts:394-414 | a redemption is a legal step keeping keys and the redeem quota |
| RedemptionService.RedeemQuotaKept | src/services/redemption.service.ts:363-414 | `redeemCount ≤ maxRedeemsPerUser` holds after a redemption below the maximum |
| RedemptionService.ClaimGovernedByItsBook | src/services/redemption.service.ts:333 | the quota of a claimed assignment is its code's book |
| RedemptionService.RedeemCountQuotaKept | src/services/redemption.service.ts:407-414 | the count write keeps the redeem quota |
| RedemptionService.RedeemCountValid | src/services/redemption.service.ts:407-414 | the count write keeps keys |
| RedemptionService.RedeemClaim | src/services/redemption.service.ts:370-458 | the whole write sequence for an accepted claim: tables, audit, cache and reply |
| AssignmentService.RandomPrecheck | src/services/assignment.service.ts:24-52 | success is the active book, the user under quota (`UnderCodeQuota`, checked by `CodeQuotaGuard` with the `CodeQuotaMessage` error) and the non-empty pool |
| AssignmentService.RandomPrecheckRules | src/services/assignment.service.ts:24-52 | missing book → 404; inactive → BadRequest; at quota → BadRequest; accepted iff the pool is non-empty; the expiry error is never raised |
| AssignmentService.PickCode | src/services/assignment.service.ts:55-56 | the drawn code is in the pool |
| AssignmentService.AssignKeepsInvariants | src/services/assignment.service.ts:79-97 | claiming an AVAILABLE code is a legal step keeping keys and the redeem quota |
| AssignmentService.AssignTransaction | src/services/assignment.service.ts:63-97 | a row gone or no longer AVAILABLE → BadRequest and nothing written; otherwise ASSIGNED and one new assignment row |
| AssignmentService.AssignRandomCode | src/services/assignment.service.ts:22-115 | errors change nothing; otherwise exactly the drawn code becomes ASSIGNED and one row `{codeId, userId, bookId}` is added; no audit, no cache |
| AssignmentService.SpecificPrecheck | src/services/assignment.service.ts:120-154 | success is the AVAILABLE named code (`FindAvailableCode`), its active book, and the user under quota |
| AssignmentService.SpecificPrecheckRules | src/services/assignment.service.ts:120-154 | existence (404) and status (400) are decided before the book, then the book guard, then the quota |
| AssignmentService.AssignSpecificCode | src/services/assignment.service.ts:120-212 | errors change nothing; otherwise that code becomes ASSIGNED and one row is added |
| AssignmentService.OnlyClaimedCodeChanges | src/services/assignment.service.ts:79-84 | every other code row is unchanged |
| AssignmentService.ClaimCountsTowardsQuota | src/services/assignment.service.ts:38-95 | a claim adds one to its user's count in the code's book and leaves every other count |
| AssignmentService.ClaimWithinCodeQuota | src/services/assignment.service.ts:38-45 | after a claim under quota the user has at most the maximum |
| AssignmentService.SecondClaimRefused | src/services/assignment.service.ts:38-95 | with `maxCodesPerUser = 1` a second random claim is refused with the quota message |
| AssignmentService.GetUserAssignments | src/services/assignment.service.ts:217-229 | one view per assignment, in `findUserAssignments` order, with its code string and its code's book |
| AssignmentService.UserAssignmentsComplete | src/services/assignment.service.ts:217-229 | every assignment of the user is listed, nothing else, newest first when the table is in timestamp order |
| CodeService.ExistingCodeSet | src/services/couponCode.service.ts:34-36 | exactly the listed strings the book already has |
| CodeService.NewCodeRows | src/services/couponCode.service.ts:43-47 | one AVAILABLE row of the book per new string |
| CodeService.NewRowsFresh | src/services/couponCode.service.ts:43-47 | the new rows' keys are fresh |
| CodeService.CodesLoaded | src/services/couponCode.service.ts:50-55 | loading codes is a legal step that keeps the redeem quota |
| CodeService.InsertCodes | src/services/couponCode.service.ts:50-55 | as `LoadOutcome` states: nothing is written for no rows; otherwise the rows are appended and `generatedCount` rises by their number, or a database error writes nothing |
| CodeService.NewCodeStrings | src/services/couponCode.service.ts:34-40 | exactly the generated strings the book does not have |
| CodeService.GenerateCodes | src/services/couponCode.service.ts:18-58 | NotFound for a missing book with nothing written; the generator's strings are distinct and at most `quantity`; the created rows are the new strings, `skipped = |generated| − |new|` |
| CodeService.SplitUploads | src/services/couponCode.service.ts:86-98 | each input goes to `skipped` (own spelling) iff its upper-case form exists, else upper-cased to `created`; never both |
| CodeService.PartitionUploads | src/services/couponCode.service.ts:86-98 | the loop builds exactly that split |
| CodeService.UpperAll | src/services/couponCode.service.ts:92-96 | every input upper-cased, position by position |
| CodeService.UploadLookupMissesLowerCase | src/services/couponCode.service.ts:79-98 | the lookup as written (`UploadExistingAsWritten`, by the input spellings) lets `abc` through to be created as `ABC` beside a stored `ABC` |
| CodeService.UploadSkipsBookCodes | src/services/couponCode.service.ts:79-98 | with the corrected lookup (`UploadExisting`, by the upper-cased spellings), skipped iff the book has the upper-cased form, and nothing created already exists |
| CodeService.UploadCodes | src/services/couponCode.service.ts:63-114 | NotFound for a missing book with nothing written; duplicates are exactly those occurring twice; the split of the de-duplicated input is loaded |
| CodeService.GetCodesByBook | src/services/couponCode.service.ts:119-139 | NotFound iff the book is unknown; otherwise exactly the repository's page from `offset` (rows of the book with the status filter, at most a positive `limit` of them, newest first for a table in timestamp order) and `total`, the number of matching rows |
| CodeService.TallyStatistics | src/services/couponCode.service.ts:163-184 | the counters are `Tallied`: the total adds every row's count, and each counter holds its status's count |
| CodeService.GetBookStatistics | src/services/couponCode.service.ts:144-187 | each counter is the book's count in that status; the total is the book's code count and the sum of the five counters |

## Left out

- HTTP plumbing is not modelled: controllers, routes, validation middleware,
  the error handler and the rate limiter. The HTTP status of an error is
  modelled through `Errors.StatusCode`. From the error handler, only its
  answer to a failed SQL statement is modelled, as the `QueryFailed` kind.
  That kind carries the production message. In development mode the handler
  shows the database's own message instead, which is not modelled.
- The request bounds checked by the DTO schemas become preconditions:
  positive quotas, `quantity` in 1..10000 and `length` in 6..20.
- Concurrency is not modelled. Row locks, transaction begin/commit/rollback
  and interleavings are out. Each service call is one atomic step, and its
  error paths leave the store unchanged, as a rollback would.
- The Redis client is out: its connection, retries and JSON encoding. The
  cache is a map from lock key to lock data. An entry whose expiry time is
  at or before `now` reads as absent, which models the key's TTL.
- `Math.random()` and `new Date()` become parameters. Each random value is a
  real in [0, 1), and `now` is in milliseconds. Database-generated uuids and
  default timestamps are also parameters, with a freshness precondition.
- Configuration, the ORM data source and logging are out. Only the feature
  flags `auditLogging` and `redisCache` and the lock TTL remain, as
  constructor values of `Store.CouponStore`.
- The lock-window columns `lockedAt`/`lockedUntil` of an assignment are
  never written by the services, so the model never writes them.
  `Entities.IsLocked` is modelled for its own properties.
- `getAll` of the book service only calls `findAll`, so `BookRepository.FindAll`
  stands for both.
- `save`, `delete` and `findById` of the code repository and `save` of the
  assignment repository are not called by the services. The assignment
  repository's `save` is left out. The redemption service writes the
  assignment row through `update`, which is `AssignmentRepository.WithRedeemState`.
- BookRepository.Patched: the patch cannot set the primary key `id` or
  `createdAt`, which a `Partial<CouponBook>` could name. No service calls
  the repository's `update`; the book service updates through `save`.
- `findAvailableByBook` and `findByCodeId` have no ORDER BY, so the database
  may return their rows in any order, and `findOne` may pick any matching
  assignment. The model returns the pool in insertion order
  (`CodeRepository.FindAvailableByBook`) and the first matching row
  (`AssignmentRepository.FindByCodeId`). No property depends on this: the
  random draw is quantified over every index, and a code is assigned at most
  once through the services.
- The order of the `GROUP BY status` rows is unspecified in the database.
  The model returns the statuses in enum order. Every property proved about
  them holds for any order of distinct statuses.
- `parseInt(row.count.toString())` is not modelled. Counts are already
  integers.
- Details carried as `Date` objects (`lockedUntil`, `redeemedAt`) are
  integers in milliseconds. ISO string formatting is not modelled.
- `CodeService.UploadCodes` uses the corrected existing-code lookup
  described under Findings. It does not reproduce the unique-key violation
  the lookup as written leads to. That path is exhibited by
  `CodeService.UploadLookupMissesLowerCase`.
- Only ASCII case mapping is modelled. In JavaScript, `toUpperCase` also
  maps other letters (`é` to `É`) and can change the length (`ß` becomes
  `SS`). For non-ASCII prefixes and uploaded codes, the members below do
  not capture the exact strings stored.
- CodeGenerator.Upper: maps ASCII letters only, as said above.
- CodeService.UpperAll: maps each input with the ASCII-only `Upper`.
- CodeGenerator.Candidate: upper-cases the prefix with the ASCII-only `Upper`.
- CodeGenerator.GenerateRandomCode: its candidates go through the ASCII-only `Upper`.
- CodeService.SplitUploads: compares the ASCII-only upper-cased spellings.
- CodeService.PartitionUploads: compares the ASCII-only upper-cased spellings.
- Timestamp order of the tables is not an invariant of the store. A table
  whose rows were inserted in timestamp order stays so when the clock never
  goes backwards, since each insert is then stamped no earlier than the rows
  before it (`Seqs.AppendKeepsAscending`). The `now` parameters are not
  constrained to be non-decreasing, and ties in the timestamp are ordered
  by insertion.
- CodeRepository.FindByBookWithPagination: newest first only for a table in timestamp order.
- AssignmentRepository.FindUserAssignments: `assigned_at` descending only for a table in timestamp order.
- BookRepository.FindAll: newest first only for a table in timestamp order.
- AssignmentService.UserAssignmentsComplete: newest first only for a table in timestamp order.
- CodeService.GetCodesByBook: newest first only for a table in timestamp order, through the repository page it returns.
- `limit` and `offset` of the code listing are natural numbers. `Number(...)`
  of a non-numeric or negative query value (NaN, -1) is not modelled. A
  `limit` of 0 is modelled as no LIMIT clause, as the query builder omits
  it for a falsy value.
- CodeGenerator.RemoveDuplicates: the first-occurrence order is stated by the lemma
  `CodeGenerator.RemoveDuplicatesKeepsFirstOccurrences`, not in the
  function's own contract. This keeps the proof of `GenerateUniqueCodes`
  small.
- Audit rows for ASSIGN and EXPIRE actions are never written by the core,
  and there is no code path that sets a code to EXPIRED. Those values exist
  only as enum members.

## Findings

| source | as written | input that shows it | evidently intended | confidence | as-written member | corrected member |
|---|---|---|---|---|---|---|
| src/services/couponCode.service.ts:79-98 | `findExistingCodes` is given the input spellings, but the loop asks the resulting set for `code.toUpperCase()` and stores the upper-cased form | the book holds `ABC` and the upload is `["abc"]`: the set is empty, so `abc` is not skipped and `ABC` is sent to the insert, where the unique code index refuses the batch | an input whose upper-cased form the book already has is skipped | not executed | CodeService.UploadLookupMissesLowerCase | CodeService.UploadSkipsBookCodes |
