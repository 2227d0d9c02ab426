/**
 * The read queries of the assignment table and its delete, as functions of
 * the table (a sequence of rows in insertion order). `code_id` is indexed
 * but not unique, so several rows may name the same code.
 */
module AssignmentRepository {
  import opened Wrappers
  import opened Entities
  import opened Seqs
  import CodeRepository

  function AssignmentIds(assignments: seq<CouponAssignment>): set<Id> {
    set a | a in assignments :: a.id
  }

  /** The primary key `id`. */
  predicate UniqueAssignmentIds(assignments: seq<CouponAssignment>) {
    forall i, j :: 0 <= i < j < |assignments| ==> assignments[i].id != assignments[j].id
  }

  /** `findByCodeId`: some (the first) row naming the code, or null. */
  function FindByCodeId(assignments: seq<CouponAssignment>, codeId: Id): (found: Option<CouponAssignment>)
    ensures found.Some? ==> found.value in assignments && found.value.codeId == codeId
  {
    if assignments == [] then None
    else if assignments[0].codeId == codeId then Some(assignments[0])
    else FindByCodeId(assignments[1..], codeId)
  }

  /** `findByCodeId` comes back empty exactly when no row names the code. */
  lemma {:induction false} FindByCodeIdNone(assignments: seq<CouponAssignment>, codeId: Id)
    ensures FindByCodeId(assignments, codeId).None? <==> forall a :: a in assignments ==> a.codeId != codeId
  {
    if assignments != [] && assignments[0].codeId != codeId {
      FindByCodeIdNone(assignments[1..], codeId);
      assert forall a :: a in assignments ==> a == assignments[0] || a in assignments[1..];
    }
  }

  /**
   * The WHERE clause of `findByUserAndBook` / `countByUserAndBook`: the
   * user's rows whose code (joined through `code_id`) lies in the book.
   */
  function HeldInBook(codes: seq<CouponCode>, userId: Id, bookId: Id): CouponAssignment -> bool {
    (a: CouponAssignment) =>
      a.userId == userId && CodeRepository.FindById(codes, a.codeId).Some?
      && CodeRepository.FindById(codes, a.codeId).value.bookId == bookId
  }

  /** `findByUserAndBook`: the user's assignments whose code belongs to the book. */
  function FindByUserAndBook(assignments: seq<CouponAssignment>, codes: seq<CouponCode>, userId: Id, bookId: Id)
    : (rows: seq<CouponAssignment>)
    ensures forall a :: a in rows ==> a in assignments && a.userId == userId
    ensures CodeRepository.UniqueCodes(codes) ==>
      forall a :: a in rows <==> (a in assignments && a.userId == userId
                                  && exists c :: c in codes && c.id == a.codeId && c.bookId == bookId)
  {
    var rows := Filter(assignments, HeldInBook(codes, userId, bookId));
    assert CodeRepository.UniqueCodes(codes) ==>
      forall a :: a in rows <==> (a in assignments && a.userId == userId
                                  && exists c :: c in codes && c.id == a.codeId && c.bookId == bookId)
    by {
      if CodeRepository.UniqueCodes(codes) {
        forall a | a in assignments && a.userId == userId && exists c :: c in codes && c.id == a.codeId && c.bookId == bookId
          ensures a in rows
        {
          var c :| c in codes && c.id == a.codeId && c.bookId == bookId;
          CodeRepository.FindByIdUnique(codes, c);
        }
      }
    }
    rows
  }

  /** `countByUserAndBook`: the per-user quota counter of a book. */
  function CountByUserAndBook(assignments: seq<CouponAssignment>, codes: seq<CouponCode>, userId: Id, bookId: Id): (n: nat)
    ensures n <= |assignments|
  {
    CountWhere(assignments, HeldInBook(codes, userId, bookId))
  }

  /** The quota counter and the rows it counts agree. */
  lemma CountIsFindLength(assignments: seq<CouponAssignment>, codes: seq<CouponCode>, userId: Id, bookId: Id)
    ensures CountByUserAndBook(assignments, codes, userId, bookId) == |FindByUserAndBook(assignments, codes, userId, bookId)|
  {
    CountIsFilterLength(assignments, HeldInBook(codes, userId, bookId));
  }

  /**
   * The count joins through the code: the assignment's own `book_id` column
   * plays no part, so rewriting it on any row leaves the count unchanged.
   */
  lemma CountIgnoresAssignmentBookId(assignments: seq<CouponAssignment>, codes: seq<CouponCode>, userId: Id, bookId: Id,
                                     i: nat, otherBook: Id)
    requires i < |assignments|
    ensures CountByUserAndBook(assignments[i := assignments[i].(bookId := otherBook)], codes, userId, bookId)
         == CountByUserAndBook(assignments, codes, userId, bookId)
  {
    CountWhereUpdate(assignments, i, assignments[i].(bookId := otherBook), HeldInBook(codes, userId, bookId));
  }

  function AssignedAt(a: CouponAssignment): int {
    a.assignedAt
  }

  /** `findUserAssignments`: all of the user's assignments, `assigned_at DESC`. */
  function FindUserAssignments(assignments: seq<CouponAssignment>, userId: Id): (rows: seq<CouponAssignment>)
    ensures forall a :: a in rows <==> a in assignments && a.userId == userId
    ensures Ascending(assignments, AssignedAt) ==> Descending(rows, AssignedAt)
  {
    var p := (a: CouponAssignment) => a.userId == userId;
    ReverseSameElements(Filter(assignments, p));
    assert Ascending(assignments, AssignedAt) ==> Descending(Reverse(Filter(assignments, p)), AssignedAt) by {
      if Ascending(assignments, AssignedAt) {
        NewestFirst(assignments, p, AssignedAt);
      }
    }
    Reverse(Filter(assignments, p))
  }

  /** The table after `delete(id)`. */
  function Without(assignments: seq<CouponAssignment>, id: Id): (rest: seq<CouponAssignment>)
    ensures forall a :: a in rest <==> a in assignments && a.id != id
    ensures AssignmentIds(rest) == AssignmentIds(assignments) - {id}
    ensures UniqueAssignmentIds(assignments) ==> UniqueAssignmentIds(rest)
    ensures UniqueAssignmentIds(assignments) ==> |rest| == |assignments| - (if id in AssignmentIds(assignments) then 1 else 0)
  {
    if assignments == [] then []
    else
      var rest := Without(assignments[1..], id);
      assert AssignmentIds(assignments) == {assignments[0].id} + AssignmentIds(assignments[1..]);
      if assignments[0].id == id then rest else [assignments[0]] + rest
  }

  /** The table after a redemption writes `redeem_count` and `redeemed_at` of the row `id`. */
  function WithRedeemState(assignments: seq<CouponAssignment>, id: Id, redeemCount: int, redeemedAt: Option<Timestamp>)
    : (updated: seq<CouponAssignment>)
    ensures |updated| == |assignments|
    ensures forall i :: 0 <= i < |assignments| && assignments[i].id == id ==>
      updated[i].redeemCount == redeemCount && updated[i].redeemedAt == redeemedAt
    ensures forall i :: 0 <= i < |assignments| ==>
      updated[i].(redeemCount := assignments[i].redeemCount, redeemedAt := assignments[i].redeemedAt) == assignments[i]
    ensures forall i :: 0 <= i < |assignments| && assignments[i].id != id ==> updated[i] == assignments[i]
    ensures AssignmentIds(updated) == AssignmentIds(assignments)
    ensures UniqueAssignmentIds(assignments) ==> UniqueAssignmentIds(updated)
  {
    var updated := seq(|assignments|, i requires 0 <= i < |assignments| =>
      if assignments[i].id == id then assignments[i].(redeemCount := redeemCount, redeemedAt := redeemedAt)
      else assignments[i]);
    assert forall i :: 0 <= i < |assignments| ==> updated[i].id == assignments[i].id;
    updated
  }

  /**
   * A redemption write changes no `code_id`: `findByCodeId` finds the row it
   * found before, now carrying the written count and `redeemedAt`.
   */
  lemma {:induction false} FindByCodeIdWithRedeemState(assignments: seq<CouponAssignment>, codeId: Id, a: CouponAssignment,
                                                       redeemCount: int, redeemedAt: Option<Timestamp>)
    requires FindByCodeId(assignments, codeId) == Some(a)
    ensures FindByCodeId(WithRedeemState(assignments, a.id, redeemCount, redeemedAt), codeId)
      == Some(a.(redeemCount := redeemCount, redeemedAt := redeemedAt))
  {
    var updated := WithRedeemState(assignments, a.id, redeemCount, redeemedAt);
    if assignments[0].codeId != codeId {
      assert updated[0].codeId == assignments[0].codeId;
      assert updated[1..] == WithRedeemState(assignments[1..], a.id, redeemCount, redeemedAt);
      FindByCodeIdWithRedeemState(assignments[1..], codeId, a, redeemCount, redeemedAt);
    }
  }
}
