/**
 * How the table writes the services perform keep the store invariants:
 * keys and foreign keys (`TablesValid`), the allowed code-status moves
 * (`CodesStep`) and the per-user redeem quota (`RedeemQuotaRespected`).
 */
module Preservation {
  import opened Wrappers
  import opened Entities
  import opened Store
  import Codes = CodeRepository
  import Assignments = AssignmentRepository
  import Books = BookRepository

  /** Every code of the old table is still there, with the same id and book. */
  predicate CodeBooksKept(codes: seq<CouponCode>, codes2: seq<CouponCode>) {
    forall c :: c in codes ==> exists c2 :: c2 in codes2 && c2.id == c.id && c2.bookId == c.bookId
  }

  /** Every book of the old table is still there, with the same quotas. */
  predicate BookPoliciesKept(books: seq<CouponBook>, books2: seq<CouponBook>) {
    forall b :: b in books ==> exists b2 :: (b2 in books2 && b2.id == b.id
      && b2.maxRedeemsPerUser == b.maxRedeemsPerUser && b2.maxCodesPerUser == b.maxCodesPerUser)
  }

  /** An assignment's governing book keeps its quota when codes and books are rewritten this way. */
  lemma GoverningBookKept(codes: seq<CouponCode>, books: seq<CouponBook>, codes2: seq<CouponCode>, books2: seq<CouponBook>,
                          a: CouponAssignment)
    requires Codes.UniqueCodes(codes) && Codes.UniqueCodes(codes2)
    requires Books.UniqueBookIds(books) && Books.UniqueBookIds(books2)
    requires CodeBooksKept(codes, codes2) && BookPoliciesKept(books, books2)
    requires a.codeId in Codes.CodeIds(codes)
    requires GoverningBook(codes, books, a).Some?
    ensures GoverningBook(codes2, books2, a).Some?
    ensures GoverningBook(codes2, books2, a).value.maxRedeemsPerUser == GoverningBook(codes, books, a).value.maxRedeemsPerUser
  {
    var c :| c in codes && c.id == a.codeId;
    Codes.FindByIdUnique(codes, c);
    var c2 :| c2 in codes2 && c2.id == c.id && c2.bookId == c.bookId;
    Codes.FindByIdUnique(codes2, c2);
    var b := Books.FindById(books, c.bookId).value;
    var b2 :| b2 in books2 && b2.id == b.id && b2.maxRedeemsPerUser == b.maxRedeemsPerUser && b2.maxCodesPerUser == b.maxCodesPerUser;
    Books.FindByIdUnique(books2, b2);
  }

  /** The redeem quota survives any rewrite of codes and books that keeps code books and book quotas. */
  lemma QuotaKept(codes: seq<CouponCode>, assignments: seq<CouponAssignment>, books: seq<CouponBook>,
                  codes2: seq<CouponCode>, books2: seq<CouponBook>)
    requires TablesValid(codes, assignments, books) && TablesValid(codes2, assignments, books2)
    requires RedeemQuotaRespected(codes, assignments, books)
    requires CodeBooksKept(codes, codes2) && BookPoliciesKept(books, books2) && QuotasPositive(books2)
    ensures RedeemQuotaRespected(codes2, assignments, books2)
  {
    forall a | a in assignments ensures WithinRedeemQuota(codes2, books2, a) {
      var c :| c in codes && c.id == a.codeId;
      Codes.FindByIdUnique(codes, c);
      assert c.bookId in Books.BookIds(books);
      GoverningBookKept(codes, books, codes2, books2, a);
    }
  }

  /** `updateStatus` keeps every code's id and book. */
  lemma StatusChangeKeepsBooks(codes: seq<CouponCode>, id: Id, status: CodeStatus)
    ensures CodeBooksKept(codes, Codes.WithStatus(codes, id, status))
  {
    var codes2 := Codes.WithStatus(codes, id, status);
    forall c | c in codes ensures exists c2 :: c2 in codes2 && c2.id == c.id && c2.bookId == c.bookId {
      var i :| 0 <= i < |codes| && codes[i] == c;
      assert codes2[i].(status := codes[i].status) == codes[i];
    }
  }

  lemma BooksUnchangedKept(books: seq<CouponBook>)
    ensures BookPoliciesKept(books, books)
  {
    forall b | b in books ensures exists b2 :: (b2 in books && b2.id == b.id
      && b2.maxRedeemsPerUser == b.maxRedeemsPerUser && b2.maxCodesPerUser == b.maxCodesPerUser)
    {
      assert b in books;
    }
  }

  /**
   * A status write to one code keeps the keys and foreign keys and the redeem
   * quota, and is a legal step when the move is one `StatusStep` allows.
   */
  lemma StatusChange(codes: seq<CouponCode>, assignments: seq<CouponAssignment>, books: seq<CouponBook>,
                     id: Id, status: CodeStatus)
    requires TablesValid(codes, assignments, books)
    ensures TablesValid(Codes.WithStatus(codes, id, status), assignments, books)
    ensures RedeemQuotaRespected(codes, assignments, books) ==>
      RedeemQuotaRespected(Codes.WithStatus(codes, id, status), assignments, books)
    ensures Codes.FindById(codes, id).Some? && StatusStep(Codes.FindById(codes, id).value.status, status) ==>
      CodesStep(codes, Codes.WithStatus(codes, id, status))
  {
    var codes2 := Codes.WithStatus(codes, id, status);
    forall c2 | c2 in codes2 ensures c2.bookId in Books.BookIds(books) {
      var i :| 0 <= i < |codes2| && codes2[i] == c2;
      assert codes2[i].(status := codes[i].status) == codes[i];
      assert codes[i] in codes;
    }
    StatusChangeKeepsBooks(codes, id, status);
    if RedeemQuotaRespected(codes, assignments, books) {
      BooksUnchangedKept(books);
      QuotaKept(codes, assignments, books, codes2, books);
    }
    if Codes.FindById(codes, id).Some? && StatusStep(Codes.FindById(codes, id).value.status, status) {
      var row := Codes.FindById(codes, id).value;
      forall i | 0 <= i < |codes| ensures StatusStep(codes[i].status, codes2[i].status) {
        if codes[i].id == id {
          Codes.FindByIdUnique(codes, codes[i]);
        }
      }
    }
  }

  /** Appending a fresh assignment with no redemptions keeps the keys and the redeem quota. */
  lemma AssignmentAppended(codes: seq<CouponCode>, assignments: seq<CouponAssignment>, books: seq<CouponBook>,
                           a: CouponAssignment)
    requires TablesValid(codes, assignments, books)
    requires a.id !in Assignments.AssignmentIds(assignments) && a.codeId in Codes.CodeIds(codes)
    requires a.redeemCount == 0
    ensures TablesValid(codes, assignments + [a], books)
    ensures RedeemQuotaRespected(codes, assignments, books) ==> RedeemQuotaRespected(codes, assignments + [a], books)
  {
    var all := assignments + [a];
    forall i, j | 0 <= i < j < |all| ensures all[i].id != all[j].id {
      if j == |assignments| {
        assert all[i] in assignments;
      }
    }
    if RedeemQuotaRespected(codes, assignments, books) {
      if GoverningBook(codes, books, a).Some? {
        var b := GoverningBook(codes, books, a).value;
        assert b in books;
      }
    }
  }

  /** A redemption write to any assignment row keeps the keys and foreign keys. */
  lemma RedeemStateValid(codes: seq<CouponCode>, assignments: seq<CouponAssignment>, books: seq<CouponBook>,
                         id: Id, redeemCount: int, redeemedAt: Option<Timestamp>)
    requires TablesValid(codes, assignments, books)
    ensures TablesValid(codes, Assignments.WithRedeemState(assignments, id, redeemCount, redeemedAt), books)
  {
    var updated := Assignments.WithRedeemState(assignments, id, redeemCount, redeemedAt);
    forall x | x in updated ensures x.codeId in Codes.CodeIds(codes) {
      var i := IndexOf(updated, x);
      assert updated[i].(redeemCount := assignments[i].redeemCount, redeemedAt := assignments[i].redeemedAt) == assignments[i];
      assert assignments[i] in assignments;
    }
  }

  /**
   * A redemption write to the assignment `a` (one more redemption, still
   * within the quota of its book) keeps the keys and the redeem quota.
   */
  lemma RedeemRecorded(codes: seq<CouponCode>, assignments: seq<CouponAssignment>, books: seq<CouponBook>,
                       a: CouponAssignment, redeemedAt: Option<Timestamp>)
    requires TablesValid(codes, assignments, books) && a in assignments
    requires GoverningBook(codes, books, a).Some? ==>
      GoverningBook(codes, books, a).value.maxRedeemsPerUser.None?
      || a.redeemCount < GoverningBook(codes, books, a).value.maxRedeemsPerUser.value
    ensures TablesValid(codes, Assignments.WithRedeemState(assignments, a.id, a.redeemCount + 1, redeemedAt), books)
    ensures RedeemQuotaRespected(codes, assignments, books) ==>
      RedeemQuotaRespected(codes, Assignments.WithRedeemState(assignments, a.id, a.redeemCount + 1, redeemedAt), books)
  {
    var updated := Assignments.WithRedeemState(assignments, a.id, a.redeemCount + 1, redeemedAt);
    forall x | x in updated ensures x.codeId in Codes.CodeIds(codes) {
      var i := IndexOf(updated, x);
      assert updated[i].(redeemCount := assignments[i].redeemCount, redeemedAt := assignments[i].redeemedAt) == assignments[i];
      assert assignments[i] in assignments;
    }
    if RedeemQuotaRespected(codes, assignments, books) {
      forall x | x in updated ensures WithinRedeemQuota(codes, books, x) {
        var i := IndexOf(updated, x);
        assert updated[i].(redeemCount := assignments[i].redeemCount, redeemedAt := assignments[i].redeemedAt) == assignments[i];
        assert assignments[i] in assignments;
        if assignments[i].id == a.id {
          var k :| 0 <= k < |assignments| && assignments[k] == a;
          assert i == k;
        }
      }
    }
  }

  function IndexOf<T(==)>(xs: seq<T>, x: T): (i: nat)
    requires x in xs
    ensures i < |xs| && xs[i] == x
  {
    if xs[0] == x then 0 else 1 + IndexOf(xs[1..], x)
  }

  /** Appending fresh AVAILABLE codes is a legal step and keeps every code's book. */
  lemma CodesAppended(codes: seq<CouponCode>, rows: seq<CouponCode>)
    requires forall r :: r in rows ==> r.status == Available
    ensures CodesStep(codes, codes + rows)
    ensures CodeBooksKept(codes, codes + rows)
  {
    forall c | c in codes ensures exists c2 :: c2 in codes + rows && c2.id == c.id && c2.bookId == c.bookId {
      assert c in codes + rows;
    }
    forall i | |codes| <= i < |codes + rows| ensures (codes + rows)[i].status == Available {
      assert (codes + rows)[i] == rows[i - |codes|];
    }
  }

  /** `incrementGeneratedCount` keeps every book's quotas. */
  lemma GeneratedCountKeepsPolicies(books: seq<CouponBook>, id: Id, amount: int)
    ensures BookPoliciesKept(books, Books.WithGeneratedCountIncrement(books, id, amount))
    ensures QuotasPositive(books) ==> QuotasPositive(Books.WithGeneratedCountIncrement(books, id, amount))
  {
    var books2 := Books.WithGeneratedCountIncrement(books, id, amount);
    forall b | b in books ensures exists b2 :: (b2 in books2 && b2.id == b.id
      && b2.maxRedeemsPerUser == b.maxRedeemsPerUser && b2.maxCodesPerUser == b.maxCodesPerUser)
    {
      var i :| 0 <= i < |books| && books[i] == b;
      assert books2[i].(generatedCount := books[i].generatedCount) == books[i];
    }
    if QuotasPositive(books) {
      forall b2 | b2 in books2 ensures (b2.maxRedeemsPerUser.Some? ==> b2.maxRedeemsPerUser.value > 0)
        && (b2.maxCodesPerUser.Some? ==> b2.maxCodesPerUser.value > 0)
      {
        var i :| 0 <= i < |books2| && books2[i] == b2;
        assert books2[i].(generatedCount := books[i].generatedCount) == books[i];
        assert books[i] in books;
      }
    }
  }

  /** Appending a fresh book, or replacing a book by one with the same quotas, keeps every book's quotas. */
  lemma BookAppendedKeepsPolicies(books: seq<CouponBook>, book: CouponBook)
    ensures BookPoliciesKept(books, books + [book])
  {
    forall b | b in books ensures exists b2 :: (b2 in books + [book] && b2.id == b.id
      && b2.maxRedeemsPerUser == b.maxRedeemsPerUser && b2.maxCodesPerUser == b.maxCodesPerUser)
    {
      assert b in books + [book];
    }
  }

  lemma BookSavedKeepsPolicies(books: seq<CouponBook>, book: CouponBook)
    requires Books.UniqueBookIds(books)
    requires forall b :: b in books && b.id == book.id ==>
      b.maxRedeemsPerUser == book.maxRedeemsPerUser && b.maxCodesPerUser == book.maxCodesPerUser
    ensures BookPoliciesKept(books, Books.WithSaved(books, book))
    ensures QuotasPositive(books) ==> QuotasPositive(Books.WithSaved(books, book))
  {
    var books2 := Books.WithSaved(books, book);
    forall b | b in books ensures exists b2 :: (b2 in books2 && b2.id == b.id
      && b2.maxRedeemsPerUser == b.maxRedeemsPerUser && b2.maxCodesPerUser == b.maxCodesPerUser)
    {
      var i :| 0 <= i < |books| && books[i] == b;
      assert books2[i] in books2;
    }
    if QuotasPositive(books) {
      forall b2 | b2 in books2 ensures (b2.maxRedeemsPerUser.Some? ==> b2.maxRedeemsPerUser.value > 0)
        && (b2.maxCodesPerUser.Some? ==> b2.maxCodesPerUser.value > 0)
      {
        var i :| 0 <= i < |books2| && books2[i] == b2;
        assert books[i] in books;
      }
    }
  }
}
