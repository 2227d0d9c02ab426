/**
 * Loading codes into a book (generated at random, or uploaded as a list),
 * paging through a book's codes, and counting a book's codes by status.
 */
module CodeService {
  import opened Wrappers
  import opened Entities
  import opened Errors
  import opened Store
  import opened Seqs
  import Codes = CodeRepository
  import Books = BookRepository
  import Preservation
  import CodeGenerator
  import BookService

  /** Some code of the book already has the code string `s`. */
  predicate CodeInBook(codes: seq<CouponCode>, bookId: Id, s: string) {
    exists c :: c in codes && c.bookId == bookId && c.code == s
  }

  /** `new Set(findExistingCodes(list, bookId).map(c => c.code))`. */
  function ExistingCodeSet(codes: seq<CouponCode>, list: seq<string>, bookId: Id): (found: set<string>)
    ensures forall s :: s in found <==> s in list && CodeInBook(codes, bookId, s)
  {
    set c | c in Codes.FindExistingCodes(codes, list, bookId) :: c.code
  }

  /** The rows a batch insert creates: fresh keys, the given strings, the book, status AVAILABLE. */
  function NewCodeRows(ids: seq<Id>, bookId: Id, strings: seq<string>, now: Timestamp): (rows: seq<CouponCode>)
    requires |ids| >= |strings|
    ensures |rows| == |strings|
    ensures forall k :: 0 <= k < |rows| ==> rows[k].id == ids[k] && rows[k].code == strings[k]
    ensures forall r :: r in rows ==> r.bookId == bookId && r.status == Available
  {
    seq(|strings|, k requires 0 <= k < |strings| => CouponCode(ids[k], bookId, strings[k], Available, now))
  }

  /** Distinct unused keys make the new rows' keys fresh. */
  lemma NewRowsFresh(codes: seq<CouponCode>, ids: seq<Id>, bookId: Id, strings: seq<string>, now: Timestamp)
    requires |ids| >= |strings| && Distinct(ids) && forall id :: id in ids ==> id !in Codes.CodeIds(codes)
    ensures FreshCodeIds(codes, NewCodeRows(ids, bookId, strings, now))
  {
    var rows := NewCodeRows(ids, bookId, strings, now);
    forall r | r in rows ensures r.id !in Codes.CodeIds(codes) {
      var k :| 0 <= k < |rows| && rows[k] == r;
      assert ids[k] in ids;
    }
  }

  /**
   * Inserting AVAILABLE rows and raising the book's generated count is a
   * legal step and keeps the redeem quota.
   */
  lemma CodesLoaded(codes: seq<CouponCode>, assignments: seq<CouponAssignment>, books: seq<CouponBook>,
                    rows: seq<CouponCode>, bookId: Id, amount: int)
    requires TablesValid(codes, assignments, books) && TablesValid(codes + rows, assignments, books)
    requires forall r :: r in rows ==> r.status == Available
    ensures CodesStep(codes, codes + rows)
    ensures RedeemQuotaRespected(codes, assignments, books) ==>
      RedeemQuotaRespected(codes + rows, assignments, Books.WithGeneratedCountIncrement(books, bookId, amount))
  {
    Preservation.CodesAppended(codes, rows);
    if RedeemQuotaRespected(codes, assignments, books) {
      var books2 := Books.WithGeneratedCountIncrement(books, bookId, amount);
      Preservation.GeneratedCountKeepsPolicies(books, bookId, amount);
      assert TablesValid(codes + rows, assignments, books2);
      Preservation.QuotaKept(codes, assignments, books, codes + rows, books2);
    }
  }

  /**
   * The outcome of the guarded batch insert: nothing to insert writes
   * nothing; an insert the database accepts appends the rows and raises the
   * book's generated count by their number; a rejected one writes nothing.
   */
  predicate LoadOutcome(codes0: seq<CouponCode>, books0: seq<CouponBook>, codes1: seq<CouponCode>, books1: seq<CouponBook>,
                        bookId: Id, rows: seq<CouponCode>, r: Result<seq<CouponCode>>) {
    (rows == [] ==> r == Ok([]) && codes1 == codes0 && books1 == books0)
    && (rows != [] && Insertable(codes0, books0, rows) ==>
          r == Ok(rows) && codes1 == codes0 + rows && books1 == Books.WithGeneratedCountIncrement(books0, bookId, |rows|))
    && (rows != [] && !Insertable(codes0, books0, rows) ==>
          r == Err(QueryFailedError()) && codes1 == codes0 && books1 == books0)
  }

  /** `if (rows.length > 0) { bulkCreate(rows); incrementGeneratedCount(bookId, rows.length) }`. */
  method InsertCodes(st: CouponStore, bookId: Id, rows: seq<CouponCode>) returns (r: Result<seq<CouponCode>>)
    requires st.Valid() && FreshCodeIds(st.codes, rows)
    requires forall row :: row in rows ==> row.status == Available
    modifies st
    ensures LoadOutcome(old(st.codes), old(st.books), st.codes, st.books, bookId, rows, r)
    ensures st.assignments == old(st.assignments) && st.audit == old(st.audit) && st.cache == old(st.cache)
    ensures st.Valid() && CodesStep(old(st.codes), st.codes)
    ensures old(RedeemQuotaRespected(st.codes, st.assignments, st.books)) ==> RedeemQuotaRespected(st.codes, st.assignments, st.books)
  {
    if rows == [] {
      Preservation.CodesAppended(st.codes, []);
      assert st.codes + [] == st.codes;
      return Ok([]);
    }
    ghost var codes0 := st.codes;
    r := st.BulkCreateCodes(rows);
    if r.Err? {
      Preservation.CodesAppended(st.codes, []);
      assert st.codes + [] == st.codes;
      return;
    }
    CodesLoaded(codes0, st.assignments, st.books, rows, bookId, |rows|);
    st.IncrementGeneratedCount(bookId, |rows|);
  }

  // ---------------------------------------------------------------- generate

  /** `codeStrings.filter(code => !existingCodeSet.has(code))`. */
  function NewCodeStrings(codes: seq<CouponCode>, generated: seq<string>, bookId: Id): (unseen: seq<string>)
    ensures forall s :: s in unseen <==> s in generated && !CodeInBook(codes, bookId, s)
    ensures |unseen| <= |generated|
  {
    var existing := ExistingCodeSet(codes, generated, bookId);
    Filter(generated, (s: string) => s !in existing)
  }

  /** What `generateCodes` returns: the created rows and how many generated strings the book already had. */
  datatype Generated = Generated(codes: seq<CouponCode>, skipped: int)

  /** The created rows of a `generateCodes` result, or its error. */
  function GeneratedRows(r: Result<Generated>): Result<seq<CouponCode>> {
    match r
    case Ok(g) => Ok(g.codes)
    case Err(e) => Err(e)
  }

  /**
   * `generateCodes(bookId, quantity, prefix, length)` at time `now`. Attempt
   * `a` of the generator uses the draws `draws[a]`; `newIds` are the keys
   * the database gives the rows. `generated` is the list of distinct
   * strings the generator produced.
   */
  method GenerateCodes(st: CouponStore, bookId: Id, quantity: nat, prefix: string, length: nat,
                       draws: seq<seq<real>>, newIds: seq<Id>, now: Timestamp)
    returns (result: Result<Generated>, ghost generated: seq<string>)
    requires st.Valid()
    requires 1 <= quantity <= 10000 && 6 <= length <= 20
    requires |draws| >= 10 * quantity
    requires forall a :: 0 <= a < |draws| ==> |draws[a]| == length && CodeGenerator.ValidDraws(draws[a])
    requires |newIds| >= quantity && Distinct(newIds) && forall id :: id in newIds ==> id !in Codes.CodeIds(st.codes)
    modifies st
    ensures st.assignments == old(st.assignments) && st.audit == old(st.audit) && st.cache == old(st.cache)
    ensures st.Valid() && CodesStep(old(st.codes), st.codes)
    ensures old(RedeemQuotaRespected(st.codes, st.assignments, st.books)) ==> RedeemQuotaRespected(st.codes, st.assignments, st.books)
    ensures bookId !in Books.BookIds(old(st.books)) ==> result == Err(BookService.GetById(old(st.books), bookId).error) && unchanged(st)
    ensures bookId in Books.BookIds(old(st.books)) ==>
      Distinct(generated) && |generated| <= quantity
      && forall c :: c in generated ==> exists a :: 0 <= a < 10 * quantity && c == CodeGenerator.Candidate(prefix, draws[a])
    ensures bookId in Books.BookIds(old(st.books)) ==>
      var newStrings := NewCodeStrings(old(st.codes), generated, bookId);
      LoadOutcome(old(st.codes), old(st.books), st.codes, st.books, bookId,
                  NewCodeRows(newIds, bookId, newStrings, now), GeneratedRows(result))
      && (result.Ok? ==> result.value.skipped == |generated| - |newStrings|)
  {
    var found := BookService.GetById(st.books, bookId);
    if found.Err? {
      return Err(found.error), [];
    }
    var strings;
    ghost var attempts;
    strings, attempts := CodeGenerator.GenerateUniqueCodes(quantity, length, prefix, draws);
    generated := strings;
    var newStrings := NewCodeStrings(st.codes, strings, bookId);
    var rows := NewCodeRows(newIds, bookId, newStrings, now);
    NewRowsFresh(st.codes, newIds, bookId, newStrings, now);
    var inserted := InsertCodes(st, bookId, rows);
    if inserted.Err? {
      return Err(inserted.error), strings;
    }
    result := Ok(Generated(inserted.value, |strings| - |newStrings|));
  }

  // ---------------------------------------------------------------- upload

  /** The outcome of the upload loop: upper-cased strings to create, original spellings skipped. */
  datatype UploadSplit = UploadSplit(created: seq<string>, skipped: seq<string>)

  /**
   * The loop of `uploadCodes` over the de-duplicated input: a code whose
   * upper-cased form is in `existing` is skipped under its own spelling,
   * any other is created upper-cased.
   */
  function SplitUploads(unique: seq<string>, existing: set<string>): (split: UploadSplit)
    ensures |split.created| + |split.skipped| == |unique|
    ensures forall s :: s in split.skipped ==> s in unique
    ensures forall s :: s in unique ==> (s in split.skipped <==> CodeGenerator.Upper(s) in existing)
    ensures forall s :: s in unique && CodeGenerator.Upper(s) !in existing ==> CodeGenerator.Upper(s) in split.created
    ensures forall x :: x in split.created ==> x !in existing && exists s :: s in unique && x == CodeGenerator.Upper(s)
  {
    if unique == [] then UploadSplit([], [])
    else
      var init := unique[..|unique| - 1];
      var s := unique[|unique| - 1];
      var rest := SplitUploads(init, existing);
      assert forall t :: t in unique <==> t in init || t == s;
      if CodeGenerator.Upper(s) in existing then UploadSplit(rest.created, rest.skipped + [s])
      else UploadSplit(rest.created + [CodeGenerator.Upper(s)], rest.skipped)
  }

  /** The `for (const code of uniqueCodes)` loop pushing into `newCodesData` and `skipped`. */
  method PartitionUploads(unique: seq<string>, existing: set<string>) returns (created: seq<string>, skipped: seq<string>)
    ensures UploadSplit(created, skipped) == SplitUploads(unique, existing)
  {
    created, skipped := [], [];
    for i := 0 to |unique|
      invariant UploadSplit(created, skipped) == SplitUploads(unique[..i], existing)
    {
      assert unique[..i + 1][..i] == unique[..i];
      var normalized := CodeGenerator.Upper(unique[i]);
      if normalized in existing {
        skipped := skipped + [unique[i]];
      } else {
        created := created + [normalized];
      }
    }
    assert unique[..|unique|] == unique;
  }

  /** Every input code upper-cased. */
  function UpperAll(list: seq<string>): (upper: seq<string>)
    ensures |upper| == |list|
    ensures forall k :: 0 <= k < |list| ==> upper[k] == CodeGenerator.Upper(list[k])
  {
    seq(|list|, k requires 0 <= k < |list| => CodeGenerator.Upper(list[k]))
  }

  /**
   * The existing-code set `uploadCodes` builds: the book's codes equal to an
   * input under its original spelling. The loop then asks for the
   * upper-cased spelling.
   */
  function UploadExistingAsWritten(codes: seq<CouponCode>, unique: seq<string>, bookId: Id): set<string> {
    ExistingCodeSet(codes, unique, bookId)
  }

  /**
   * A lower-case code whose upper-cased form the book already holds is not
   * skipped: it is sent to the insert, where it collides with the stored
   * code.
   */
  lemma UploadLookupMissesLowerCase()
    ensures var codes := [CouponCode("code-1", "book-1", "ABC", Available, 0)];
      var split := SplitUploads(["abc"], UploadExistingAsWritten(codes, ["abc"], "book-1"));
      split.created == ["ABC"] && split.skipped == [] && CodeInBook(codes, "book-1", "ABC")
  {
    var codes := [CouponCode("code-1", "book-1", "ABC", Available, 0)];
    assert CodeGenerator.Upper("abc") == "ABC";
    assert "ABC" != "abc";
    assert UploadExistingAsWritten(codes, ["abc"], "book-1") == {};
    assert codes[0] in codes;
  }

  /** The existing-code set looked up by the upper-cased spellings the loop compares. */
  function UploadExisting(codes: seq<CouponCode>, unique: seq<string>, bookId: Id): set<string> {
    ExistingCodeSet(codes, UpperAll(unique), bookId)
  }

  /**
   * With the lookup by upper-cased spelling, an input is skipped exactly
   * when the book already has its upper-cased form, and no created code is
   * one the book already has.
   */
  lemma UploadSkipsBookCodes(codes: seq<CouponCode>, unique: seq<string>, bookId: Id)
    ensures var split := SplitUploads(unique, UploadExisting(codes, unique, bookId));
      (forall s :: s in unique ==> (s in split.skipped <==> CodeInBook(codes, bookId, CodeGenerator.Upper(s))))
      && forall x :: x in split.created ==> !CodeInBook(codes, bookId, x)
  {
    var upper := UpperAll(unique);
    forall s | s in unique ensures CodeGenerator.Upper(s) in upper {
      var k :| 0 <= k < |unique| && unique[k] == s;
      assert upper[k] == CodeGenerator.Upper(s);
    }
  }

  /** What `uploadCodes` returns. */
  datatype Uploaded = Uploaded(created: seq<CouponCode>, skipped: seq<string>, duplicatesInInput: seq<string>)

  /** The created rows of an `uploadCodes` result, or its error. */
  function UploadedRows(r: Result<Uploaded>): Result<seq<CouponCode>> {
    match r
    case Ok(u) => Ok(u.created)
    case Err(e) => Err(e)
  }

  /**
   * `uploadCodes(bookId, codes)` at time `now`, with the existing codes
   * looked up by upper-cased spelling; `newIds` are the keys of the rows.
   */
  method UploadCodes(st: CouponStore, bookId: Id, codes: seq<string>, newIds: seq<Id>, now: Timestamp)
    returns (result: Result<Uploaded>)
    requires st.Valid()
    requires |newIds| >= |codes| && Distinct(newIds) && forall id :: id in newIds ==> id !in Codes.CodeIds(st.codes)
    modifies st
    ensures st.assignments == old(st.assignments) && st.audit == old(st.audit) && st.cache == old(st.cache)
    ensures st.Valid() && CodesStep(old(st.codes), st.codes)
    ensures old(RedeemQuotaRespected(st.codes, st.assignments, st.books)) ==> RedeemQuotaRespected(st.codes, st.assignments, st.books)
    ensures bookId !in Books.BookIds(old(st.books)) ==> result == Err(BookService.GetById(old(st.books), bookId).error) && unchanged(st)
    ensures bookId in Books.BookIds(old(st.books)) ==>
      var unique := CodeGenerator.RemoveDuplicates(codes);
      var split := SplitUploads(unique, UploadExisting(old(st.codes), unique, bookId));
      LoadOutcome(old(st.codes), old(st.books), st.codes, st.books, bookId,
                  NewCodeRows(newIds, bookId, split.created, now), UploadedRows(result))
      && (result.Ok? ==> result.value.skipped == split.skipped)
    ensures result.Ok? ==>
      Distinct(result.value.duplicatesInInput)
      && forall x :: x in result.value.duplicatesInInput <==> multiset(codes)[x] >= 2
  {
    var found := BookService.GetById(st.books, bookId);
    if found.Err? {
      return Err(found.error);
    }
    var duplicates := CodeGenerator.FindDuplicates(codes);
    var unique := CodeGenerator.RemoveDuplicates(codes);
    var existing := UploadExisting(st.codes, unique, bookId);
    var created, skipped := PartitionUploads(unique, existing);
    var rows := NewCodeRows(newIds, bookId, created, now);
    NewRowsFresh(st.codes, newIds, bookId, created, now);
    var inserted := InsertCodes(st, bookId, rows);
    if inserted.Err? {
      return Err(inserted.error);
    }
    result := Ok(Uploaded(inserted.value, skipped, duplicates));
  }

  // ---------------------------------------------------------------- read side

  /** `getCodesByBook(bookId, status, limit, offset)`: NotFound for an unknown book, else one page. */
  function GetCodesByBook(codes: seq<CouponCode>, books: seq<CouponBook>, bookId: Id, status: Option<CodeStatus>,
                          limit: nat, offset: nat): (r: Result<Codes.CodePage>)
    ensures r.Err? <==> bookId !in Books.BookIds(books)
    ensures r.Err? ==> r.error == NotFoundError("Coupon book with ID " + bookId + " not found")
    ensures r.Ok? && limit > 0 ==> |r.value.rows| <= limit
    ensures r.Ok? ==> forall c :: c in r.value.rows ==> c in codes && c.bookId == bookId
    ensures r.Ok? && status.Some? ==> forall c :: c in r.value.rows ==> c.status == status.value
    ensures r.Ok? ==> r.value == Codes.FindByBookWithPagination(codes, bookId, status, limit, offset)
    ensures r.Ok? ==> r.value.total == CountWhere(codes, Codes.BookAndOptionalStatus(bookId, status))
  {
    var _ :- BookService.GetById(books, bookId);
    Ok(Codes.FindByBookWithPagination(codes, bookId, status, limit, offset))
  }

  /** The per-status counters `getBookStatistics` fills. */
  datatype BookStats = BookStats(
    total: nat, availableCount: nat, assignedCount: nat, lockedCount: nat, redeemedCount: nat, expiredCount: nat)

  /** The counters after visiting `rows`: the running total, and per status the count of its last row. */
  predicate Tallied(stats: BookStats, rows: seq<Codes.StatusCount>) {
    stats.total == Codes.SumCounts(rows)
    && stats.availableCount == Codes.LastCount(rows, Available) && stats.assignedCount == Codes.LastCount(rows, Assigned)
    && stats.lockedCount == Codes.LastCount(rows, Locked) && stats.redeemedCount == Codes.LastCount(rows, Redeemed)
    && stats.expiredCount == Codes.LastCount(rows, Expired)
  }

  /**
   * The `forEach` over the status rows: every row adds its count to the
   * total and sets the counter of its status.
   */
  method TallyStatistics(rows: seq<Codes.StatusCount>) returns (stats: BookStats)
    ensures Tallied(stats, rows)
  {
    stats := BookStats(0, 0, 0, 0, 0, 0);
    for i := 0 to |rows|
      invariant Tallied(stats, rows[..i])
    {
      var row := rows[i];
      assert rows[..i + 1] == rows[..i] + [row];
      Codes.SumCountsAppend(rows[..i], row);
      Codes.LastCountAppend(rows[..i], row);
      stats := stats.(total := stats.total + row.count);
      match row.status
      case Available => stats := stats.(availableCount := row.count);
      case Assigned => stats := stats.(assignedCount := row.count);
      case Locked => stats := stats.(lockedCount := row.count);
      case Redeemed => stats := stats.(redeemedCount := row.count);
      case Expired => stats := stats.(expiredCount := row.count);
    }
    assert rows[..|rows|] == rows;
  }

  /**
   * `getBookStatistics(bookId)`: each counter is the number of the book's
   * codes with that status, and the total is the number of the book's codes,
   * which is the sum of the five counters. An unknown book reads as all zero.
   */
  method GetBookStatistics(st: CouponStore, bookId: Id) returns (stats: BookStats)
    ensures stats.availableCount == Codes.CountByBookAndStatus(st.codes, bookId, Available)
    ensures stats.assignedCount == Codes.CountByBookAndStatus(st.codes, bookId, Assigned)
    ensures stats.lockedCount == Codes.CountByBookAndStatus(st.codes, bookId, Locked)
    ensures stats.redeemedCount == Codes.CountByBookAndStatus(st.codes, bookId, Redeemed)
    ensures stats.expiredCount == Codes.CountByBookAndStatus(st.codes, bookId, Expired)
    ensures stats.total == CountWhere(st.codes, Codes.InBook(bookId))
    ensures stats.total == stats.availableCount + stats.assignedCount + stats.lockedCount + stats.redeemedCount + stats.expiredCount
  {
    var rows := Codes.GetBookStatistics(st.codes, bookId);
    stats := TallyStatistics(rows);
    Codes.StatisticsPerStatus(st.codes, bookId, Available);
    Codes.StatisticsPerStatus(st.codes, bookId, Assigned);
    Codes.StatisticsPerStatus(st.codes, bookId, Locked);
    Codes.StatisticsPerStatus(st.codes, bookId, Redeemed);
    Codes.StatisticsPerStatus(st.codes, bookId, Expired);
    Codes.BookStatisticsSum(st.codes, bookId);
    Codes.StatusesPartitionBook(st.codes, bookId);
    Codes.SumOverAllStatuses(st.codes, bookId);
  }
}
