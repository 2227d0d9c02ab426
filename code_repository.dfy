/**
 * The read queries of the coupon-code table, as functions of the table.
 * The table is a sequence of rows in insertion order; `created_at DESC`
 * is the reverse of that order.
 */
module CodeRepository {
  import opened Wrappers
  import opened Entities
  import opened Seqs

  function CodeIds(codes: seq<CouponCode>): set<Id> {
    set c | c in codes :: c.id
  }

  function CodeStrings(codes: seq<CouponCode>): set<string> {
    set c | c in codes :: c.code
  }

  /** Primary key `id` and the unique `code` column. */
  predicate UniqueCodes(codes: seq<CouponCode>) {
    forall i, j :: 0 <= i < j < |codes| ==> codes[i].id != codes[j].id && codes[i].code != codes[j].code
  }

  /** `findById`: the row with that id, or null. */
  function FindById(codes: seq<CouponCode>, id: Id): (found: Option<CouponCode>)
    ensures found.Some? ==> found.value in codes && found.value.id == id
    ensures found.None? <==> id !in CodeIds(codes)
  {
    if codes == [] then None
    else if codes[0].id == id then Some(codes[0])
    else
      assert CodeIds(codes) == {codes[0].id} + CodeIds(codes[1..]);
      FindById(codes[1..], id)
  }

  /** With unique ids, `findById` returns the very row carrying the id. */
  lemma {:induction false} FindByIdUnique(codes: seq<CouponCode>, c: CouponCode)
    requires UniqueCodes(codes) && c in codes
    ensures FindById(codes, c.id) == Some(c)
  {
    if codes[0] != c {
      assert codes[0].id != c.id;
      FindByIdUnique(codes[1..], c);
    }
  }

  /** `findByCode`: the row with that code string, or null. */
  function FindByCode(codes: seq<CouponCode>, code: string): (found: Option<CouponCode>)
    ensures found.Some? ==> found.value in codes && found.value.code == code
    ensures found.None? <==> code !in CodeStrings(codes)
  {
    if codes == [] then None
    else if codes[0].code == code then Some(codes[0])
    else
      assert CodeStrings(codes) == {codes[0].code} + CodeStrings(codes[1..]);
      FindByCode(codes[1..], code)
  }

  /** The code column is unique, so `findByCode` returns the single row with that string. */
  lemma {:induction false} FindByCodeUnique(codes: seq<CouponCode>, c: CouponCode)
    requires UniqueCodes(codes) && c in codes
    ensures FindByCode(codes, c.code) == Some(c)
  {
    if codes[0] != c {
      assert codes[0].code != c.code;
      FindByCodeUnique(codes[1..], c);
    }
  }

  /** The WHERE clause `book_id = bookId AND status = status`. */
  function MatchesBookStatus(bookId: Id, status: CodeStatus): CouponCode -> bool {
    (c: CouponCode) => c.bookId == bookId && c.status == status
  }

  /** The WHERE clause `book_id = bookId`. */
  function InBook(bookId: Id): CouponCode -> bool {
    (c: CouponCode) => c.bookId == bookId
  }

  /** `findAvailableByBook`: the book's pool of AVAILABLE codes. */
  function FindAvailableByBook(codes: seq<CouponCode>, bookId: Id): (pool: seq<CouponCode>)
    ensures forall c :: c in pool <==> c in codes && c.bookId == bookId && c.status == Available
  {
    Filter(codes, MatchesBookStatus(bookId, Available))
  }

  /** The WHERE clause of `findByBookWithPagination`: the status filter applies only when given. */
  function BookAndOptionalStatus(bookId: Id, status: Option<CodeStatus>): CouponCode -> bool {
    (c: CouponCode) => c.bookId == bookId && (status.None? || c.status == status.value)
  }

  /** `getManyAndCount`: one page of rows and the number of matching rows. */
  datatype CodePage = CodePage(rows: seq<CouponCode>, total: nat)

  function CreatedAt(c: CouponCode): int {
    c.createdAt
  }

  /** `findByBookWithPagination(bookId, status, limit, offset)`, newest first. */
  function FindByBookWithPagination(codes: seq<CouponCode>, bookId: Id, status: Option<CodeStatus>, limit: nat, offset: nat)
    : (page: CodePage)
    ensures limit > 0 ==> |page.rows| <= limit
    ensures forall c :: c in page.rows ==> c in codes && c.bookId == bookId
    ensures status.Some? ==> forall c :: c in page.rows ==> c.status == status.value
    ensures page.total == CountWhere(codes, BookAndOptionalStatus(bookId, status))
    ensures offset >= page.total ==> page.rows == []
    ensures offset < page.total ==> |page.rows| == if 0 < limit < page.total - offset then limit else page.total - offset
    ensures page.total == |Filter(codes, BookAndOptionalStatus(bookId, status))|
    ensures offset < page.total ==>
      page.rows == Reverse(Filter(codes, BookAndOptionalStatus(bookId, status)))[offset .. offset + |page.rows|]
    ensures Ascending(codes, CreatedAt) ==> Descending(page.rows, CreatedAt)
  {
    var p := BookAndOptionalStatus(bookId, status);
    CountIsFilterLength(codes, p);
    NewestPage(codes, p, CreatedAt, limit, offset);
    CodePage(Page(Reverse(Filter(codes, p)), limit, offset), |Filter(codes, p)|)
  }

  /**
   * `findExistingCodes(list, bookId)`: the rows of the book whose code is in
   * the list; an empty list yields no rows.
   */
  function FindExistingCodes(codes: seq<CouponCode>, list: seq<string>, bookId: Id): (found: seq<CouponCode>)
    ensures list == [] ==> found == []
    ensures forall c :: c in found <==> c in codes && c.bookId == bookId && c.code in list
  {
    if |list| == 0 then [] else Filter(codes, (c: CouponCode) => c.bookId == bookId && c.code in list)
  }

  /** `countByBookAndStatus`. */
  function CountByBookAndStatus(codes: seq<CouponCode>, bookId: Id, status: CodeStatus): (n: nat)
    ensures n <= |codes|
  {
    CountWhere(codes, MatchesBookStatus(bookId, status))
  }

  /** The count of AVAILABLE codes is the size of the pool an assignment draws from. */
  lemma CountAvailableIsPoolSize(codes: seq<CouponCode>, bookId: Id)
    ensures CountByBookAndStatus(codes, bookId, Available) == |FindAvailableByBook(codes, bookId)|
  {
    CountIsFilterLength(codes, MatchesBookStatus(bookId, Available));
  }

  /** One row of `getBookStatistics`: a status and its count. */
  datatype StatusCount = StatusCount(status: CodeStatus, count: nat)

  const AllStatuses: seq<CodeStatus> := [Available, Assigned, Locked, Redeemed, Expired]

  /** The GROUP BY rows for the given statuses: one row per status present in the book. */
  function GroupByStatus(codes: seq<CouponCode>, bookId: Id, statuses: seq<CodeStatus>): (rows: seq<StatusCount>)
    ensures forall r :: r in rows ==> r.status in statuses && r.count > 0 && r.count == CountByBookAndStatus(codes, bookId, r.status)
    ensures forall s :: s in statuses && CountByBookAndStatus(codes, bookId, s) > 0 ==>
      StatusCount(s, CountByBookAndStatus(codes, bookId, s)) in rows
    ensures Distinct(statuses) ==> forall i, j :: 0 <= i < j < |rows| ==> rows[i].status != rows[j].status
  {
    if statuses == [] then []
    else
      var n := CountByBookAndStatus(codes, bookId, statuses[0]);
      var rest := GroupByStatus(codes, bookId, statuses[1..]);
      if n > 0 then [StatusCount(statuses[0], n)] + rest else rest
  }

  /** `getBookStatistics`: `SELECT status, COUNT(*) ... GROUP BY status`. */
  function GetBookStatistics(codes: seq<CouponCode>, bookId: Id): (rows: seq<StatusCount>)
    ensures forall r :: r in rows ==> r.count > 0 && r.count == CountByBookAndStatus(codes, bookId, r.status)
    ensures forall s :: CountByBookAndStatus(codes, bookId, s) > 0 ==> StatusCount(s, CountByBookAndStatus(codes, bookId, s)) in rows
    ensures forall i, j :: 0 <= i < j < |rows| ==> rows[i].status != rows[j].status
  {
    assert forall s: CodeStatus :: s in AllStatuses by {
      forall s: CodeStatus ensures s in AllStatuses {
        assert s == AllStatuses[0] || s == AllStatuses[1] || s == AllStatuses[2] || s == AllStatuses[3] || s == AllStatuses[4];
      }
    }
    GroupByStatus(codes, bookId, AllStatuses)
  }

  function SumCounts(rows: seq<StatusCount>): nat {
    if rows == [] then 0 else rows[0].count + SumCounts(rows[1..])
  }

  function SumOverStatuses(codes: seq<CouponCode>, bookId: Id, statuses: seq<CodeStatus>): nat {
    if statuses == [] then 0
    else CountByBookAndStatus(codes, bookId, statuses[0]) + SumOverStatuses(codes, bookId, statuses[1..])
  }

  lemma {:induction false} GroupedSum(codes: seq<CouponCode>, bookId: Id, statuses: seq<CodeStatus>)
    ensures SumCounts(GroupByStatus(codes, bookId, statuses)) == SumOverStatuses(codes, bookId, statuses)
  {
    if statuses != [] {
      GroupedSum(codes, bookId, statuses[1..]);
    }
  }

  /** The sum over the five statuses, written out. */
  lemma SumOverAllStatuses(codes: seq<CouponCode>, bookId: Id)
    ensures SumOverStatuses(codes, bookId, AllStatuses) ==
      CountByBookAndStatus(codes, bookId, Available) + CountByBookAndStatus(codes, bookId, Assigned)
      + CountByBookAndStatus(codes, bookId, Locked) + CountByBookAndStatus(codes, bookId, Redeemed)
      + CountByBookAndStatus(codes, bookId, Expired)
  {
    var ss := AllStatuses;
    assert SumOverStatuses(codes, bookId, ss[4..]) == CountByBookAndStatus(codes, bookId, Expired) by {
      assert ss[4..][1..] == [];
    }
    assert SumOverStatuses(codes, bookId, ss[3..]) == CountByBookAndStatus(codes, bookId, Redeemed) + SumOverStatuses(codes, bookId, ss[4..]) by {
      assert ss[3..][1..] == ss[4..];
    }
    assert SumOverStatuses(codes, bookId, ss[2..]) == CountByBookAndStatus(codes, bookId, Locked) + SumOverStatuses(codes, bookId, ss[3..]) by {
      assert ss[2..][1..] == ss[3..];
    }
    assert SumOverStatuses(codes, bookId, ss[1..]) == CountByBookAndStatus(codes, bookId, Assigned) + SumOverStatuses(codes, bookId, ss[2..]) by {
      assert ss[1..][1..] == ss[2..];
    }
  }

  /** Every code of the book has exactly one of the five statuses. */
  lemma {:induction false} StatusesPartitionBook(codes: seq<CouponCode>, bookId: Id)
    ensures SumOverStatuses(codes, bookId, AllStatuses) == CountWhere(codes, InBook(bookId))
  {
    SumOverAllStatuses(codes, bookId);
    if codes != [] {
      StatusesPartitionBook(codes[1..], bookId);
      SumOverAllStatuses(codes[1..], bookId);
    }
  }

  /** The `getBookStatistics` counts add up to the number of codes of the book. */
  lemma BookStatisticsSum(codes: seq<CouponCode>, bookId: Id)
    ensures SumCounts(GetBookStatistics(codes, bookId)) == CountWhere(codes, InBook(bookId))
  {
    GroupedSum(codes, bookId, AllStatuses);
    StatusesPartitionBook(codes, bookId);
  }

  /** The table after `updateStatus(id, status)`. */
  function WithStatus(codes: seq<CouponCode>, id: Id, status: CodeStatus): (updated: seq<CouponCode>)
    ensures |updated| == |codes|
    ensures forall i :: 0 <= i < |codes| && codes[i].id == id ==> updated[i].status == status
    ensures forall i :: 0 <= i < |codes| ==> updated[i].(status := codes[i].status) == codes[i]
    ensures forall i :: 0 <= i < |codes| && codes[i].id != id ==> updated[i] == codes[i]
    ensures CodeIds(updated) == CodeIds(codes) && CodeStrings(updated) == CodeStrings(codes)
    ensures UniqueCodes(codes) ==> UniqueCodes(updated)
  {
    seq(|codes|, i requires 0 <= i < |codes| => if codes[i].id == id then codes[i].(status := status) else codes[i])
  }

  /** After `updateStatus`, `findById` finds the same rows, with the same book. */
  lemma {:induction false} FindByIdWithStatus(codes: seq<CouponCode>, id: Id, status: CodeStatus, x: Id)
    ensures FindById(WithStatus(codes, id, status), x).Some? == FindById(codes, x).Some?
    ensures FindById(codes, x).Some? ==>
      FindById(WithStatus(codes, id, status), x).value == FindById(codes, x).value.(status := FindById(WithStatus(codes, id, status), x).value.status)
  {
    if codes != [] && codes[0].id != x {
      assert WithStatus(codes, id, status)[1..] == WithStatus(codes[1..], id, status);
      FindByIdWithStatus(codes[1..], id, status, x);
    }
  }

  /** After `updateStatus` of a row, `findByCode` finds that row with its new status. */
  lemma {:induction false} FindByCodeWithStatus(codes: seq<CouponCode>, c: CouponCode, status: CodeStatus)
    requires UniqueCodes(codes) && c in codes
    ensures FindByCode(WithStatus(codes, c.id, status), c.code) == Some(c.(status := status))
  {
    var updated := WithStatus(codes, c.id, status);
    var i :| 0 <= i < |codes| && codes[i] == c;
    assert updated[i] == c.(status := status);
    FindByCodeUnique(updated, c.(status := status));
  }

  /** Summing row by row in order: one more row adds its count. */
  lemma {:induction false} SumCountsAppend(rows: seq<StatusCount>, row: StatusCount)
    ensures SumCounts(rows + [row]) == SumCounts(rows) + row.count
  {
    if rows != [] {
      assert (rows + [row])[1..] == rows[1..] + [row];
      SumCountsAppend(rows[1..], row);
    }
  }

  /**
   * The count the last row with status `s` carries, or 0 when no row has
   * it: what a per-status accumulator holds after visiting the rows in order.
   */
  function LastCount(rows: seq<StatusCount>, s: CodeStatus): (n: nat)
    ensures (forall r :: r in rows ==> r.status != s) ==> n == 0
    ensures (exists r :: r in rows && r.status == s) ==> StatusCount(s, n) in rows
  {
    if rows == [] then 0
    else if rows[|rows| - 1].status == s then rows[|rows| - 1].count
    else
      assert forall r :: r in rows[..|rows| - 1] ==> r in rows;
      LastCount(rows[..|rows| - 1], s)
  }

  /** One more row replaces the count of its own status and leaves the others. */
  lemma LastCountAppend(rows: seq<StatusCount>, row: StatusCount)
    ensures forall s :: LastCount(rows + [row], s) == if row.status == s then row.count else LastCount(rows, s)
  {
    assert (rows + [row])[..|rows|] == rows;
  }

  /** Read per status, the `getBookStatistics` rows give exactly `countByBookAndStatus`. */
  lemma StatisticsPerStatus(codes: seq<CouponCode>, bookId: Id, s: CodeStatus)
    ensures LastCount(GetBookStatistics(codes, bookId), s) == CountByBookAndStatus(codes, bookId, s)
    ensures (exists r :: r in GetBookStatistics(codes, bookId) && r.status == s) <==> CountByBookAndStatus(codes, bookId, s) > 0
  {
    var rows := GetBookStatistics(codes, bookId);
    if CountByBookAndStatus(codes, bookId, s) > 0 {
      assert StatusCount(s, CountByBookAndStatus(codes, bookId, s)) in rows;
    }
  }
}
