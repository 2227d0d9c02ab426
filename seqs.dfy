/**
 * Sequence helpers shared by the repository queries: a table is a sequence of
 * rows in insertion order, and a query is a filter, a count, a reversal (for
 * "newest first") or a LIMIT/OFFSET window over it.
 */
module Seqs {

  /** No element occurs twice. */
  predicate Distinct<T(==)>(s: seq<T>) {
    forall i, j :: 0 <= i < j < |s| ==> s[i] != s[j]
  }

  /** The position of the first occurrence of `x` in `xs`. */
  function FirstIndex<T(==)>(xs: seq<T>, x: T): (i: nat)
    requires x in xs
    ensures i < |xs| && xs[i] == x
    ensures forall k :: 0 <= k < i ==> xs[k] != x
  {
    if xs[0] == x then 0 else 1 + FirstIndex(xs[1..], x)
  }

  /** Appending an element moves no first occurrence; a new element first occurs at the end. */
  lemma FirstIndexAppend<T>(xs: seq<T>, z: T)
    ensures forall y :: y in xs ==> FirstIndex(xs + [z], y) == FirstIndex(xs, y)
    ensures z !in xs ==> FirstIndex(xs + [z], z) == |xs|
  {
    forall y | y in xs ensures FirstIndex(xs + [z], y) == FirstIndex(xs, y) {
      var a, b := FirstIndex(xs + [z], y), FirstIndex(xs, y);
      assert (xs + [z])[b] == y;
    }
  }

  /** The rows of `xs` that satisfy `p`, in their original order (a WHERE clause). */
  function Filter<T(!new)>(xs: seq<T>, p: T -> bool): (ys: seq<T>)
    ensures |ys| <= |xs|
    ensures forall y :: y in ys <==> y in xs && p(y)
  {
    if xs == [] then [] else (if p(xs[0]) then [xs[0]] else []) + Filter(xs[1..], p)
  }

  /** The number of rows of `xs` that satisfy `p` (a COUNT(*) query). */
  function CountWhere<T>(xs: seq<T>, p: T -> bool): (n: nat)
    ensures n <= |xs|
  {
    if xs == [] then 0 else (if p(xs[0]) then 1 else 0) + CountWhere(xs[1..], p)
  }

  /** A COUNT(*) query and the length of the matching SELECT agree. */
  lemma {:induction false} CountIsFilterLength<T(!new)>(xs: seq<T>, p: T -> bool)
    ensures CountWhere(xs, p) == |Filter(xs, p)|
  {
    if xs != [] {
      CountIsFilterLength(xs[1..], p);
    }
  }

  /** The sequence read back to front ("ORDER BY ... DESC" over insertion order). */
  function Reverse<T>(xs: seq<T>): (ys: seq<T>)
    ensures |ys| == |xs|
    ensures forall i :: 0 <= i < |xs| ==> ys[i] == xs[|xs| - 1 - i]
  {
    if xs == [] then [] else Reverse(xs[1..]) + [xs[0]]
  }

  /** Reversal keeps exactly the same elements. */
  lemma ReverseSameElements<T(!new)>(xs: seq<T>)
    ensures forall x :: x in Reverse(xs) <==> x in xs
  {
    var ys := Reverse(xs);
    forall x | x in xs ensures x in ys {
      var i :| 0 <= i < |xs| && xs[i] == x;
      assert ys[|xs| - 1 - i] == x;
    }
  }

  /**
   * The LIMIT/OFFSET window of a result set. A limit of 0 emits no LIMIT
   * clause, so every row from the offset on is returned.
   */
  function Page<T>(xs: seq<T>, limit: nat, offset: nat): (page: seq<T>)
    ensures limit > 0 ==> |page| <= limit
    ensures offset >= |xs| ==> page == []
    ensures offset < |xs| ==>
              |page| == (if 0 < limit && offset + limit <= |xs| then limit else |xs| - offset) &&
              page == xs[offset .. offset + |page|]
    ensures forall y :: y in page ==> y in xs
  {
    if offset >= |xs| then []
    else xs[offset .. if 0 < limit && offset + limit <= |xs| then offset + limit else |xs|]
  }

  /** `key` never decreases along `xs` (rows inserted in timestamp order). */
  predicate Ascending<T>(xs: seq<T>, key: T -> int) {
    forall i, j :: 0 <= i < j < |xs| ==> key(xs[i]) <= key(xs[j])
  }

  /**
   * A row stamped no earlier than every stored row keeps the table in
   * timestamp order: what a non-decreasing clock gives each insert.
   */
  lemma AppendKeepsAscending<T>(xs: seq<T>, y: T, key: T -> int)
    requires Ascending(xs, key)
    requires forall i :: 0 <= i < |xs| ==> key(xs[i]) <= key(y)
    ensures Ascending(xs + [y], key)
  {
    forall i, j | 0 <= i < j < |xs| + 1 ensures key((xs + [y])[i]) <= key((xs + [y])[j]) {
      if j < |xs| {
        assert (xs + [y])[i] == xs[i] && (xs + [y])[j] == xs[j];
      }
    }
  }

  /** `key` never increases along `xs` ("newest first"). */
  predicate Descending<T>(xs: seq<T>, key: T -> int) {
    forall i, j :: 0 <= i < j < |xs| ==> key(xs[i]) >= key(xs[j])
  }

  /** A WHERE clause keeps the rows in their order. */
  lemma {:induction false} FilterAscending<T(!new)>(xs: seq<T>, p: T -> bool, key: T -> int)
    requires Ascending(xs, key)
    ensures Ascending(Filter(xs, p), key)
  {
    if xs != [] {
      FilterAscending(xs[1..], p, key);
      var rest := Filter(xs[1..], p);
      if p(xs[0]) {
        forall y | y in rest ensures key(xs[0]) <= key(y) {
        }
      }
    }
  }

  /** Reading an ascending sequence back to front gives a descending one. */
  lemma ReverseDescending<T>(xs: seq<T>, key: T -> int)
    requires Ascending(xs, key)
    ensures Descending(Reverse(xs), key)
  {
  }

  /** Newest first: the rows matching `p` of a table kept in timestamp order, read back to front. */
  lemma NewestFirst<T(!new)>(xs: seq<T>, p: T -> bool, key: T -> int)
    requires Ascending(xs, key)
    ensures Descending(Reverse(Filter(xs, p)), key)
  {
    FilterAscending(xs, p, key);
    ReverseDescending(Filter(xs, p), key);
  }

  /** A page of the matching rows, newest first, holds matching rows only and keeps the newest-first order. */
  lemma {:induction false} NewestPage<T(!new)>(xs: seq<T>, p: T -> bool, key: T -> int, limit: nat, offset: nat)
    ensures forall y :: y in Page(Reverse(Filter(xs, p)), limit, offset) ==> y in xs && p(y)
    ensures Ascending(xs, key) ==> Descending(Page(Reverse(Filter(xs, p)), limit, offset), key)
  {
    ReverseSameElements(Filter(xs, p));
    if Ascending(xs, key) {
      NewestFirst(xs, p, key);
    }
  }

  /** Replacing one element by one the predicate treats alike leaves the count unchanged. */
  lemma {:induction false} CountWhereUpdate<T>(xs: seq<T>, i: nat, y: T, p: T -> bool)
    requires i < |xs| && p(y) == p(xs[i])
    ensures CountWhere(xs[i := y], p) == CountWhere(xs, p)
  {
    if i > 0 {
      assert xs[i := y][1..] == xs[1..][i - 1 := y];
      CountWhereUpdate(xs[1..], i - 1, y, p);
    } else {
      assert xs[i := y][1..] == xs[1..];
    }
  }

  /** Appending one row adds one to the count exactly when the row matches. */
  lemma {:induction false} CountWhereAppend<T>(xs: seq<T>, y: T, p: T -> bool)
    ensures CountWhere(xs + [y], p) == CountWhere(xs, p) + (if p(y) then 1 else 0)
  {
    if xs != [] {
      assert (xs + [y])[1..] == xs[1..] + [y];
      CountWhereAppend(xs[1..], y, p);
    }
  }

  /** Two predicates that agree on every row count the same rows. */
  lemma {:induction false} CountWhereSame<T>(xs: seq<T>, p: T -> bool, q: T -> bool)
    requires forall k :: 0 <= k < |xs| ==> p(xs[k]) == q(xs[k])
    ensures CountWhere(xs, p) == CountWhere(xs, q)
  {
    if xs != [] {
      assert p(xs[0]) == q(xs[0]);
      CountWhereSame(xs[1..], p, q);
    }
  }
}
