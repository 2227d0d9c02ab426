/**
 * Code-string utilities: random alphanumeric codes, batches of distinct codes
 * with a prefix, and duplicate detection / removal over an input list.
 */
module CodeGenerator {
  import opened Seqs
  import opened Randomness

  /** The characters a random code is drawn from. */
  const Alphabet: string := "ABCDEFGHIJKLMNOPQRSTUVWXYZ0123456789"

  /** `String.prototype.toUpperCase` on one character (ASCII letters only). */
  function UpperChar(c: char): char {
    if 'a' <= c <= 'z' then (c as int - 32) as char else c
  }

  /** `String.prototype.toUpperCase` (ASCII letters only). */
  function Upper(s: string): (u: string)
    ensures |u| == |s|
  {
    seq(|s|, i requires 0 <= i < |s| => UpperChar(s[i]))
  }

  /** Upper-casing twice is upper-casing once. */
  lemma UpperIdempotent(s: string)
    ensures Upper(Upper(s)) == Upper(s)
  {
  }

  /** Upper-casing a concatenation upper-cases each part. */
  lemma UpperConcat(s: string, t: string)
    ensures Upper(s + t) == Upper(s) + Upper(t)
  {
  }

  /** The draws for one random code: one Math.random() value per character. */
  predicate ValidDraws(draws: seq<real>) {
    forall k :: 0 <= k < |draws| ==> IsDraw(draws[k])
  }

  /** The code `GenerateRandomCode` produces from a given list of draws. */
  function RandomPart(draws: seq<real>): (s: string)
    requires ValidDraws(draws)
    ensures |s| == |draws|
  {
    seq(|draws|, k requires 0 <= k < |draws| => Alphabet[RandomIndex(draws[k], |Alphabet|)])
  }

  /**
   * `generateRandomCode(length)`: appends `length` characters of the
   * alphabet, each picked by one draw.
   */
  method GenerateRandomCode(length: nat, draws: seq<real>) returns (result: string)
    requires |draws| == length && ValidDraws(draws)
    ensures |result| == length
    ensures forall k :: 0 <= k < |result| ==> result[k] in Alphabet
    ensures result == RandomPart(draws)
  {
    result := "";
    for i := 0 to length
      invariant |result| == i
      invariant forall k :: 0 <= k < i ==> result[k] == Alphabet[RandomIndex(draws[k], |Alphabet|)]
    {
      result := result + [Alphabet[RandomIndex(draws[i], |Alphabet|)]];
    }
  }

  /** The candidate code of one attempt: `(prefix + randomPart).toUpperCase()`. */
  function Candidate(prefix: string, draws: seq<real>): string
    requires ValidDraws(draws)
  {
    Upper(prefix + RandomPart(draws))
  }

  /** The candidates of a run of attempts, in attempt order. */
  function Candidates(prefix: string, attempts: seq<seq<real>>): (cs: seq<string>)
    requires forall a :: 0 <= a < |attempts| ==> ValidDraws(attempts[a])
    ensures |cs| == |attempts|
  {
    seq(|attempts|, a requires 0 <= a < |attempts| => Candidate(prefix, attempts[a]))
  }

  /** One more attempt appends its candidate. */
  lemma CandidatesStep(prefix: string, draws: seq<seq<real>>, n: nat)
    requires n < |draws|
    requires forall a :: 0 <= a < |draws| ==> ValidDraws(draws[a])
    ensures Candidates(prefix, draws[..n + 1]) == Candidates(prefix, draws[..n]) + [Candidate(prefix, draws[n])]
  {
    assert draws[..n + 1][..n] == draws[..n];
  }

  /** Every candidate of the first `n` attempts is the candidate of one of them. */
  lemma CandidateOrigin(prefix: string, draws: seq<seq<real>>, n: nat, c: string)
    requires n <= |draws|
    requires forall a :: 0 <= a < |draws| ==> ValidDraws(draws[a])
    requires c in Candidates(prefix, draws[..n])
    ensures exists a :: 0 <= a < n && c == Candidate(prefix, draws[a])
  {
    var cs := Candidates(prefix, draws[..n]);
    var a :| 0 <= a < |cs| && cs[a] == c;
    assert c == Candidate(prefix, draws[a]);
  }

  /**
   * `removeDuplicates`: `Array.from(new Set(items))`, which keeps the first
   * occurrence of every element, in order.
   */
  function RemoveDuplicates<T(==,!new)>(items: seq<T>): (unique: seq<T>)
    ensures forall x :: x in unique <==> x in items
    ensures Distinct(unique)
    ensures |unique| <= |items|
  {
    if |items| == 0 then []
    else
      var rest := RemoveDuplicates(items[..|items| - 1]);
      var last := items[|items| - 1];
      if last in rest then rest else rest + [last]
  }

  /**
   * The elements kept by `RemoveDuplicates` come in the order of their first
   * occurrences in the input; with its contract this fixes the result.
   */
  lemma {:induction false} RemoveDuplicatesKeepsFirstOccurrences<T(!new)>(items: seq<T>)
    ensures forall i, j :: 0 <= i < j < |RemoveDuplicates(items)| ==>
      FirstIndex(items, RemoveDuplicates(items)[i]) < FirstIndex(items, RemoveDuplicates(items)[j])
  {
    if |items| > 0 {
      var init := items[..|items| - 1];
      var last := items[|items| - 1];
      var rest, unique := RemoveDuplicates(init), RemoveDuplicates(items);
      assert items == init + [last];
      assert unique == if last in rest then rest else rest + [last];
      RemoveDuplicatesKeepsFirstOccurrences(init);
      FirstIndexAppend(init, last);
      forall i, j | 0 <= i < j < |unique|
        ensures FirstIndex(items, unique[i]) < FirstIndex(items, unique[j])
      {
        assert unique[i] == rest[i] && rest[i] in init;
        assert FirstIndex(items, rest[i]) == FirstIndex(init, rest[i]) < |init|;
        if j < |rest| {
          assert unique[j] == rest[j] && rest[j] in init;
          assert FirstIndex(items, rest[j]) == FirstIndex(init, rest[j]);
          assert FirstIndex(init, rest[i]) < FirstIndex(init, rest[j]);
        } else {
          assert unique[j] == last && last !in init;
          assert FirstIndex(items, last) == |init|;
        }
      }
    }
  }

  /** Appending one element keeps it only when it is new. */
  lemma RemoveDuplicatesStep<T(!new)>(items: seq<T>, x: T)
    ensures RemoveDuplicates(items + [x]) ==
      if x in RemoveDuplicates(items) then RemoveDuplicates(items) else RemoveDuplicates(items) + [x]
  {
    assert (items + [x])[..|items|] == items;
  }

  /** A list whose elements are already distinct is returned unchanged. */
  lemma {:induction false} RemoveDuplicatesOfDistinct<T(!new)>(items: seq<T>)
    requires Distinct(items)
    ensures RemoveDuplicates(items) == items
  {
    if |items| > 0 {
      var init := items[..|items| - 1];
      assert Distinct(init);
      RemoveDuplicatesOfDistinct(init);
      assert items[|items| - 1] !in init;
      assert init + [items[|items| - 1]] == items;
    }
  }

  /**
   * `generateUniqueCodes(quantity, length, prefix)`: attempts random codes
   * until `quantity` distinct ones are collected or `10 * quantity` attempts
   * are spent. Attempt `a` uses the draws `draws[a]`; `attempts` is the
   * number of attempts made.
   */
  method GenerateUniqueCodes(quantity: nat, length: nat, prefix: string, draws: seq<seq<real>>)
    returns (codes: seq<string>, ghost attempts: nat)
    requires |draws| >= 10 * quantity
    requires forall a :: 0 <= a < |draws| ==> |draws[a]| == length && ValidDraws(draws[a])
    ensures attempts <= 10 * quantity
    ensures codes == RemoveDuplicates(Candidates(prefix, draws[..attempts]))
    ensures |codes| == quantity || attempts == 10 * quantity
    ensures |codes| <= quantity && Distinct(codes)
    ensures forall c :: c in codes ==> exists a :: 0 <= a < attempts && c == Candidate(prefix, draws[a])
  {
    codes := [];
    var maxAttempts := quantity * 10;
    var tries := 0;
    while |codes| < quantity && tries < maxAttempts
      invariant tries <= maxAttempts
      invariant |codes| <= quantity
      invariant codes == RemoveDuplicates(Candidates(prefix, draws[..tries]))
    {
      var randomPart := GenerateRandomCode(length, draws[tries]);
      var code := Upper(prefix + randomPart);
      CandidatesStep(prefix, draws, tries);
      RemoveDuplicatesStep(Candidates(prefix, draws[..tries]), code);
      if code !in codes {
        codes := codes + [code];
      }
      tries := tries + 1;
    }
    attempts := tries;
    forall c | c in codes
      ensures exists a :: 0 <= a < attempts && c == Candidate(prefix, draws[a])
    {
      CandidateOrigin(prefix, draws, attempts, c);
    }
  }

  /**
   * `findDuplicates(items)`: every element occurring at least twice, once
   * each (a `seen` set and a `duplicates` set filled in one pass).
   */
  method FindDuplicates<T(==,!new)>(items: seq<T>) returns (duplicates: seq<T>)
    ensures Distinct(duplicates)
    ensures forall x :: x in duplicates <==> multiset(items)[x] >= 2
  {
    var seen: set<T> := {};
    duplicates := [];
    for i := 0 to |items|
      invariant forall x :: x in seen <==> multiset(items[..i])[x] >= 1
      invariant Distinct(duplicates)
      invariant forall x :: x in duplicates <==> multiset(items[..i])[x] >= 2
    {
      var item := items[i];
      assert items[..i + 1] == items[..i] + [item];
      if item in seen {
        if item !in duplicates {
          duplicates := duplicates + [item];
        }
      } else {
        seen := seen + {item};
      }
    }
    assert items[..|items|] == items;
  }

  /**
   * `findDuplicates(items)` is empty exactly when `removeDuplicates(items)`
   * drops nothing.
   */
  lemma {:induction false} NoDuplicatesIffNothingRemoved<T(!new)>(items: seq<T>)
    ensures (forall x :: multiset(items)[x] < 2) <==> |RemoveDuplicates(items)| == |items|
  {
    if |items| > 0 {
      var init := items[..|items| - 1];
      var last := items[|items| - 1];
      assert items == init + [last];
      NoDuplicatesIffNothingRemoved(init);
      assert multiset(items) == multiset(init) + multiset{last};
      if last in RemoveDuplicates(init) {
        assert last in init;
        assert multiset(items)[last] >= 2;
      } else {
        assert multiset(init)[last] == 0;
        forall x ensures multiset(items)[x] < 2 <==> multiset(init)[x] < 2 || x == last {
        }
      }
    }
  }
}
