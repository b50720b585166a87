/**
 * `ORDER BY <key> DESC` over a table held as a sequence: a stable insertion
 * sort on a natural-number key, newest (largest key) first.
 */
module Ordering {

  ghost predicate SortedDesc<T>(s: seq<T>, key: T -> nat) {
    forall i, j :: 0 <= i < j < |s| ==> key(s[i]) >= key(s[j])
  }

  /** Puts `x` in front of the first element whose key is not larger than its own. */
  function Insert<T>(x: T, s: seq<T>, key: T -> nat): (r: seq<T>)
    ensures |r| == |s| + 1
    ensures r[0] == x || (s != [] && r[0] == s[0])
  {
    if s == [] || key(x) >= key(s[0]) then
      [x] + s
    else
      [s[0]] + Insert(x, s[1..], key)
  }

  /** Inserting adds `x` and loses nothing. */
  lemma {:induction false} InsertPermutes<T>(x: T, s: seq<T>, key: T -> nat)
    ensures multiset(Insert(x, s, key)) == multiset(s) + multiset{x}
  {
    if s != [] && key(x) < key(s[0]) {
      InsertPermutes(x, s[1..], key);
      assert s == [s[0]] + s[1..];
    }
  }

  /** Inserting into a sorted sequence keeps it sorted. */
  lemma {:induction false} InsertSorted<T>(x: T, s: seq<T>, key: T -> nat)
    requires SortedDesc(s, key)
    ensures SortedDesc(Insert(x, s, key), key)
  {
    if s != [] && key(x) < key(s[0]) {
      var rest := Insert(x, s[1..], key);
      InsertSorted(x, s[1..], key);
      // the head of `rest` is `x` or `s[1]`, neither above `s[0]`
      assert key(s[0]) >= key(rest[0]) by {
        if rest[0] != x { assert rest[0] == s[1]; }
      }
      var r := [s[0]] + rest;
      assert r == Insert(x, s, key);
      forall i, j | 0 <= i < j < |r| ensures key(r[i]) >= key(r[j]) {
        assert r[j] == rest[j - 1];
        if i > 0 { assert r[i] == rest[i - 1]; }
        else if j > 1 { assert key(rest[0]) >= key(rest[j - 1]); }
      }
    }
  }

  /** The rows of `s` ordered by `key`, largest first; rows with equal keys
      keep their order in `s`. */
  function SortBy<T>(s: seq<T>, key: T -> nat): (r: seq<T>)
    ensures |r| == |s|
  {
    if s == [] then [] else Insert(s[0], SortBy(s[1..], key), key)
  }

  /** `SortBy` is an ordering: the same rows, largest key first. */
  lemma {:induction false} SortByOrders<T>(s: seq<T>, key: T -> nat)
    ensures multiset(SortBy(s, key)) == multiset(s)
    ensures SortedDesc(SortBy(s, key), key)
  {
    if s != [] {
      SortByOrders(s[1..], key);
      InsertSorted(s[0], SortBy(s[1..], key), key);
      InsertPermutes(s[0], SortBy(s[1..], key), key);
      assert s == [s[0]] + s[1..];
    }
  }

  /** Sorting a sequence with a given first element inserts that element
      into the sorted rest. */
  lemma {:induction false} SortByCons<T>(x: T, s: seq<T>, key: T -> nat)
    ensures SortBy([x] + s, key) == Insert(x, SortBy(s, key), key)
  {
    assert ([x] + s)[0] == x && ([x] + s)[1..] == s;
  }

  /** In a sorted sequence holding `x`, a key larger than every other key
      puts `x` first. */
  lemma {:induction false} LargestKeyFirst<T>(s: seq<T>, x: T, key: T -> nat)
    requires SortedDesc(s, key) && x in s
    requires forall y :: y in s && y != x ==> key(y) < key(x)
    ensures s[0] == x
  {
  }
}
