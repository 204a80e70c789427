/** `ORDER BY major ASC, minor ASC` over rows, as a functional insertion sort
    on a two-part key. */
module Sorting {
  import Sql

  datatype Key = Key(major: int, minor: int)

  /** Lexicographic order on keys. */
  predicate KeyLe(a: Key, b: Key) {
    a.major < b.major || (a.major == b.major && a.minor <= b.minor)
  }

  ghost predicate SortedBy<T>(s: seq<T>, key: T -> Key) {
    forall i, j :: 0 <= i < j < |s| ==> KeyLe(key(s[i]), key(s[j]))
  }

  /** In a sorted sequence the major keys never decrease. */
  lemma SortedByMajor<T>(s: seq<T>, key: T -> Key)
    requires SortedBy(s, key)
    ensures forall i, j :: 0 <= i < j < |s| ==> key(s[i]).major <= key(s[j]).major
  {
    forall i, j | 0 <= i < j < |s| ensures key(s[i]).major <= key(s[j]).major {
      assert KeyLe(key(s[i]), key(s[j]));
    }
  }

  /** `x` placed in front of the first element of `s` with a larger key. */
  function InsertByKey<T>(x: T, s: seq<T>, key: T -> Key): (r: seq<T>)
    requires SortedBy(s, key)
    ensures SortedBy(r, key)
    ensures |r| == |s| + 1
    ensures forall i :: 0 <= i < |r| ==> r[i] == x || r[i] in s
  {
    if |s| == 0 then [x]
    else if KeyLe(key(x), key(s[0])) then [x] + s
    else
      var rest := InsertByKey(x, s[1..], key);
      assert s == [s[0]] + s[1..];
      assert forall i :: 0 <= i < |rest| ==> KeyLe(key(s[0]), key(rest[i]));
      [s[0]] + rest
  }

  /** Inserting adds `x` and loses nothing. */
  lemma {:induction false} InsertByKeyPermutes<T>(x: T, s: seq<T>, key: T -> Key)
    requires SortedBy(s, key)
    ensures multiset(InsertByKey(x, s, key)) == multiset(s) + multiset{x}
  {
    if |s| > 0 && !KeyLe(key(x), key(s[0])) {
      InsertByKeyPermutes(x, s[1..], key);
      assert s == [s[0]] + s[1..];
    }
  }

  /** The rows of `s` in key order. */
  function SortByKey<T>(s: seq<T>, key: T -> Key): (r: seq<T>)
    ensures SortedBy(r, key)
    ensures multiset(r) == multiset(s)
    ensures |r| == |s|
  {
    if |s| == 0 then []
    else
      assert s == [s[0]] + s[1..];
      InsertByKeyPermutes(s[0], SortByKey(s[1..], key), key);
      InsertByKey(s[0], SortByKey(s[1..], key), key)
  }

  /** A prefix of a sorted sequence holds its smallest elements: every element
      left out comes at or after every element kept. */
  lemma PrefixHoldsSmallest<T>(s: seq<T>, n: nat, key: T -> Key, x: T)
    requires SortedBy(s, key) && n <= |s|
    requires x in s && x !in s[..n]
    ensures forall y :: y in s[..n] ==> KeyLe(key(y), key(x))
  {
    var m :| 0 <= m < |s| && s[m] == x;
    assert forall k :: 0 <= k < n ==> s[..n][k] == s[k];
    forall y | y in s[..n] ensures KeyLe(key(y), key(x)) {
      var k :| 0 <= k < n && s[..n][k] == y;
      assert s[k] == y;
    }
  }

  /** `LIMIT` over sorted rows keeps them sorted, keeps only rows it was
      given, and keeps the smallest: what it cuts off comes after all it
      keeps. */
  lemma LimitKeepsSmallest<T(!new)>(s: seq<T>, key: T -> Key, limit: int)
    requires SortedBy(s, key)
    ensures SortedBy(Sql.Limit(s, limit), key)
    ensures multiset(Sql.Limit(s, limit)) <= multiset(s)
    ensures forall x :: x in s && x !in Sql.Limit(s, limit) ==>
              forall y :: y in Sql.Limit(s, limit) ==> KeyLe(key(y), key(x))
  {
    var r := Sql.Limit(s, limit);
    if 0 <= limit < |s| {
      assert s == r + s[limit..];
      assert r == s[..limit];
      forall x | x in s && x !in r
        ensures forall y :: y in r ==> KeyLe(key(y), key(x))
      {
        PrefixHoldsSmallest(s, limit, key, x);
      }
      forall i, j | 0 <= i < j < |r| ensures KeyLe(key(r[i]), key(r[j])) {
        assert r[i] == s[i] && r[j] == s[j];
      }
    }
  }

  /** `ORDER BY ... LIMIT n` over the rows `s`: the first `limit` of them in
      key order, all of them when `limit` is negative or large enough. */
  function SortAndLimit<T(!new)>(s: seq<T>, key: T -> Key, limit: int): (r: seq<T>)
    ensures SortedBy(r, key)
    ensures multiset(r) <= multiset(s)
    ensures forall x :: x in r ==> x in s
    ensures |r| == if 0 <= limit < |s| then limit else |s|
    ensures !(0 <= limit < |s|) ==> multiset(r) == multiset(s)
    // what is cut off comes after everything returned
    ensures forall x :: x in s && x !in r ==> forall y :: y in r ==> KeyLe(key(y), key(x))
  {
    var sorted := SortByKey(s, key);
    LimitKeepsSmallest(sorted, key, limit);
    var r := Sql.Limit(sorted, limit);
    assert forall x :: x in sorted <==> x in s by {
      forall x ensures x in sorted <==> x in s {
        assert x in sorted <==> x in multiset(sorted);
        assert x in s <==> x in multiset(s);
      }
    }
    assert forall x :: x in r ==> x in sorted by {
      forall x | x in r ensures x in sorted {
        assert x in multiset(r);
      }
    }
    r
  }
}
