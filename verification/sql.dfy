/** Behaviour of the SQLite engine that the stores rely on, stated once:
    how a table without AUTOINCREMENT picks the rowid of a new row, how a
    `LIMIT` clause cuts a result, and what Rust's `as i32` does to an i64. */
module Sql {

  /** The largest key in `s`, 0 for an empty table. */
  function MaxKey<T>(s: seq<T>, key: T -> int): (m: int)
    ensures forall i :: 0 <= i < |s| ==> key(s[i]) <= m
    ensures |s| == 0 ==> m == 0
    ensures |s| > 0 ==> exists i :: 0 <= i < |s| && key(s[i]) == m
  {
    if |s| == 0 then 0
    else if |s| == 1 then key(s[0])
    else
      var rest := MaxKey(s[1..], key);
      assert forall i :: 1 <= i < |s| ==> s[i] == s[1..][i - 1];
      if key(s[0]) >= rest then key(s[0]) else rest
  }

  /** The rowid SQLite assigns to a row inserted into `s`: one more than the
      largest rowid present, and 1 for an empty table. */
  function NextKey<T>(s: seq<T>, key: T -> int): (k: int)
    ensures forall i :: 0 <= i < |s| ==> key(s[i]) < k
    ensures |s| == 0 ==> k == 1
  {
    MaxKey(s, key) + 1
  }

  /** `LIMIT n`: a negative limit means no limit; otherwise the first `n` rows. */
  function Limit<T>(s: seq<T>, n: int): (r: seq<T>)
    ensures n < 0 ==> r == s
    ensures 0 <= n ==> |r| == if n < |s| then n else |s|
    ensures r <= s
  {
    if n < 0 || |s| <= n then s else s[..n]
  }

  const I32Modulus: int := 0x1_0000_0000
  const I32Min: int := -0x8000_0000
  const I32Max: int := 0x7fff_ffff

  /** Rust's `x as i32` on an i64: keeps the low 32 bits, two's complement. */
  function AsI32(x: int): (r: int)
    ensures I32Min <= r <= I32Max
    ensures (x - r) % I32Modulus == 0
    ensures I32Min <= x <= I32Max ==> r == x
  {
    (x - I32Min) % I32Modulus + I32Min
  }
}
