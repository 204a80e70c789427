/** `CountdownStore` (src/models/countdowns.rs): per-guild countdowns in the
    sqlx version, queried as "the first `limit` active ones ending at or after
    a timestamp". */
module Countdowns {
  import opened Wrappers
  import Sql
  import opened Sorting

  /** A row of `countdowns`. */
  datatype Countdown = Countdown(id: int, end: int, active: bool, guild: int)

  /** The two `anyhow` errors, each carrying the timestamp of its message. */
  datatype Error = InsertFailed(timestamp: int) | QueryFailed(timestamp: int)

  function CountdownId(c: Countdown): int { c.id }

  /** `ORDER BY end ASC, id ASC`. */
  function OrderKey(c: Countdown): Key { Key(c.end, c.id) }

  /** `WHERE end >= ? AND guild = ? AND active = true`. */
  predicate Qualifies(c: Countdown, timestamp: int, guild: int) {
    c.end >= timestamp && c.guild == guild && c.active
  }

  /** `CountdownStore::insert`: a new active countdown under a fresh id; a
      failing insert changes nothing. */
  function Insert(rows: seq<Countdown>, timestamp: int, guild: int, fails: bool)
    : (s: (Result<(), Error>, seq<Countdown>))
    ensures fails ==> s == (Err(InsertFailed(timestamp)), rows)
    ensures !fails ==> s.0.Ok? && |s.1| == |rows| + 1 && rows <= s.1
    ensures !fails ==> var c := s.1[|rows|];
                       c.end == timestamp && c.guild == guild && c.active &&
                       forall prev :: prev in rows ==> prev.id < c.id
  {
    if fails then (Err(InsertFailed(timestamp)), rows)
    else (Ok(()), rows + [Countdown(Sql.NextKey(rows, CountdownId), timestamp, true, guild)])
  }

  /** The rows that pass the `WHERE` clause, in table order. */
  function Matching(rows: seq<Countdown>, timestamp: int, guild: int): (r: seq<Countdown>)
    ensures forall c :: c in r <==> c in rows && Qualifies(c, timestamp, guild)
    ensures multiset(r) <= multiset(rows)
  {
    if |rows| == 0 then []
    else
      var rest := Matching(rows[1..], timestamp, guild);
      assert rows == [rows[0]] + rows[1..];
      if Qualifies(rows[0], timestamp, guild) then [rows[0]] + rest else rest
  }

  /** `CountdownStore::get_after`: the first `limit` qualifying rows in
      `(end, id)` order; a negative limit is no limit, as in SQLite. */
  function GetAfter(rows: seq<Countdown>, timestamp: int, guild: int, limit: int, fails: bool)
    : (r: Result<seq<Countdown>, Error>)
    ensures fails ==> r == Err(QueryFailed(timestamp))
    ensures !fails ==> r.Ok?
    ensures r.Ok? ==> forall c :: c in r.value ==> c in rows && Qualifies(c, timestamp, guild)
    ensures r.Ok? ==> multiset(r.value) <= multiset(rows)
    ensures r.Ok? ==> SortedBy(r.value, OrderKey)
    ensures r.Ok? ==> var n := |Matching(rows, timestamp, guild)|;
                      |r.value| == if 0 <= limit < n then limit else n
    // without a cut, every qualifying row comes back
    ensures r.Ok? ==> var m := Matching(rows, timestamp, guild);
                      !(0 <= limit < |m|) ==> multiset(r.value) == multiset(m)
    // what is cut off comes after everything returned
    ensures r.Ok? ==> forall c :: c in rows && Qualifies(c, timestamp, guild) && c !in r.value ==>
                        forall d :: d in r.value ==> KeyLe(OrderKey(d), OrderKey(c))
  {
    if fails then Err(QueryFailed(timestamp))
    else
      var matching := Matching(rows, timestamp, guild);
      Ok(SortAndLimit(matching, OrderKey, limit))
  }

  /** `CountdownStore::get_first_after`: the least qualifying row in
      `(end, id)` order, if any. */
  function GetFirstAfter(rows: seq<Countdown>, timestamp: int, guild: int, fails: bool)
    : (r: Result<Option<Countdown>, Error>)
    ensures fails ==> r == Err(QueryFailed(timestamp))
    ensures !fails ==> r.Ok?
    ensures r.Ok? ==> (r.value.None? <==> forall c :: c in rows ==> !Qualifies(c, timestamp, guild))
    ensures r.Ok? && r.value.Some? ==>
              var first := r.value.value;
              && first in rows && Qualifies(first, timestamp, guild)
              && forall c :: c in rows && Qualifies(c, timestamp, guild) ==>
                               KeyLe(OrderKey(first), OrderKey(c))
  {
    match GetAfter(rows, timestamp, guild, 1, fails)
    case Err(e) => Err(e)
    case Ok(cs) =>
      assert |cs| <= 1;
      assert |cs| == 0 ==> |Matching(rows, timestamp, guild)| == 0;
      assert |cs| > 0 ==> cs[0] in cs;
      assert forall c :: c in rows && Qualifies(c, timestamp, guild) ==>
               c in Matching(rows, timestamp, guild);
      Ok(if |cs| == 0 then None else Some(cs[|cs| - 1]))
  }

  /** The queries are reads: with the rows they see, inserting a countdown
      for another guild never changes a guild's answer. */
  lemma GetAfterIgnoresOtherGuilds(rows: seq<Countdown>, timestamp: int, guild: int, other: int,
                                   end: int, limit: int)
    requires other != guild
    ensures var grown := Insert(rows, end, other, false).1;
            GetAfter(grown, timestamp, guild, limit, false) == GetAfter(rows, timestamp, guild, limit, false)
  {
    var grown := Insert(rows, end, other, false).1;
    MatchingAppendNonQualifying(rows, grown[|rows|], timestamp, guild);
    assert grown == rows + [grown[|rows|]];
  }

  /** Helper for `GetAfterIgnoresOtherGuilds`: a row that fails the `WHERE`
      clause, appended to the table, leaves the matching rows as they were. */
  lemma {:induction false} MatchingAppendNonQualifying(rows: seq<Countdown>, c: Countdown,
                                                       timestamp: int, guild: int)
    requires !Qualifies(c, timestamp, guild)
    ensures Matching(rows + [c], timestamp, guild) == Matching(rows, timestamp, guild)
  {
    if |rows| == 0 {
      assert rows + [c] == [c];
      assert [c][1..] == [];
    } else {
      assert (rows + [c])[1..] == rows[1..] + [c];
      MatchingAppendNonQualifying(rows[1..], c, timestamp, guild);
    }
  }
}
