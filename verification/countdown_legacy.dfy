/** The diesel version of the countdown table (src/models/countdown.rs): no
    guilds, timestamps stored as i32, and a failing query panics. */
module CountdownLegacy {
  import opened Wrappers
  import Sql
  import opened Sorting

  /** A row of `countdowns`. */
  datatype Countdown = Countdown(id: int, end: int, active: bool)

  function CountdownId(c: Countdown): int { c.id }

  /** `ORDER BY end ASC`; rows with equal ends come out in id order, which
      is one of the orders SQLite may choose. */
  function OrderKey(c: Countdown): Key { Key(c.end, c.id) }

  /** `WHERE active = true AND end >= ?`. */
  predicate Qualifies(c: Countdown, timestamp: int) {
    c.active && c.end >= timestamp
  }

  /** `insert_countdown`: an active countdown ending at `timestamp` under a
      fresh id; `true` iff the insert succeeded, and a failing insert changes
      nothing. */
  function InsertCountdown(rows: seq<Countdown>, timestamp: int, fails: bool): (s: (bool, seq<Countdown>))
    requires Sql.I32Min <= timestamp <= Sql.I32Max
    ensures s.0 <==> !fails
    ensures !s.0 ==> s.1 == rows
    ensures s.0 ==> |s.1| == |rows| + 1 && rows <= s.1
    ensures s.0 ==> var c := s.1[|rows|];
                    c.end == timestamp && c.active && forall prev :: prev in rows ==> prev.id < c.id
  {
    if fails then (false, rows)
    else (true, rows + [Countdown(Sql.NextKey(rows, CountdownId), timestamp, true)])
  }

  /** The rows that pass the `WHERE` clause, in table order. */
  function Matching(rows: seq<Countdown>, timestamp: int): (r: seq<Countdown>)
    ensures forall c :: c in r <==> c in rows && Qualifies(c, timestamp)
    ensures multiset(r) <= multiset(rows)
  {
    if |rows| == 0 then []
    else
      var rest := Matching(rows[1..], timestamp);
      assert rows == [rows[0]] + rows[1..];
      if Qualifies(rows[0], timestamp) then [rows[0]] + rest else rest
  }

  /** The `get_countdowns` query at an i32 `timestamp`: the first `limit`
      qualifying rows in end order; a negative limit is no limit, as in
      SQLite. */
  function Query(rows: seq<Countdown>, limit: int, timestamp: int): (r: seq<Countdown>)
    ensures forall c :: c in r ==> c in rows && Qualifies(c, timestamp)
    ensures multiset(r) <= multiset(rows)
    ensures forall i, j :: 0 <= i < j < |r| ==> r[i].end <= r[j].end
    ensures var n := |Matching(rows, timestamp)|;
            |r| == if 0 <= limit < n then limit else n
    // without a cut, every qualifying row comes back
    ensures var m := Matching(rows, timestamp);
            !(0 <= limit < |m|) ==> multiset(r) == multiset(m)
    ensures forall c :: c in rows && Qualifies(c, timestamp) && c !in r ==>
              forall d :: d in r ==> d.end <= c.end
  {
    var r := SortAndLimit(Matching(rows, timestamp), OrderKey, limit);
    SortedByMajor(r, OrderKey);
    r
  }

  /** `get_countdowns`: the query at the instant `now` (seconds) cut to
      i32. */
  function GetCountdowns(rows: seq<Countdown>, limit: int, now: int): (r: seq<Countdown>)
    ensures forall c :: c in r ==> c in rows && Qualifies(c, Sql.AsI32(now))
    ensures forall i, j :: 0 <= i < j < |r| ==> r[i].end <= r[j].end
    ensures var n := |Matching(rows, Sql.AsI32(now))|;
            |r| == if 0 <= limit < n then limit else n
    // what is cut off ends no earlier than anything returned
    ensures forall c :: c in rows && Qualifies(c, Sql.AsI32(now)) && c !in r ==>
              forall d :: d in r ==> d.end <= c.end
    // an instant inside the i32 range is queried as it is
    ensures Sql.I32Min <= now <= Sql.I32Max ==> r == Query(rows, limit, now)
  {
    Query(rows, limit, Sql.AsI32(now))
  }

  /** What the first row of a query with limit 1 is: a qualifying row with
      the earliest end, there whenever some row qualifies. */
  lemma QueryOfOne(rows: seq<Countdown>, ts: int)
    ensures var cs := Query(rows, 1, ts);
            |cs| <= 1 && (|cs| == 0 <==> forall c :: c in rows ==> !Qualifies(c, ts))
    ensures var cs := Query(rows, 1, ts);
            |cs| == 1 ==> cs[0] in rows && Qualifies(cs[0], ts) &&
                          forall c :: c in rows && Qualifies(c, ts) ==> cs[0].end <= c.end
  {
    var cs := Query(rows, 1, ts);
    var m := Matching(rows, ts);
    assert |cs| == 0 <==> |m| == 0;
    if |cs| == 0 {
      forall c | c in rows ensures !Qualifies(c, ts) {
        assert c in m <==> Qualifies(c, ts);
      }
    } else {
      assert cs[0] in cs;
      assert exists c :: c in rows && Qualifies(c, ts) by {
        assert cs[0] in rows && Qualifies(cs[0], ts);
      }
    }
  }

  /** `get_first_countdown`: the popped last element of `get_countdowns(1)`,
      which is a qualifying row with the earliest end, or `None` when no row
      qualifies. */
  function GetFirstCountdown(rows: seq<Countdown>, now: int): (r: Option<Countdown>)
    ensures var ts := Sql.AsI32(now);
            r.None? <==> forall c :: c in rows ==> !Qualifies(c, ts)
    ensures var ts := Sql.AsI32(now);
            r.Some? ==> r.value in rows && Qualifies(r.value, ts)
    ensures var ts := Sql.AsI32(now);
            r.Some? ==> forall c :: c in rows && Qualifies(c, ts) ==> r.value.end <= c.end
  {
    var cs := GetCountdowns(rows, 1, now);
    QueryOfOne(rows, Sql.AsI32(now));
    if |cs| == 0 then None else Some(cs[|cs| - 1])
  }

  /** The i32 cut matters: one second past the i32 range wraps to the most
      negative instant, so every active row qualifies again. */
  lemma TimestampWrapsPastI32(rows: seq<Countdown>)
    requires forall c :: c in rows ==> Sql.I32Min <= c.end
    ensures forall c :: c in rows && c.active ==> c in GetCountdowns(rows, -1, Sql.I32Max + 1)
  {
    var ts := Sql.AsI32(Sql.I32Max + 1);
    assert ts == Sql.I32Min by {
      assert Sql.I32Max + 1 - Sql.I32Min == Sql.I32Modulus;
    }
    var m := Matching(rows, ts);
    var r := GetCountdowns(rows, -1, Sql.I32Max + 1);
    assert r == Query(rows, -1, ts);
    forall c | c in rows && c.active ensures c in r {
      assert c in m;
      assert c in multiset(m);
    }
  }
}
