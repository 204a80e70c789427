/** `RockCounter` (src/models/rocks.rs): a per-user counter bumped inside one
    transaction of a select followed by an `INSERT OR REPLACE`. */
module Rocks {
  import opened Wrappers

  /** The `rocks` table, user id to count. */
  type Counts = map<int, int>

  /** The statements of `increment`, each of which may fail. */
  datatype RockStmt = Begin | SelectCount | Upsert | Commit

  /** The `anyhow` errors, the select and the upsert naming their user. */
  datatype Error = BeginFailed | CountFailed(user: int) | UpdateFailed(user: int) | CommitFailed

  /** The stored count, a missing row counting as 0. */
  function Count(m: Counts, user: int): int {
    if user in m then m[user] else 0
  }

  /** `increment`: one more than the stored count, written back and returned;
      any failing statement leaves the table as it was. */
  function Increment(m: Counts, user: int, faults: set<RockStmt>): (s: (Result<int, Error>, Counts))
    ensures s.0.Ok? <==> Begin !in faults && SelectCount !in faults && Upsert !in faults && Commit !in faults
    ensures s.0.Err? ==> s.1 == m
    ensures s.0.Ok? ==> s.0.value == Count(m, user) + 1
    ensures s.0.Ok? && user !in m ==> s.0.value == 1
    ensures s.0.Ok? ==> user in s.1 && s.1[user] == s.0.value
    ensures s.0.Ok? ==> s.1.Keys == m.Keys + {user}
    ensures forall v :: v != user ==> Count(s.1, v) == Count(m, v)
  {
    if Begin in faults then (Err(BeginFailed), m)
    else if SelectCount in faults then (Err(CountFailed(user)), m)
    else
      var count := Count(m, user) + 1;
      if Upsert in faults then (Err(UpdateFailed(user)), m)
      else if Commit in faults then (Err(CommitFailed), m)
      else (Ok(count), m[user := count])
  }

  /** `n` successful increments of one user. */
  function IncrementTimes(m: Counts, user: int, n: nat): Counts
    decreases n
  {
    if n == 0 then m else Increment(IncrementTimes(m, user, n - 1), user, {}).1
  }

  /** After `n` increments the user's count has grown by exactly `n`, so a
      fresh user stands at `n`, and nobody else's count has moved. */
  lemma {:induction false} IncrementTimesCount(m: Counts, user: int, n: nat)
    ensures Count(IncrementTimes(m, user, n), user) == Count(m, user) + n
    ensures user !in m ==> Count(IncrementTimes(m, user, n), user) == n
    ensures forall v :: v != user ==> Count(IncrementTimes(m, user, n), v) == Count(m, v)
    decreases n
  {
    if n > 0 {
      IncrementTimesCount(m, user, n - 1);
    }
  }

  /** Increments of two different users commute. */
  lemma IncrementCommutes(m: Counts, u: int, v: int)
    requires u != v
    ensures Increment(Increment(m, u, {}).1, v, {}).1 == Increment(Increment(m, v, {}).1, u, {}).1
  {
    var a := Increment(Increment(m, u, {}).1, v, {}).1;
    var b := Increment(Increment(m, v, {}).1, u, {}).1;
    assert a.Keys == b.Keys;
    assert forall k :: k in a ==> a[k] == b[k];
  }
}
