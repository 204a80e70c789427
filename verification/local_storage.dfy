/** `LocalCardStorage` (src/models/cards/local.rs): the canonical `cards`
    table of the sqlx version, with its read-by-id and its atomic
    find-by-name-or-append step. */
module LocalStorage {
  import opened Wrappers
  import opened CardTypes

  /** A store call's answer together with the `cards` table after it. */
  datatype Stored = Stored(result: Result<Card, Error>, table: Table)

  /** `LocalCardStorage::get`: the row with the given id. */
  function Get(t: Table, id: int, faults: Faults): (r: Result<Card, Error>)
    ensures r.Ok? <==> SelectCardById !in faults && HasId(t, id)
    ensures r.Ok? ==> r.value in t && r.value.id == id
    ensures SelectCardById !in faults && !HasId(t, id) ==> r == Err(CardNotFound(id))
  {
    if SelectCardById in faults then Err(DbFailure(SelectCardById))
    else
      match FindById(t, id)
      case Some(c) => Ok(c)
      case None => Err(CardNotFound(id))
  }

  /** None of the statements of `get_or_insert` fails. */
  predicate TxSucceeds(faults: Faults) {
    && BeginTx !in faults && SelectCardByName !in faults && InsertCardRow !in faults
    && CommitTx !in faults && SelectCardById !in faults
  }

  /** `LocalCardStorage::get_or_insert`, one transaction. A row already named
      like the candidate is returned as it is; otherwise the candidate is
      appended under a fresh id, committed, and read back by that id. A
      failure before the commit rolls back; the read-back runs after the
      commit, so its failure leaves the new row in place. */
  function GetOrInsert(t: Table, raw: RawCard, faults: Faults): (s: Stored)
    // the table is either untouched or gains exactly the candidate's row
    ensures s.table == t || (s.table == t + [Row(raw, NextId(t))] && !HasName(t, raw.name))
    // any card returned is a row of the table, named like the candidate
    ensures s.result.Ok? ==> s.result.value in s.table && s.result.value.name == raw.name
    // a name already present is served from the table without a write
    ensures HasName(t, raw.name) ==> s.table == t
    ensures HasName(t, raw.name) && BeginTx !in faults && SelectCardByName !in faults ==>
              s.result.Ok? && s.result.value in t
    // failures up to the commit leave the table as it was
    ensures BeginTx in faults || SelectCardByName in faults ==> s.result.Err? && s.table == t
    ensures !HasName(t, raw.name) && (InsertCardRow in faults || CommitTx in faults) ==>
              s.result.Err? && s.table == t
    // a committed insert is the candidate under a fresh id
    ensures s.table != t && SelectCardById !in faults ==> s.result == Ok(Row(raw, NextId(t)))
    ensures s.table != t && SelectCardById in faults ==> s.result.Err?
    ensures TxSucceeds(faults) ==> s.result.Ok?
  {
    if BeginTx in faults then Stored(Err(DbFailure(BeginTx)), t)
    else if SelectCardByName in faults then Stored(Err(DbFailure(SelectCardByName)), t)
    else
      match FindByName(t, raw.name)
      case Some(existing) => Stored(Ok(existing), t)
      case None =>
        if InsertCardRow in faults then Stored(Err(DbFailure(InsertCardRow)), t)
        else if CommitTx in faults then Stored(Err(DbFailure(CommitTx)), t)
        else
          var id := NextId(t);
          var t' := t + [Row(raw, id)];
          assert t'[|t|] == Row(raw, id);
          assert HasId(t', id);
          Stored(Get(t', id, faults), t')
  }

  /** Rows are never modified or deleted, and a call appends at most one. */
  lemma GetOrInsertAppendOnly(t: Table, raw: RawCard, faults: Faults)
    ensures t <= GetOrInsert(t, raw, faults).table
    ensures |GetOrInsert(t, raw, faults).table| <= |t| + 1
  {
  }

  /** `get_or_insert` keeps at most one row per name and a unique primary key. */
  lemma GetOrInsertPreservesUniqueness(t: Table, raw: RawCard, faults: Faults)
    requires NamesUnique(t) && IdsUnique(t)
    ensures NamesUnique(GetOrInsert(t, raw, faults).table)
    ensures IdsUnique(GetOrInsert(t, raw, faults).table)
  {
    var s := GetOrInsert(t, raw, faults);
    if s.table != t {
      assert s.table == t + [Row(raw, NextId(t))];
      AppendFreshKeepsUnique(t, Row(raw, NextId(t)));
    }
  }

  /** On a table with unique names, the candidate's name ends up on exactly
      one row whenever the call succeeds, and that row is the one returned. */
  lemma GetOrInsertNameOwner(t: Table, raw: RawCard, faults: Faults)
    requires NamesUnique(t) && IdsUnique(t)
    requires GetOrInsert(t, raw, faults).result.Ok?
    ensures FindByName(GetOrInsert(t, raw, faults).table, raw.name) ==
            Some(GetOrInsert(t, raw, faults).result.value)
  {
    var s := GetOrInsert(t, raw, faults);
    GetOrInsertPreservesUniqueness(t, raw, faults);
    FindByNameUnique(s.table, s.result.value);
  }

  /** Idempotence: a second `get_or_insert` with a candidate of the same name
      (whatever its other fields) adds no row and returns the same card. */
  lemma GetOrInsertIdempotent(t: Table, raw1: RawCard, raw2: RawCard, f1: Faults, f2: Faults)
    requires NamesUnique(t) && IdsUnique(t)
    requires raw1.name == raw2.name
    requires GetOrInsert(t, raw1, f1).result.Ok?
    ensures var s1 := GetOrInsert(t, raw1, f1);
            var s2 := GetOrInsert(s1.table, raw2, f2);
            && s2.table == s1.table
            && (s2.result.Ok? ==> s2.result == s1.result)
  {
    var s1 := GetOrInsert(t, raw1, f1);
    var s2 := GetOrInsert(s1.table, raw2, f2);
    GetOrInsertNameOwner(t, raw1, f1);
    GetOrInsertPreservesUniqueness(t, raw1, f1);
    assert HasName(s1.table, raw2.name);
    if s2.result.Ok? {
      FindByNameUnique(s1.table, s2.result.value);
    }
  }
}
