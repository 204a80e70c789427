/** `LocalCardLookup` (src/models/cards/lookup.rs): the `card_lookups`
    secondary index from free-text search terms to card ids, purged of entries
    30 days old or older on every read. */
module CardLookup {
  import opened Wrappers
  import opened CardTypes

  /** `Duration::days(30)`, in seconds. */
  const PurgeAge: int := 30 * 24 * 60 * 60

  /** `DELETE FROM card_lookups WHERE last_updated <= now - 30 days`: the
      bound is inclusive. */
  predicate IsStale(e: Entry, now: int) {
    e.lastUpdated <= now - PurgeAge
  }

  /** The uniqueness constraint `INSERT OR IGNORE` collides with. The schema
      of the sqlx version is not part of this model, so the key is a parameter. */
  datatype ConflictKey = TermKey | TermAndCardKey | NoKey

  predicate Conflicts(key: ConflictKey, a: Entry, b: Entry) {
    match key
    case TermKey => a.term == b.term
    case TermAndCardKey => a.term == b.term && a.cardId == b.cardId
    case NoKey => false
  }

  /** A lookup call's answer together with `card_lookups` after it. */
  datatype Indexed<T> = Indexed(result: Result<T, Error>, entries: seq<Entry>)

  /** `LocalCardLookup::insert` of `NewCardLookup::new(term, cardId)` at time
      `now`: `INSERT OR IGNORE`. An entry that collides with an existing one is
      dropped silently; an existing entry is never changed, so its
      `last_updated` is not refreshed. */
  function Insert(entries: seq<Entry>, key: ConflictKey, term: string, cardId: int, now: int,
                  faults: Faults): (s: Indexed<()>)
    ensures InsertLookupRow in faults ==> s == Indexed(Err(DbFailure(InsertLookupRow)), entries)
    ensures InsertLookupRow !in faults ==> s.result.Ok?
    ensures s.entries == entries || s.entries == entries + [Entry(term, cardId, now)]
    ensures s.entries != entries <==>
              InsertLookupRow !in faults &&
              forall e :: e in entries ==> !Conflicts(key, e, Entry(term, cardId, now))
  {
    var row := Entry(term, cardId, now);
    if InsertLookupRow in faults then Indexed(Err(DbFailure(InsertLookupRow)), entries)
    else if exists e :: e in entries && Conflicts(key, e, row) then Indexed(Ok(()), entries)
    else Indexed(Ok(()), entries + [row])
  }

  /** The entries that survive a purge at `now`, in table order. */
  function Purged(entries: seq<Entry>, now: int): (r: seq<Entry>)
    ensures forall e :: e in r <==> e in entries && !IsStale(e, now)
    ensures |r| <= |entries|
  {
    if |entries| == 0 then []
    else
      var rest := Purged(entries[1..], now);
      assert forall e :: e in entries ==> e == entries[0] || e in entries[1..];
      if IsStale(entries[0], now) then rest else [entries[0]] + rest
  }

  /** Purging distributes over a table split in two. */
  lemma {:induction false} PurgedAppend(a: seq<Entry>, b: seq<Entry>, now: int)
    ensures Purged(a + b, now) == Purged(a, now) + Purged(b, now)
  {
    if |a| == 0 {
      assert a + b == b;
    } else {
      assert (a + b)[1..] == a[1..] + b;
      PurgedAppend(a[1..], b, now);
    }
  }

  /** A purge at a fixed `now` changes nothing the second time. */
  lemma {:induction false} PurgedIdempotent(entries: seq<Entry>, now: int)
    ensures Purged(Purged(entries, now), now) == Purged(entries, now)
  {
    if |entries| > 0 {
      PurgedIdempotent(entries[1..], now);
    }
  }

  /** `LocalCardLookup::clear`: one `DELETE`, which either removes exactly the
      stale entries or fails and removes nothing. */
  function Clear(entries: seq<Entry>, now: int, faults: Faults): (s: Indexed<()>)
    ensures PurgeLookups in faults ==> s == Indexed(Err(DbFailure(PurgeLookups)), entries)
    ensures PurgeLookups !in faults ==> s.result.Ok?
    ensures PurgeLookups !in faults ==>
              forall e :: e in s.entries <==> e in entries && !IsStale(e, now)
    // every fresh row survives as often as it was there, in table order
    ensures PurgeLookups !in faults ==> s.entries == Purged(entries, now)
  {
    if PurgeLookups in faults then Indexed(Err(DbFailure(PurgeLookups)), entries)
    else Indexed(Ok(()), Purged(entries, now))
  }

  /** Two clears at the same `now` leave the table as the first successful one does. */
  lemma ClearIdempotent(entries: seq<Entry>, now: int, f1: Faults, f2: Faults)
    requires PurgeLookups !in f1
    ensures var once := Clear(entries, now, f1).entries;
            Clear(once, now, f2).entries == once
  {
    PurgedIdempotent(entries, now);
  }

  /** `LocalCardLookup::query`: purge, then join the surviving entries for
      `term` (compared exactly) with `cards`. A failing purge aborts the query;
      a failing select keeps the purge, which has already run. */
  function Query(entries: seq<Entry>, cards: Table, term: string, now: int, faults: Faults)
    : (s: Indexed<Option<Card>>)
    ensures PurgeLookups in faults ==> s == Indexed(Err(DbFailure(PurgeLookups)), entries)
    ensures PurgeLookups !in faults ==> s.entries == Purged(entries, now)
    ensures PurgeLookups !in faults && SelectLookup in faults ==> s.result.Err?
    ensures PurgeLookups !in faults && SelectLookup !in faults ==> s.result.Ok?
    // a hit is the card of a surviving entry for exactly this term
    ensures s.result.Ok? && s.result.value.Some? ==>
              && s.result.value.value in cards
              && exists e :: e in entries && !IsStale(e, now) && e.term == term
                             && e.cardId == s.result.value.value.id
    // a miss means no surviving entry for the term joins a card
    ensures s.result.Ok? && s.result.value.None? ==>
              forall e :: e in entries && !IsStale(e, now) && e.term == term ==>
                            !HasId(cards, e.cardId)
  {
    var cleared := Clear(entries, now, faults);
    if cleared.result.Err? then Indexed(Err(cleared.result.error), entries)
    else if SelectLookup in faults then Indexed(Err(DbFailure(SelectLookup)), cleared.entries)
    else Indexed(Ok(JoinFirst(cleared.entries, cards, term)), cleared.entries)
  }

  /** A term whose entries are all 30 days old or older is a miss. */
  lemma QueryStaleTermMisses(entries: seq<Entry>, cards: Table, term: string, now: int,
                             faults: Faults)
    requires forall e :: e in entries && e.term == term ==> IsStale(e, now)
    requires PurgeLookups !in faults && SelectLookup !in faults
    ensures Query(entries, cards, term, now, faults).result == Ok(None)
  {
  }

  /** An entry whose card is missing never produces a hit: the query is an
      inner join. */
  lemma QueryIgnoresDanglingEntries(entries: seq<Entry>, cards: Table, term: string, now: int,
                                    faults: Faults)
    requires forall e :: e in entries && e.term == term ==> !HasId(cards, e.cardId)
    requires PurgeLookups !in faults && SelectLookup !in faults
    ensures Query(entries, cards, term, now, faults).result == Ok(None)
  {
  }
}
