/** `CardStore` (src/models/cards/mod.rs): the cache-aside composition of the
    lookup index, the canonical table and the remote gateway in the sqlx
    version. Each operation is a pure state transformer over both tables,
    parameterised by the clock, the client and the failing statements. */
module CardStore {
  import opened Wrappers
  import opened CardTypes
  import LocalStorage
  import CardLookup
  import opened RemoteGateway

  /** An answer, the tables after it, and the Scryfall requests sent for it. */
  datatype Outcome<T> = Outcome(result: Result<T, Error>, store: Store, calls: seq<Call>)

  /** The store's invariant: one row per name, a unique primary key, and no
      lookup entry pointing at a missing card. */
  ghost predicate Valid(st: Store) {
    NamesUnique(st.cards) && IdsUnique(st.cards) && Joined(st.lookups, st.cards)
  }

  /** `CardStore::random`: a remote random card run through `get_or_insert`.
      The lookup index is neither read nor written. */
  function Random(st: Store, client: Client, faults: Faults): (o: Outcome<Card>)
    ensures o.calls == [RandomCall]
    ensures o.store.lookups == st.lookups
    ensures client.random.ClientErr? ==> o.result == Err(RemoteFailure) && o.store == st
    ensures client.random.ClientOk? ==>
              var s := LocalStorage.GetOrInsert(st.cards, RawFromScryfall(client.random.value), faults);
              o.result == s.result && o.store.cards == s.table
  {
    var remote := RemoteGateway.Random(client);
    match remote.result
    case Err(e) => Outcome(Err(e), st, remote.calls)
    case Ok(raw) =>
      var s := LocalStorage.GetOrInsert(st.cards, raw, faults);
      Outcome(s.result, Store(s.table, st.lookups), remote.calls)
  }

  /** `CardStore::suggestions`: a passthrough to the remote gateway; neither
      table changes. */
  function Suggestions(st: Store, client: Client, query: string): (o: Outcome<seq<string>>)
    ensures o.store == st
    ensures query == "" ==> o.result == Ok([]) && o.calls == []
    ensures query != "" ==> o.calls == [AutocompleteCall(query)]
    ensures query != "" ==> (o.result.Ok? <==> client.autocomplete(query).ClientOk?)
    ensures query != "" && o.result.Ok? ==> o.result.value == client.autocomplete(query).value
  {
    var remote := RemoteGateway.Suggestions(client, query);
    Outcome(remote.result, st, remote.calls)
  }

  /** `CardStore::search` (`_search`): the index first; on a miss the remote
      by name, then `get_or_insert` and a backfill of the index. Every error on
      the way is returned as it is, including a failing backfill after the
      card has been stored. The term is not checked for emptiness. */
  function Search(st: Store, client: Client, key: CardLookup.ConflictKey, query: string,
                  now: int, faults: Faults): (o: Outcome<Option<Card>>)
    ensures o.calls == [] || o.calls == [NamedCall(query)]
    // the canonical table only grows, by at most one row, and only after a remote call
    ensures st.cards <= o.store.cards && |o.store.cards| <= |st.cards| + 1
    ensures o.calls == [] ==> o.store.cards == st.cards
    // a found card is a row of the table
    ensures o.result.Ok? && o.result.value.Some? ==> o.result.value.value in o.store.cards
    // a card found remotely is the one upstream returned for the term
    ensures o.calls != [] && o.result.Ok? && o.result.value.Some? ==>
              client.named(query).ClientOk? &&
              o.result.value.value.name == client.named(query).value.name
    // a failing purge aborts the search before anything else happens
    ensures PurgeLookups in faults ==>
              o == Outcome(Err(DbFailure(PurgeLookups)), st, [])
    // otherwise the index is purged and gains at most one entry, for this term at `now`
    ensures PurgeLookups !in faults ==>
              var p := CardLookup.Purged(st.lookups, now);
              && p <= o.store.lookups && |o.store.lookups| <= |p| + 1
              && (|o.store.lookups| == |p| + 1 ==>
                    o.store.lookups[|p|].term == query && o.store.lookups[|p|].lastUpdated == now)
  {
    var looked := CardLookup.Query(st.lookups, st.cards, query, now, faults);
    var afterQuery := Store(st.cards, looked.entries);
    match looked.result
    case Err(e) => Outcome(Err(e), afterQuery, [])
    case Ok(Some(card)) => Outcome(Ok(Some(card)), afterQuery, [])
    case Ok(None) =>
      var remote := RemoteGateway.GetByName(client, query);
      match remote.result.value
      case None => Outcome(Ok(None), afterQuery, remote.calls)
      case Some(raw) =>
        var stored := LocalStorage.GetOrInsert(st.cards, raw, faults);
        match stored.result
        case Err(e) => Outcome(Err(e), Store(stored.table, looked.entries), remote.calls)
        case Ok(card) =>
          var indexed := CardLookup.Insert(looked.entries, key, query, card.id, now, faults);
          var result := if indexed.result.Err? then Err(indexed.result.error) else Ok(Some(card));
          Outcome(result, Store(stored.table, indexed.entries), remote.calls)
  }

  // ----- the three paths of a search ---------------------------------------

  /** An index hit is returned without a remote call and without a write to
      the canonical table; the only write is the purge. */
  lemma SearchIndexHit(st: Store, client: Client, key: CardLookup.ConflictKey, query: string,
                       now: int, faults: Faults, card: Card)
    requires CardLookup.Query(st.lookups, st.cards, query, now, faults).result == Ok(Some(card))
    ensures Search(st, client, key, query, now, faults) ==
            Outcome(Ok(Some(card)), Store(st.cards, CardLookup.Purged(st.lookups, now)), [])
  {
  }

  /** An index miss for which upstream has no card is `Ok(None)`; the canonical
      table is unchanged and the index is only purged. */
  lemma SearchRemoteMiss(st: Store, client: Client, key: CardLookup.ConflictKey, query: string,
                         now: int, faults: Faults)
    requires CardLookup.Query(st.lookups, st.cards, query, now, faults).result == Ok(None)
    requires client.named(query).ClientErr?
    ensures Search(st, client, key, query, now, faults) ==
            Outcome(Ok(None), Store(st.cards, CardLookup.Purged(st.lookups, now)), [NamedCall(query)])
  {
  }

  /** An index miss with an upstream card: the answer is `get_or_insert` of
      that card, unless the backfill fails, in which case the error is
      returned although the card has been stored. */
  lemma SearchRemoteHit(st: Store, client: Client, key: CardLookup.ConflictKey, query: string,
                        now: int, faults: Faults)
    requires CardLookup.Query(st.lookups, st.cards, query, now, faults).result == Ok(None)
    requires client.named(query).ClientOk?
    ensures var o := Search(st, client, key, query, now, faults);
            var s := LocalStorage.GetOrInsert(st.cards, RawFromScryfall(client.named(query).value), faults);
            && o.calls == [NamedCall(query)]
            && o.store.cards == s.table
            && (s.result.Err? ==> o.result == Err(s.result.error))
            && (s.result.Ok? && InsertLookupRow !in faults ==> o.result == Ok(Some(s.result.value)))
            && (s.result.Ok? && InsertLookupRow in faults ==> o.result == Err(DbFailure(InsertLookupRow)))
  {
  }

  /** No card is returned together with an error: every failure of the index
      query, of `get_or_insert` or of the backfill surfaces as `Err`. */
  lemma SearchFailures(st: Store, client: Client, key: CardLookup.ConflictKey, query: string,
                       now: int, faults: Faults)
    ensures var o := Search(st, client, key, query, now, faults);
            && (SelectLookup in faults ==> o.result.Err? && o.calls == [])
            && (o.calls != [] && o.result.Ok? && o.result.value.Some? ==>
                  InsertLookupRow !in faults && BeginTx !in faults && SelectCardByName !in faults)
  {
  }

  /** The term is not checked for emptiness: `search("")` on an index miss
      asks upstream for the empty name. */
  lemma SearchEmptyTermReachesRemote(st: Store, client: Client, key: CardLookup.ConflictKey,
                                     now: int, faults: Faults)
    requires CardLookup.Query(st.lookups, st.cards, "", now, faults).result == Ok(None)
    ensures Search(st, client, key, "", now, faults).calls == [NamedCall("")]
  {
  }

  // ----- invariants ----------------------------------------------------------

  lemma JoinedGrow(entries: seq<Entry>, t: Table, t': Table)
    requires Joined(entries, t) && t <= t'
    ensures Joined(entries, t')
  {
    forall e | e in entries ensures HasId(t', e.cardId) {
      var i :| 0 <= i < |t| && t[i].id == e.cardId;
      assert t'[i] == t[i];
    }
  }

  /** After a successful remote search on a valid store, the index holds the
      purged entries, none of them for the term, followed by the new entry. */
  lemma SearchBackfill(st: Store, client: Client, key: CardLookup.ConflictKey, query: string,
                       now: int, faults: Faults)
    requires Valid(st)
    requires var o := Search(st, client, key, query, now, faults);
             o.calls != [] && o.result.Ok? && o.result.value.Some?
    ensures var o := Search(st, client, key, query, now, faults);
            var p := CardLookup.Purged(st.lookups, now);
            && (forall e :: e in p ==> e.term != query)
            && o.store.lookups == p + [Entry(query, o.result.value.value.id, now)]
  {
    var p := CardLookup.Purged(st.lookups, now);
    forall e | e in p ensures e.term != query {
      assert HasId(st.cards, e.cardId);
    }
  }

  /** `search` preserves the store's invariant. */
  lemma SearchPreservesValid(st: Store, client: Client, key: CardLookup.ConflictKey, query: string,
                             now: int, faults: Faults)
    requires Valid(st)
    ensures Valid(Search(st, client, key, query, now, faults).store)
  {
    var o := Search(st, client, key, query, now, faults);
    var p := CardLookup.Purged(st.lookups, now);
    if client.named(query).ClientOk? {
      LocalStorage.GetOrInsertPreservesUniqueness(st.cards, RawFromScryfall(client.named(query).value), faults);
    }
    assert Joined(st.lookups, st.cards);
    JoinedGrow(st.lookups, st.cards, o.store.cards);
    if PurgeLookups !in faults && |o.store.lookups| == |p| + 1 {
      var e := o.store.lookups[|p|];
      assert o.calls != [];
      var q := CardLookup.Query(st.lookups, st.cards, query, now, faults);
      var s := LocalStorage.GetOrInsert(st.cards, RawFromScryfall(client.named(query).value), faults);
      assert e.cardId == s.result.value.id;
      assert o.store.lookups == p + [e];
    }
  }

  /** `random` preserves the store's invariant. */
  lemma RandomPreservesValid(st: Store, client: Client, faults: Faults)
    requires Valid(st)
    ensures Valid(Random(st, client, faults).store)
  {
    var o := Random(st, client, faults);
    if client.random.ClientOk? {
      LocalStorage.GetOrInsertPreservesUniqueness(st.cards, RawFromScryfall(client.random.value), faults);
    }
    JoinedGrow(st.lookups, st.cards, o.store.cards);
  }

  // ----- convergence -------------------------------------------------------

  /** Cache convergence: once a search has resolved `query` remotely, a second
      search for it less than 30 days later is answered from the index with
      the same card and no remote call, whatever the client would answer. */
  lemma SearchConverges(st: Store, client1: Client, client2: Client, key: CardLookup.ConflictKey,
                        query: string, t1: int, t2: int, f1: Faults, f2: Faults)
    requires Valid(st)
    requires var o1 := Search(st, client1, key, query, t1, f1);
             o1.calls != [] && o1.result.Ok? && o1.result.value.Some?
    requires t2 - CardLookup.PurgeAge < t1
    requires PurgeLookups !in f2 && SelectLookup !in f2
    ensures var o1 := Search(st, client1, key, query, t1, f1);
            var o2 := Search(o1.store, client2, key, query, t2, f2);
            && o2.calls == []
            && o2.result == o1.result
            && o2.store.cards == o1.store.cards
  {
    var o1 := Search(st, client1, key, query, t1, f1);
    var card := o1.result.value.value;
    var p := CardLookup.Purged(st.lookups, t1);
    var e := Entry(query, card.id, t1);
    SearchBackfill(st, client1, key, query, t1, f1);
    SearchPreservesValid(st, client1, key, query, t1, f1);
    assert o1.store.lookups == p + [e];
    CardLookup.PurgedAppend(p, [e], t2);
    var p2 := CardLookup.Purged(o1.store.lookups, t2);
    assert p2 == CardLookup.Purged(p, t2) + [e];
    assert e in p2;
    forall x | x in p2 && x.term == query && HasId(o1.store.cards, x.cardId)
      ensures x.cardId == card.id
    {
      assert x !in CardLookup.Purged(p, t2);
    }
    JoinFirstSingle(p2, o1.store.cards, query, e, card);
  }

  /** Random persistence: two random draws of cards with the same name
      converge on one row with one id. */
  lemma RandomConverges(st: Store, client1: Client, client2: Client, f1: Faults, f2: Faults)
    requires Valid(st)
    requires client1.random.ClientOk? && client2.random.ClientOk?
    requires client1.random.value.name == client2.random.value.name
    requires Random(st, client1, f1).result.Ok?
    ensures var o1 := Random(st, client1, f1);
            var o2 := Random(o1.store, client2, f2);
            && o2.store == o1.store
            && (o2.result.Ok? ==> o2.result == o1.result)
  {
    LocalStorage.GetOrInsertIdempotent(st.cards, RawFromScryfall(client1.random.value),
                                       RawFromScryfall(client2.random.value), f1, f2);
  }
}
