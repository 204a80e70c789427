/** The diesel version's cache and gateway (src/gateway.rs): `SqliteCardCache`
    behind the `CardCache` trait, and `ScryfallGateway`, which consults it
    before Scryfall and backfills it afterwards. */
module Gateway {
  import opened Wrappers
  import opened CardTypes
  import Sql
  import opened LegacyCards
  import opened RemoteGateway

  // ----- SqliteCardCache -----------------------------------------------------

  /** `CardCache::get_card_from_query`: the empty query is `None` without
      touching the database; otherwise the join of `search_card_lookups`. */
  function GetCardFromQuery(st: Store, query: string, faults: LegacyFaults): (r: Option<Card>)
    ensures query == "" ==> r.None?
    ensures r.Some? ==> r.value in st.cards
    ensures r.Some? ==> exists e :: e in st.lookups && e.term == query && e.cardId == r.value.id
    ensures LookupJoin in faults ==> r.None?
    ensures query != "" && LookupJoin !in faults ==>
              (r.None? <==> forall e :: e in st.lookups && e.term == query ==> !HasId(st.cards, e.cardId))
  {
    SearchCardLookups(st.lookups, st.cards, query, faults)
  }

  /** `CardCache::insert_query`: a lookup entry for the card's id. */
  function InsertQuery(st: Store, query: string, card: Card, now: int, faults: LegacyFaults)
    : (s: (bool, Store))
    ensures s.1.cards == st.cards
    ensures s.0 <==> LookupInsert !in faults
    ensures s.0 ==> s.1.lookups == st.lookups + [Entry(query, card.id, Sql.AsI32(now))]
    ensures !s.0 ==> s.1 == st
  {
    var (ok, entries) := InsertCardLookup(st.lookups, query, card.id, now, faults);
    (ok, Store(st.cards, entries))
  }

  /** `CardCache::get_card`: by exact name; `None` for the empty name. */
  function CachedCard(st: Store, name: string, faults: LegacyFaults): (r: Option<Card>)
    ensures name == "" ==> r.None?
    ensures r.Some? ==> r.value in st.cards && r.value.name == name
    ensures CardByName in faults ==> r.None?
    ensures name != "" && CardByName !in faults ==> (r.Some? <==> HasName(st.cards, name))
  {
    GetCard(st.cards, name, faults)
  }

  /** `CardCache::insert_card`: the highest-id row after a one-row insert,
      `None` (and no change) otherwise. */
  function CacheCard(st: Store, newCard: RawCard, report: InsertReport, faults: LegacyFaults)
    : (s: (Option<Card>, Store))
    ensures s.1.lookups == st.lookups
    ensures s.0.Some? ==> s.0.value in s.1.cards && forall c :: c in s.1.cards ==> c.id <= s.0.value.id
    ensures s.0.Some? ==> s.0.value == Row(newCard, NextId(st.cards))
    ensures s.0.None? ==> s.1 == st
    ensures s.0.Some? <==>
              CardInsert !in faults && report == OneRow && NewestCard !in faults && CardCommit !in faults
    ensures s.0.Some? ==> s.1.cards == st.cards + [s.0.value]
  {
    var (card, cards) := InsertNewCard(st.cards, newCard, report, faults);
    (card, Store(cards, st.lookups))
  }

  // ----- ScryfallGateway -----------------------------------------------------

  /** `ScryfallGateway::random`: the upstream random card with the dummy id 0.
      Nothing is persisted. */
  function Random(client: Client): (r: Reply<Option<Card>>)
    ensures r.calls == [RandomCall]
    ensures r.result.Some? <==> client.random.ClientOk?
    ensures r.result.Some? ==> r.result.value.id == 0
    ensures r.result.Some? ==> Candidate(r.result.value) == RawFromScryfall(client.random.value)
  {
    match client.random
    case ClientOk(c) => Reply(Some(CardFromScryfall(c)), [RandomCall])
    case ClientErr => Reply(None, [RandomCall])
  }

  /** `ScryfallGateway::suggestions`: an empty list for the empty query and
      for a client error; otherwise the upstream list (the source returns an
      empty upstream list through its fallback, which is the same list). */
  function Suggestions(client: Client, query: string): (r: Reply<seq<string>>)
    ensures query == "" ==> r == Reply([], [])
    ensures query != "" ==> r.calls == [AutocompleteCall(query)]
    ensures query != "" && client.autocomplete(query).ClientErr? ==> r.result == []
    ensures query != "" && client.autocomplete(query).ClientOk? ==>
              r.result == client.autocomplete(query).value
  {
    if query == "" then Reply([], [])
    else
      match client.autocomplete(query)
      case ClientOk(names) => Reply(names, [AutocompleteCall(query)])
      case ClientErr => Reply([], [AutocompleteCall(query)])
  }

  /** The outcome of a `ScryfallGateway::search`. */
  datatype Searched = Searched(result: Option<Card>, store: Store, calls: seq<Call>)

  /** The `NewCard` that `search` builds from an upstream card. */
  function NewCardFrom(c: ScryfallCard): (r: RawCard)
    ensures r == Candidate(CardFromScryfall(c))
  {
    RawFromScryfall(c)
  }

  /** `ScryfallGateway::search`: the lookup index (no staleness); on a miss,
      Scryfall; then the card by name, inserted when not found; then a lookup
      entry, whose success is ignored. There is no empty-term check before
      the remote call. */
  function Search(st: Store, client: Client, query: string, now: int, report: InsertReport,
                  faults: LegacyFaults): (o: Searched)
    ensures o.calls == [] || o.calls == [NamedCall(query)]
    ensures o.calls == [] ==> o.store == st && o.result.Some?
    ensures query == "" ==> o.calls == [NamedCall("")]
    ensures st.cards <= o.store.cards && |o.store.cards| <= |st.cards| + 1
    ensures st.lookups <= o.store.lookups && |o.store.lookups| <= |st.lookups| + 1
    ensures o.result.Some? ==> o.result.value in o.store.cards
    ensures o.calls != [] && o.result.Some? ==>
              client.named(query).ClientOk? && o.result.value.name == client.named(query).value.name
    ensures o.calls != [] && client.named(query).ClientErr? ==> o.result.None? && o.store == st
    ensures o.result.None? ==> o.store.lookups == st.lookups
  {
    match GetCardFromQuery(st, query, faults)
    case Some(card) => Searched(Some(card), st, [])
    case None =>
      match client.named(query)
      case ClientErr => Searched(None, st, [NamedCall(query)])
      case ClientOk(upstream) =>
        var (cached, st') :=
          match CachedCard(st, upstream.name, faults)
          case Some(card) => (Some(card), st)
          case None => CacheCard(st, NewCardFrom(upstream), report, faults);
        match cached
        case None => Searched(None, st', [NamedCall(query)])
        case Some(card) =>
          var (_, st'') := InsertQuery(st', query, card, now, faults);
          Searched(Some(card), st'', [NamedCall(query)])
  }

  /** A cached term is answered from the index with no remote call and no write. */
  lemma SearchCachedHit(st: Store, client: Client, query: string, now: int,
                        report: InsertReport, faults: LegacyFaults, card: Card)
    requires GetCardFromQuery(st, query, faults) == Some(card)
    ensures Search(st, client, query, now, report, faults) == Searched(Some(card), st, [])
  {
  }

  /** On a remote hit whose name is already stored (and readable), that row
      is reused and no card is inserted. */
  lemma SearchReusesExistingCard(st: Store, client: Client, query: string, now: int,
                                 report: InsertReport, faults: LegacyFaults)
    requires GetCardFromQuery(st, query, faults).None?
    requires client.named(query).ClientOk?
    requires client.named(query).value.name != "" && CardByName !in faults
    requires HasName(st.cards, client.named(query).value.name)
    ensures var o := Search(st, client, query, now, report, faults);
            && o.store.cards == st.cards
            && o.result == FindByName(st.cards, client.named(query).value.name)
  {
  }

  /** On a remote hit whose name is not stored, the card is inserted under a
      fresh id, and the search fails only when that insert does. */
  lemma SearchInsertsNewCard(st: Store, client: Client, query: string, now: int,
                             report: InsertReport, faults: LegacyFaults)
    requires GetCardFromQuery(st, query, faults).None?
    requires client.named(query).ClientOk?
    requires !HasName(st.cards, client.named(query).value.name)
    ensures var o := Search(st, client, query, now, report, faults);
            var raw := NewCardFrom(client.named(query).value);
            && (o.result.Some? <==> InsertNewCard(st.cards, raw, report, faults).0.Some?)
            && (o.result.Some? ==> o.result.value == Row(raw, NextId(st.cards)))
            && (o.result.None? ==> o.store == st)
  {
  }

  /** The outcome of the lookup write is ignored: whether or not it fails,
      `search` returns the same card. */
  lemma SearchIgnoresLookupWrite(st: Store, client: Client, query: string, now: int,
                                 report: InsertReport, faults: LegacyFaults)
    ensures Search(st, client, query, now, report, faults).result ==
            Search(st, client, query, now, report, faults - {LookupInsert}).result
  {
    var clean := faults - {LookupInsert};
    assert LookupJoin in faults <==> LookupJoin in clean;
    assert CardByName in faults <==> CardByName in clean;
    assert CardInsert in faults <==> CardInsert in clean;
    assert NewestCard in faults <==> NewestCard in clean;
    assert CardCommit in faults <==> CardCommit in clean;
  }

  /** Reads that fail look like misses here, so a failing read of the cards
      table on a remote hit leads to a second row with the same name whenever
      the insert goes through (no uniqueness constraint is visible in the
      schema). */
  lemma SearchDuplicatesOnFailedRead()
    ensures var card := ScryfallCard("Lightning Bolt", "Instant", None, None, None, None);
            var client := Client(ClientErr, (_: string) => ClientOk(card), (_: string) => ClientErr);
            var st := Store([Row(RawFromScryfall(card), 1)], []);
            var o := Search(st, client, "bolt", 0, OneRow, {CardByName});
            && NamesUnique(st.cards)
            && |o.store.cards| == 2
            && o.store.cards[0].name == o.store.cards[1].name
  {
    var card := ScryfallCard("Lightning Bolt", "Instant", None, None, None, None);
    var st := Store([Row(RawFromScryfall(card), 1)], []);
    assert NextId(st.cards) == 2;
  }

  /** When reads of the cards table succeed and upstream names are non-empty,
      `search` keeps at most one row per name and a unique primary key. */
  lemma SearchPreservesUniqueness(st: Store, client: Client, query: string, now: int,
                                  report: InsertReport, faults: LegacyFaults)
    requires NamesUnique(st.cards) && IdsUnique(st.cards)
    requires CardByName !in faults
    requires client.named(query).ClientOk? ==> client.named(query).value.name != ""
    ensures NamesUnique(Search(st, client, query, now, report, faults).store.cards)
    ensures IdsUnique(Search(st, client, query, now, report, faults).store.cards)
  {
    var o := Search(st, client, query, now, report, faults);
    if o.store.cards != st.cards {
      var t := st.cards;
      var t' := o.store.cards;
      var raw := NewCardFrom(client.named(query).value);
      assert !HasName(t, raw.name);
      assert t' == t + [Row(raw, NextId(t))];
      AppendFreshKeepsUnique(t, Row(raw, NextId(t)));
    }
  }

  /** The shape of a successful remote search whose lookup read and write
      both went through: the term had no entry joining a card, the index gains
      the new entry, and the table either already had the card or gains it as
      its newest row. */
  lemma SearchRemoteShape(st: Store, client: Client, query: string, now: int,
                          report: InsertReport, faults: LegacyFaults)
    requires query != "" && LookupJoin !in faults && LookupInsert !in faults
    requires var o := Search(st, client, query, now, report, faults);
             o.calls != [] && o.result.Some?
    ensures var o := Search(st, client, query, now, report, faults);
            && (forall x :: x in st.lookups && x.term == query ==> !HasId(st.cards, x.cardId))
            && o.store.lookups == st.lookups + [Entry(query, o.result.value.id, Sql.AsI32(now))]
            && (o.store.cards == st.cards ||
                (o.store.cards == st.cards + [o.result.value] && o.result.value.id == NextId(st.cards)))
  {
  }

  /** Convergence without expiry: after a remote search for a non-empty term
      whose lookup read and write went through, every later search for it (at
      any time) is answered from the index with the same card and no remote
      call. */
  lemma SearchConverges(st: Store, client1: Client, client2: Client, query: string,
                        t1: int, t2: int, r1: InsertReport, r2: InsertReport,
                        f1: LegacyFaults, f2: LegacyFaults)
    requires IdsUnique(st.cards)
    requires query != "" && LookupJoin !in f1 && LookupInsert !in f1 && LookupJoin !in f2
    requires var o1 := Search(st, client1, query, t1, r1, f1);
             o1.calls != [] && o1.result.Some?
    ensures var o1 := Search(st, client1, query, t1, r1, f1);
            Search(o1.store, client2, query, t2, r2, f2) == Searched(o1.result, o1.store, [])
  {
    var o1 := Search(st, client1, query, t1, r1, f1);
    var card := o1.result.value;
    var e := Entry(query, card.id, Sql.AsI32(t1));
    SearchRemoteShape(st, client1, query, t1, r1, f1);
    var t := st.cards;
    var t' := o1.store.cards;
    var entries := o1.store.lookups;
    assert entries == st.lookups + [e];
    assert card in t';
    assert IdsUnique(t') by {
      if t' != t {
        forall i, j | 0 <= i < j < |t'| ensures t'[i].id != t'[j].id {
          if j == |t| { assert t'[i] == t[i]; }
        }
      }
    }
    forall x | x in entries && x.term == query && HasId(t', x.cardId)
      ensures x.cardId == card.id
    {
      if x != e {
        assert x in st.lookups;
        assert !HasId(t, x.cardId);
        var i :| 0 <= i < |t'| && t'[i].id == x.cardId;
        if t' == t {
          assert false;
        } else {
          assert i == |t|;
        }
      }
    }
    assert e in entries;
    JoinFirstSingle(entries, t', query, e, card);
  }
}
