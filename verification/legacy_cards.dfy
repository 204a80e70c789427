/** The diesel version of the card tables (src/models/card.rs and
    src/models/card_lookup.rs). Every database error is swallowed into `None`
    or `false`, lookups are never purged, and timestamps are stored as i32. */
module LegacyCards {
  import opened Wrappers
  import opened CardTypes
  import Sql

  /** The statements of the diesel version that may fail during a call. */
  datatype LegacyStmt = CardByName | CardInsert | NewestCard | CardCommit | LookupInsert | LookupJoin

  type LegacyFaults = set<LegacyStmt>

  /** What a successful single-row `INSERT` reports as its row count. */
  datatype InsertReport = OneRow | NoRow

  /** `impl From<dcc_scryfall::Card> for Card`: the upstream fields under a
      dummy id of 0. It agrees with the sqlx version's `RawCard::from`. */
  function CardFromScryfall(c: ScryfallCard): (r: Card)
    ensures r.id == 0
    ensures Candidate(r) == RawFromScryfall(c)
  {
    Card(0, c.name, c.typeLine, c.manaCost, c.oracleText, c.flavorText, ImageOf(c))
  }

  /** `cards.order(id.desc()).first()`: the row with the highest id. */
  function Newest(t: Table): (r: Option<Card>)
    ensures r.Some? <==> |t| > 0
    ensures r.Some? ==> r.value in t && forall c :: c in t ==> c.id <= r.value.id
  {
    if |t| == 0 then None
    else
      var top := Sql.MaxKey(t, CardId);
      assert forall c :: c in t ==> c.id <= top;
      assert HasId(t, top);
      FindById(t, top)
  }

  /** `insert_card`, one transaction: insert, and when exactly one row was
      reported inserted, read back the highest-id row. Any error rolls the
      transaction back and reads as `None`. */
  function InsertNewCard(t: Table, newCard: RawCard, report: InsertReport, faults: LegacyFaults)
    : (s: (Option<Card>, Table))
    ensures s.0.Some? <==>
              CardInsert !in faults && report == OneRow && NewestCard !in faults && CardCommit !in faults
    ensures s.0.Some? ==> s.1 == t + [Row(newCard, NextId(t))] && s.0.value == Row(newCard, NextId(t))
    ensures s.0.Some? ==> forall c :: c in s.1 ==> c.id <= s.0.value.id
    ensures s.0.None? ==> s.1 == t
  {
    if CardInsert in faults || report == NoRow then (None, t)
    else
      var t' := t + [Row(newCard, NextId(t))];
      if NewestCard in faults || CardCommit in faults then (None, t)
      else
        var newest := Newest(t').value;
        assert t'[|t|] == Row(newCard, NextId(t));
        assert forall c :: c in t' ==> c in t || c == Row(newCard, NextId(t));
        assert newest == Row(newCard, NextId(t));
        assert report == OneRow;
        (Some(newest), t')
  }

  /** `get_card`: the first row with exactly this name; the empty name and
      any database error give `None` (the empty name without a query). */
  function GetCard(t: Table, name: string, faults: LegacyFaults): (r: Option<Card>)
    ensures name == "" || CardByName in faults ==> r.None?
    ensures r.Some? ==> r.value in t && r.value.name == name
    ensures name != "" && CardByName !in faults ==> (r.Some? <==> HasName(t, name))
    ensures name != "" && CardByName !in faults ==> r == FindByName(t, name)
  {
    if name == "" || CardByName in faults then None
    else FindByName(t, name)
  }

  /** `insert_card_lookup`: a plain `INSERT` stamped with the clock cut to
      i32; `true` iff the insert succeeded. */
  function InsertCardLookup(entries: seq<Entry>, term: string, cardId: int, now: int,
                            faults: LegacyFaults): (s: (bool, seq<Entry>))
    ensures s.0 <==> LookupInsert !in faults
    ensures s.0 ==> s.1 == entries + [Entry(term, cardId, Sql.AsI32(now))]
    ensures !s.0 ==> s.1 == entries
    ensures s.0 ==> Sql.I32Min <= s.1[|entries|].lastUpdated <= Sql.I32Max
  {
    if LookupInsert in faults then (false, entries)
    else (true, entries + [Entry(term, cardId, Sql.AsI32(now))])
  }

  /** `search_card_lookups`: the card joined to the first entry whose term
      equals `term`; `last_updated` is never consulted. */
  function SearchCardLookups(entries: seq<Entry>, t: Table, term: string, faults: LegacyFaults)
    : (r: Option<Card>)
    ensures term == "" || LookupJoin in faults ==> r.None?
    ensures r.Some? ==> r.value in t
    ensures r.Some? ==> exists e :: e in entries && e.term == term && e.cardId == r.value.id
    ensures term != "" && LookupJoin !in faults ==>
              (r.None? <==> forall e :: e in entries && e.term == term ==> !HasId(t, e.cardId))
  {
    if term == "" || LookupJoin in faults then None
    else JoinFirst(entries, t, term)
  }

  /** Entries never expire in this version: an entry for a non-empty term
      whose card exists yields a hit however old its timestamp is. */
  lemma SearchCardLookupsNeverExpires(entries: seq<Entry>, t: Table, term: string,
                                      cardId: int, stamp: int, faults: LegacyFaults)
    requires term != "" && LookupJoin !in faults
    requires Entry(term, cardId, stamp) in entries && HasId(t, cardId)
    ensures SearchCardLookups(entries, t, term, faults).Some?
  {
  }
}
