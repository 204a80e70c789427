/** The records of the card resolution cache (src/models/cards/mod.rs):
    the stored `Card`, the id-less `RawCard` the remote gateway produces, the
    upstream Scryfall card it is converted from, the `card_lookups` entry, and
    the relational facts both the sqlx and the diesel versions share. */
module CardTypes {
  import opened Wrappers
  import Sql

  /** A row of the `cards` table. */
  datatype Card = Card(
    id: int,
    name: string,
    typeLine: string,
    manaCost: Option<string>,
    oracleText: Option<string>,
    flavorText: Option<string>,
    imageUri: Option<string>)

  /** A card as fetched from upstream, before it has been given a row id. */
  datatype RawCard = RawCard(
    name: string,
    typeLine: string,
    manaCost: Option<string>,
    oracleText: Option<string>,
    flavorText: Option<string>,
    imageUri: Option<string>)

  /** The parts of an upstream Scryfall card that the bot reads. */
  datatype ImageUris = ImageUris(borderCrop: string, small: string)

  datatype ScryfallCard = ScryfallCard(
    name: string,
    typeLine: string,
    manaCost: Option<string>,
    oracleText: Option<string>,
    flavorText: Option<string>,
    imageUris: Option<ImageUris>)

  /** The image the bot stores for an upstream card: its border crop, if
      the card has images at all. */
  function ImageOf(c: ScryfallCard): (uri: Option<string>)
    ensures uri.Some? <==> c.imageUris.Some?
    ensures uri.Some? ==> uri.value == c.imageUris.value.borderCrop
  {
    match c.imageUris
    case Some(img) => Some(img.borderCrop)
    case None => None
  }

  /** `impl From<dcc_scryfall::Card> for RawCard`. */
  function RawFromScryfall(c: ScryfallCard): (r: RawCard)
    ensures r.name == c.name && r.typeLine == c.typeLine
    ensures r.manaCost == c.manaCost && r.oracleText == c.oracleText
    ensures r.flavorText == c.flavorText
    ensures r.imageUri.Some? <==> c.imageUris.Some?
    ensures c.imageUris.Some? ==> r.imageUri == Some(c.imageUris.value.borderCrop)
  {
    RawCard(c.name, c.typeLine, c.manaCost, c.oracleText, c.flavorText, ImageOf(c))
  }

  /** The row an INSERT of `raw` creates when SQLite gives it rowid `id`. */
  function Row(raw: RawCard, id: int): Card
  {
    Card(id, raw.name, raw.typeLine, raw.manaCost, raw.oracleText, raw.flavorText, raw.imageUri)
  }

  /** The candidate a row was inserted from: the row without its id. */
  function Candidate(c: Card): RawCard
  {
    RawCard(c.name, c.typeLine, c.manaCost, c.oracleText, c.flavorText, c.imageUri)
  }

  // ----- failures -----------------------------------------------------------

  /** The SQL statements the sqlx card store issues. A call of the store is
      given the set of statements that fail during it; each statement runs at
      most once per call. */
  datatype Stmt =
    | BeginTx | SelectCardByName | InsertCardRow | CommitTx | SelectCardById
    | PurgeLookups | SelectLookup | InsertLookupRow

  type Faults = set<Stmt>

  /** The `anyhow` errors of the sqlx card store, by origin. */
  datatype Error =
    | DbFailure(stmt: Stmt)
    | CardNotFound(id: int)
    | RemoteFailure

  // ----- the cards table ---------------------------------------------------

  type Table = seq<Card>

  function CardId(c: Card): int { c.id }

  /** The rowid the next inserted card receives. */
  function NextId(t: Table): (id: int)
    ensures forall i :: 0 <= i < |t| ==> t[i].id < id
  {
    Sql.NextKey(t, CardId)
  }

  ghost predicate HasName(t: Table, name: string) {
    exists i :: 0 <= i < |t| && t[i].name == name
  }

  ghost predicate HasId(t: Table, id: int) {
    exists i :: 0 <= i < |t| && t[i].id == id
  }

  /** At most one row per card name: the invariant the cache exists for. */
  ghost predicate NamesUnique(t: Table) {
    forall i, j :: 0 <= i < j < |t| ==> t[i].name != t[j].name
  }

  /** `id` is the primary key of `cards`. */
  ghost predicate IdsUnique(t: Table) {
    forall i, j :: 0 <= i < j < |t| ==> t[i].id != t[j].id
  }

  /** `SELECT ... FROM cards WHERE name = ?` with the first row taken. */
  function FindByName(t: Table, name: string): (r: Option<Card>)
    ensures r.Some? <==> HasName(t, name)
    ensures r.Some? ==> r.value in t && r.value.name == name
  {
    if |t| == 0 then None
    else if t[0].name == name then Some(t[0])
    else
      var r := FindByName(t[1..], name);
      assert forall i :: 1 <= i < |t| ==> t[i] == t[1..][i - 1];
      assert HasName(t[1..], name) ==> HasName(t, name);
      r
  }

  /** `SELECT ... FROM cards WHERE id = ?` with the first row taken. */
  function FindById(t: Table, id: int): (r: Option<Card>)
    ensures r.Some? <==> HasId(t, id)
    ensures r.Some? ==> r.value in t && r.value.id == id
  {
    if |t| == 0 then None
    else if t[0].id == id then Some(t[0])
    else
      var r := FindById(t[1..], id);
      assert forall i :: 1 <= i < |t| ==> t[i] == t[1..][i - 1];
      assert HasId(t[1..], id) ==> HasId(t, id);
      r
  }

  /** Appending a row with a new name and a fresh largest id keeps both
      names and ids unique. */
  lemma AppendFreshKeepsUnique(t: Table, c: Card)
    requires NamesUnique(t) && IdsUnique(t)
    requires !HasName(t, c.name)
    requires forall i :: 0 <= i < |t| ==> t[i].id < c.id
    ensures NamesUnique(t + [c]) && IdsUnique(t + [c])
  {
    var t' := t + [c];
    forall i, j | 0 <= i < j < |t'|
      ensures t'[i].name != t'[j].name && t'[i].id != t'[j].id
    {
      assert t'[i] == t[i];
      assert j < |t| ==> t'[j] == t[j];
    }
  }

  /** Under a unique name the lookup by name finds exactly the row carrying it. */
  lemma FindByNameUnique(t: Table, c: Card)
    requires NamesUnique(t)
    requires c in t
    ensures FindByName(t, c.name) == Some(c)
  {
    var r := FindByName(t, c.name).value;
    var i :| 0 <= i < |t| && t[i] == c;
    var j :| 0 <= j < |t| && t[j] == r;
    assert !(i < j) && !(j < i);
  }

  /** Under a unique primary key the lookup by id finds exactly the row carrying it. */
  lemma FindByIdUnique(t: Table, c: Card)
    requires IdsUnique(t)
    requires c in t
    ensures FindById(t, c.id) == Some(c)
  {
    var r := FindById(t, c.id).value;
    var i :| 0 <= i < |t| && t[i] == c;
    var j :| 0 <= j < |t| && t[j] == r;
    assert !(i < j) && !(j < i);
  }

  // ----- the card_lookups table --------------------------------------------

  /** A row of `card_lookups`: a free-text term resolved to a card id at
      `lastUpdated` (seconds since the epoch). */
  datatype Entry = Entry(term: string, cardId: int, lastUpdated: int)

  /** Both persistent tables. */
  datatype Store = Store(cards: Table, lookups: seq<Entry>)

  /** Every lookup entry refers to an existing card. */
  ghost predicate Joined(entries: seq<Entry>, t: Table) {
    forall e :: e in entries ==> HasId(t, e.cardId)
  }

  /** `card_lookups INNER JOIN cards ON card_id = cards.id AND search_term = ?`,
      first row taken: the card of the first entry for `term` whose card
      exists. Entries whose card is missing never contribute. */
  function JoinFirst(entries: seq<Entry>, t: Table, term: string): (r: Option<Card>)
    ensures r.Some? ==> r.value in t
    ensures r.Some? ==> exists e :: e in entries && e.term == term && e.cardId == r.value.id
    ensures r.None? <==> forall e :: e in entries && e.term == term ==> !HasId(t, e.cardId)
  {
    if |entries| == 0 then None
    else
      var e := entries[0];
      var found := if e.term == term then FindById(t, e.cardId) else None;
      if found.Some? then found
      else
        var r := JoinFirst(entries[1..], t, term);
        assert forall x :: x in entries[1..] ==> x in entries;
        assert forall x :: x in entries ==> x == e || x in entries[1..];
        r
  }

  /** With a unique primary key, an entry for `term` that is the only one whose
      card exists determines the join's answer. */
  lemma JoinFirstSingle(entries: seq<Entry>, t: Table, term: string, e: Entry, c: Card)
    requires IdsUnique(t)
    requires c in t && e in entries && e.term == term && e.cardId == c.id
    requires forall x :: x in entries && x.term == term && HasId(t, x.cardId) ==> x.cardId == c.id
    ensures JoinFirst(entries, t, term) == Some(c)
  {
    var r := JoinFirst(entries, t, term);
    assert HasId(t, e.cardId);
    var x :| x in entries && x.term == term && x.cardId == r.value.id;
    assert HasId(t, x.cardId);
    FindByIdUnique(t, c);
    FindByIdUnique(t, r.value);
  }
}
