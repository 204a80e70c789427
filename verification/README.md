# robbot core in Dafny

This project models the stateful and text-handling core of robbot, a Discord bot. The core has four parts.

**The MTG card resolution cache, in both versions.**
- The sqlx version (`CardStore`) has three pieces.
  - `LocalCardStorage` is the canonical `cards` table. Its `get_or_insert` is an atomic find-by-name-or-append step.
  - `LocalCardLookup` is the `card_lookups` index from free-text terms to card ids. It purges entries 30 days old or older on every read.
  - `RemoteCardGateway` sits in front of Scryfall.
- The older diesel version is `SqliteCardCache` plus `ScryfallGateway`, with `card.rs` and `card_lookup.rs` underneath.

**The two countdown stores.** `CountdownStore`, and the older `countdown.rs` functions. Both answer filter, sort and limit queries.

**The per-user rock counter.**

**The pure helpers:**
- the weather icon to emoji table, the choice of Nominatim place, and the emoji of a weather answer;
- the `[...]` card-name extraction and sub-command dispatch of the `mtg` command;
- the stdout/stderr fallback of the code sandbox.

## How the model works

Every store operation is a pure function. It takes the tables as values and returns the answer together with the tables afterwards. The tables are `seq`s of row datatypes, and `map<int, int>` for rocks, keyed by user (see "Left out" for the key this assumes).

**The clock.** `now` (seconds since the epoch) is a parameter.

**Scryfall.** Scryfall is an oracle datatype `Client`. It says what `card_random`, `card_named` and `card_autocomplete` answer. Every request the code would send is recorded in a call log, so "no remote call" is a statable fact.

**Database failures.** The statements that fail during a call are passed in as a set. In the sqlx version they are `Stmt`. In the diesel version they are `LegacyStmt`.

**What the model takes from SQLite** (module `Sql`):
- A new row's id is one more than the largest id, or 1 for an empty table.
- A negative `LIMIT` means no limit.
- Rust's `as i32` keeps the low 32 bits.

**Invariants and lemmas.**
- `CardStore.Valid` is the sqlx store's invariant: one row per name, a unique primary key, and no dangling lookup.
- `search` and `random` preserve it.
- A second search within 30 days is served from the index (`CardStore.SearchConverges`).
- In the diesel version the index never expires (`Gateway.SearchConverges`).

### Behaviour worth knowing

The code behaves as follows, and the model does the same.

**New `search`:**
- It has no empty-term guard. `search("")` asks Scryfall for the empty name on an index miss.
- A failing purge aborts the query, and no select runs.
- A failing index write after a remote hit is returned as an error, although the card row has already been committed.
- The index insert is `INSERT OR IGNORE`. It never refreshes `last_updated`, and whether it collides depends on a uniqueness constraint that is not visible in the code. The conflict key is therefore a parameter (`CardLookup.ConflictKey`).
- The purge bound is inclusive (`last_updated <= now - 30 days`). An entry exactly 30 days old is gone.
- An index hit still writes to `card_lookups`, because the purge runs on every read.

**`RemoteCardGateway`:**
- `get_by_name` never fails. Every client error reads as "no such card".

**`get_or_insert`:**
- It reads the new row back after the commit. A failure of that read returns an error even though the row persists.

**Diesel `ScryfallGateway::search`:**
- It has no empty-term guard before the remote call.
- It swallows every database error. A failing read by name therefore looks like a miss. When `cards.name` carries no UNIQUE constraint, which the code does not show, the insert that follows can add a second row with the same name (`Gateway.SearchDuplicatesOnFailedRead`). With such a constraint that insert fails instead, which the model expresses as a failing `CardInsert`, and the search returns nothing.

## Model

| member | source | states |
|---|---|---|
| CardTypes.ImageOf | src/models/cards/mod.rs:40-46 | The stored image is present exactly when upstream has image URIs, and it is then the border crop. |
| CardTypes.RawFromScryfall | src/models/cards/mod.rs:32-48 | `RawCard::from` copies name, type line, mana cost, oracle text and flavor text verbatim. The image is the border crop exactly when `image_uris` is present. |
| CardTypes.NextId | src/models/cards/local.rs:52-66 | The rowid of a new card is larger than every id in the table. |
| CardTypes.FindByName | src/models/cards/local.rs:36-46 | The select by name finds a row iff some row has that name, and what it finds has that name. |
| CardTypes.FindById | src/models/cards/local.rs:16-25 | The select by id finds a row iff some row has that id, and what it finds has that id. |
| CardTypes.AppendFreshKeepsUnique | src/models/cards/local.rs:52-66 | Appending a row with a new name under an id larger than all others keeps names and ids unique. |
| CardTypes.FindByNameUnique | src/models/cards/local.rs:36-49 | With one row per name, the lookup by a row's name returns that very row. |
| CardTypes.FindByIdUnique | src/models/cards/local.rs:16-25 | With a unique primary key, the lookup by a row's id returns that very row. |
| CardTypes.JoinFirst | src/models/cards/lookup.rs:68-79 | The inner join returns only a card of the table that some entry for exactly this term points at. It is empty iff no entry for the term points at an existing card. |
| CardTypes.JoinFirstSingle | src/models/cards/lookup.rs:71-75 | If every entry for the term that joins a card points at card `c`, the join returns `c`. |
| LocalStorage.Get | src/models/cards/local.rs:15-28 | `get(id)` is the row with that id. It is `CardNotFound` when there is none, and an error when the select fails. |
| LocalStorage.GetOrInsert | src/models/cards/local.rs:31-71 | An existing row with the name is returned and the table is untouched. Otherwise exactly one row is appended: the candidate under a fresh id. Failures before the commit leave the table unchanged. After the commit the read-back can still fail. |
| LocalStorage.GetOrInsertAppendOnly | src/models/cards/local.rs:31-71 | Existing rows are never changed or deleted, and a call adds at most one row. |
| LocalStorage.GetOrInsertPreservesUniqueness | src/models/cards/local.rs:35-67 | `get_or_insert` keeps at most one row per name and unique ids. |
| LocalStorage.GetOrInsertNameOwner | src/models/cards/local.rs:35-70 | After a successful call, the lookup by the candidate's name returns exactly the card returned. |
| LocalStorage.GetOrInsertIdempotent | src/models/cards/local.rs:35-49 | A second call with a candidate of the same name adds no row and returns the same card, whatever the candidate's other fields. |
| CardLookup.Insert | src/models/cards/lookup.rs:35-50 | The entry `(term, card, now)` is appended iff the insert runs and nothing conflicts. Otherwise the index is unchanged. An existing entry, including its `last_updated`, is never altered. |
| CardLookup.Purged | src/models/cards/lookup.rs:53-58 | Exactly the entries with `last_updated <= now - 30 days` are removed. The boundary is inclusive, and all other entries are kept. |
| CardLookup.PurgedAppend | src/models/cards/lookup.rs:53-58 | Purging a table split in two is purging each part. |
| CardLookup.PurgedIdempotent | src/models/cards/lookup.rs:53-58 | A second purge at the same time removes nothing. |
| CardLookup.Clear | src/models/cards/lookup.rs:53-63 | `clear` removes exactly the stale entries, or fails and removes nothing. On success the table is the purged table: every fresh row stays, as often as it was there and in the same order. |
| CardLookup.ClearIdempotent | src/models/cards/lookup.rs:53-63 | After one successful clear, another at the same time leaves the index as it is. |
| CardLookup.Query | src/models/cards/lookup.rs:65-82 | The purge runs first, and its failure aborts the query with the index unchanged. A hit is a card of the table that a surviving entry for exactly this term points at. A miss means no surviving entry for the term points at an existing card. `cards` is never changed. |
| CardLookup.QueryStaleTermMisses | src/models/cards/lookup.rs:53-68 | A term whose entries are all 30 days old or older is a miss. |
| CardLookup.QueryIgnoresDanglingEntries | src/models/cards/lookup.rs:71-75 | Entries whose card is missing never produce a hit. |
| RemoteGateway.Random | src/models/cards/remote.rs:17-23 | A client failure is an error. A card is converted by `RawCard::from`. There is exactly one request. |
| RemoteGateway.Suggestions | src/models/cards/remote.rs:26-36 | The empty query gives `Ok([])` with no request. Otherwise the client's list comes back unchanged, or an error on client failure. |
| RemoteGateway.GetByName | src/models/cards/remote.rs:39-47 | The result is never an error. It is a card iff the client answers one, and every client failure becomes `None`. |
| CardStore.Random | src/models/cards/mod.rs:67-70 | The result is `get_or_insert` of the converted random card, or the remote error with nothing written. The lookup index is untouched. |
| CardStore.Suggestions | src/models/cards/mod.rs:73-75 | A passthrough to the remote gateway. Neither table changes. |
| CardStore.Search | src/models/cards/mod.rs:77-96 | The cards table only grows, by at most one row, and only after a remote call. A found card is a row of the table, and a remotely found card carries the upstream name. A failing purge aborts with nothing changed. The index otherwise keeps its purged entries and gains at most one, for this term at `now`. |
| CardStore.SearchIndexHit | src/models/cards/mod.rs:78-80 | An index hit returns that card with no remote call and no change to `cards`. The only write is the purge. |
| CardStore.SearchRemoteMiss | src/models/cards/mod.rs:82-91 | An index miss with no upstream card gives `Ok(None)`. `cards` is unchanged and the index is only purged. |
| CardStore.SearchRemoteHit | src/models/cards/mod.rs:83-88 | An index miss with an upstream card returns `get_or_insert` of it. An error comes from `get_or_insert` or from the index insert, even after the card was stored. |
| CardStore.SearchFailures | src/models/cards/mod.rs:78-87 | A failing index select is an error with no remote call. No card is returned when the transaction or the index insert fails. |
| CardStore.SearchEmptyTermReachesRemote | src/models/cards/mod.rs:77-83 | `search("")` on an index miss asks Scryfall for the empty name. |
| CardStore.SearchBackfill | src/models/cards/mod.rs:85-88 | After a successful remote search on a valid store, the index is the purged entries followed by `(query, card.id, now)`. |
| CardStore.SearchPreservesValid | src/models/cards/mod.rs:77-92 | `search` preserves one row per name, unique ids and no dangling lookup. |
| CardStore.RandomPreservesValid | src/models/cards/mod.rs:67-70 | `random` preserves the same invariant. |
| CardStore.SearchConverges | src/models/cards/mod.rs:77-88 | After a remote-path search for `q`, another search for `q` less than 30 days later returns the same card with no remote call. This holds whatever the client answers, when its purge and select succeed. |
| CardStore.RandomConverges | src/models/cards/mod.rs:67-70 | Two random draws of cards with the same name leave one row and return the same card. |
| LegacyCards.CardFromScryfall | src/models/card.rs:18-36 | `Card::from` sets id 0 and agrees field by field with `RawCard::from`. |
| LegacyCards.Newest | src/models/card.rs:65 | `order(id.desc()).first()` is a row with the largest id, and is absent only for an empty table. |
| LegacyCards.InsertNewCard | src/models/card.rs:50-70 | The result is the highest-id row iff the insert reported one row and nothing failed. That row is then the candidate under a fresh id. Otherwise the result is `None` and the table is unchanged. |
| LegacyCards.GetCard | src/models/card.rs:73-85 | `get_card("")` and a failing select give `None`. Otherwise a card is found iff a row has exactly that name. |
| LegacyCards.InsertCardLookup | src/models/card_lookup.rs:30-49 | The result is `true` iff the insert succeeded. It then stored `(term, card, now as i32)`, and the stamp lies in the i32 range. |
| LegacyCards.SearchCardLookups | src/models/card_lookup.rs:52-72 | The empty term and DB errors give `None`. Otherwise the card of an entry for exactly this term, absent iff no such entry joins a card. |
| LegacyCards.SearchCardLookupsNeverExpires | src/models/card_lookup.rs:62-71 | An entry whose card exists is a hit however old it is. |
| Gateway.GetCardFromQuery | src/gateway.rs:38-57 | The empty query and DB errors give `None`. A hit is a card an entry for the term points at. A miss means no entry for it joins. |
| Gateway.InsertQuery | src/gateway.rs:59-75 | The result is `true` iff the insert succeeded. It then appended `(query, card.id, now as i32)`, and `cards` is untouched. |
| Gateway.CachedCard | src/gateway.rs:77-91 | The empty name and DB errors give `None`. Otherwise a card is found iff a row has that name. |
| Gateway.CacheCard | src/gateway.rs:93-110 | The result is `Some` iff the insert reported one row and nothing failed. The card is then the appended newest row. Otherwise the store is unchanged. |
| Gateway.Random | src/gateway.rs:126-134 | The upstream random card with id 0, or `None` on client error. Nothing is persisted. |
| Gateway.Suggestions | src/gateway.rs:136-148 | `[]` for the empty query (with no request) and for a client error. Otherwise the upstream list, which is `[]` when upstream sends an empty one. |
| Gateway.NewCardFrom | src/gateway.rs:165-178 | The `NewCard` built in `search` equals `Card::from` without its id. |
| Gateway.Search | src/gateway.rs:150-195 | A cache hit makes no call and no write. Both tables only grow, by at most one row each. A remote error gives `None` with nothing written. `None` never writes a lookup. A found card carries the upstream name. |
| Gateway.SearchCachedHit | src/gateway.rs:151-154 | An index hit is returned with no remote request and no write. |
| Gateway.SearchReusesExistingCard | src/gateway.rs:160-163 | On a remote hit whose name is stored, that row is returned and no card is inserted. |
| Gateway.SearchInsertsNewCard | src/gateway.rs:163-184 | On a remote hit with an unknown name, the card is inserted under a fresh id. The search yields it iff the insert succeeds, and otherwise writes nothing. |
| Gateway.SearchIgnoresLookupWrite | src/gateway.rs:188-191 | The result is the same whether or not the lookup write fails. |
| Gateway.SearchDuplicatesOnFailedRead | src/gateway.rs:161-180 | Because a failing read by name looks like a miss, a remote hit can append a second row with an existing name, provided `cards.name` has no UNIQUE constraint (the insert then succeeds). |
| Gateway.SearchPreservesUniqueness | src/gateway.rs:160-181 | When reads by name succeed and names are non-empty, `search` keeps one row per name and unique ids. |
| Gateway.SearchRemoteShape | src/gateway.rs:150-191 | After a successful remote search, no entry for the term joined before. The index gains `(query, id, now as i32)`, and the card is either already stored or the new last row. |
| Gateway.SearchConverges | src/gateway.rs:150-191 | After a remote search for a non-empty term whose lookup read and write succeeded, any later search for it returns the same card from the index, at any time, with no remote call. |
| Sql.MaxKey | src/models/card.rs:65 | The largest key is at least every key and is attained. It is 0 for an empty table. |
| Sql.NextKey | src/models/cards/local.rs:52-66 | The rowid of a new row exceeds every existing one and is 1 in an empty table. |
| Sql.Limit | src/models/countdowns.rs:69 | A negative `LIMIT` keeps everything. Otherwise the first `min(n, len)` rows, as a prefix. |
| Sql.AsI32 | src/models/countdown.rs:68 | `as i32` lands in the i32 range and is congruent to its input modulo 2^32. It is the identity on i32 values. |
| Sorting.SortedByMajor | src/models/countdowns.rs:68 | In a list sorted by the two-part key, the first key part never decreases. |
| Sorting.InsertByKey | src/models/countdowns.rs:68 | Inserting into a key-sorted list keeps it sorted and grows it by one, adding nothing but the element. |
| Sorting.InsertByKeyPermutes | src/models/countdowns.rs:68 | Insertion adds exactly the element and loses nothing, as multisets. |
| Sorting.SortByKey | src/models/countdowns.rs:68 | `ORDER BY` yields a key-sorted permutation of its input. |
| Sorting.PrefixHoldsSmallest | src/models/countdowns.rs:68-69 | A prefix of a sorted list holds elements no larger than any element cut off. |
| Sorting.LimitKeepsSmallest | src/models/countdowns.rs:68-69 | `LIMIT` over sorted rows keeps them sorted, keeps only given rows, and every row cut off comes after every row kept. |
| Sorting.SortAndLimit | src/models/countdowns.rs:68-69 | `ORDER BY ... LIMIT` gives sorted rows drawn from the input, of length `min(limit, len)`. It is all of them when not cut, and every row cut off comes after every row kept. |
| Countdowns.Insert | src/models/countdowns.rs:37-50 | A failing insert is an error with nothing changed. Otherwise exactly one row is appended: active, with the given end and guild, and a fresh id. |
| Countdowns.Matching | src/models/countdowns.rs:65-67 | Exactly the active rows of the guild with `end >= timestamp` (inclusive). |
| Countdowns.GetAfter | src/models/countdowns.rs:54-78 | The result holds only qualifying rows, sorted by `(end, id)`. Its length is `min(limit, qualifying)`, or all qualifying rows for a negative limit. Every qualifying row left out comes after every row returned. A failure is an error. |
| Countdowns.GetFirstAfter | src/models/countdowns.rs:80-88 | The result is `None` iff no row qualifies. Otherwise it is a qualifying row that is minimal in `(end, id)`. |
| Countdowns.GetAfterIgnoresOtherGuilds | src/models/countdowns.rs:54-78 | Inserting a countdown for another guild never changes a guild's query. |
| Countdowns.MatchingAppendNonQualifying | src/models/countdowns.rs:65-67 | Appending a row that fails the `WHERE` clause leaves the matching rows unchanged. |
| CountdownLegacy.InsertCountdown | src/models/countdown.rs:36-49 | The result is `true` iff the insert succeeded. It then appended one active row ending at `timestamp` under a fresh id. Otherwise nothing changed. |
| CountdownLegacy.Matching | src/models/countdown.rs:71-72 | Exactly the active rows with `end >= timestamp`. |
| CountdownLegacy.Query | src/models/countdown.rs:70-75 | Only qualifying rows, in `end` order. The length is `min(limit, qualifying)`, and every qualifying row left out ends no earlier than every row returned. |
| CountdownLegacy.GetCountdowns | src/models/countdown.rs:60-82 | The at most `limit` countdowns that trigger after `now` cut to i32: every row returned is active and ends at or after that instant, in `end` order. There are `min(limit, qualifying)` of them, and every qualifying row left out ends no earlier than every row returned. An instant inside the i32 range is queried unchanged. |
| CountdownLegacy.QueryOfOne | src/models/countdown.rs:52-57 | A query with limit 1 returns at most one row. It is empty iff nothing qualifies, and otherwise holds a qualifying row with the earliest end. |
| CountdownLegacy.GetFirstCountdown | src/models/countdown.rs:52-57 | The popped result of `get_countdowns(1)` is `None` iff nothing qualifies. Otherwise it is a qualifying row with the earliest end. |
| CountdownLegacy.TimestampWrapsPastI32 | src/models/countdown.rs:67-68 | One second past the i32 range wraps to the most negative instant, so every active row qualifies again. |
| Rocks.Increment | src/models/rocks.rs:19-52 | The result is one more than the stored count, with an absent user counting 0, so a first increment is 1. The stored count becomes the returned value and no other user changes. Any failing statement is an error with the table unchanged. |
| Rocks.IncrementTimesCount | src/models/rocks.rs:19-52 | `n` increments raise the user's count by exactly `n`, so a fresh user stands at `n`. Nobody else's count moves. |
| Rocks.IncrementCommutes | src/models/rocks.rs:40-44 | Increments of two different users commute. |
| Weather.EmojiForIconAsWritten | src/models/weather.rs:115-127 | As written: every icon except the fog codes maps to the corrected table's emoji. `50d`/`50n` map to `:fog`, which is not a shortcode. |
| Weather.EmojiForIcon | src/models/weather.rs:115-127 | Corrected table: every known icon maps to a Discord shortcode, the one whose icon set contains it. |
| Weather.FogIsNotAShortcode | src/models/weather.rs:124 | `50d` gives `:fog`, which is not a shortcode. The corrected table gives `:fog:`, which is. |
| Weather.IconsForInverts | src/models/weather.rs:116-124 | The table read backwards is exact: an icon belongs to an emoji's icons iff the table maps it there. |
| Weather.DayAndNightAgree | src/models/weather.rs:120-124 | For codes 03, 04, 09, 10, 11, 13 and 50, the day and night icons share an emoji. |
| Weather.SelectPlace | src/models/weather.rs:74-77 | The result is `None` iff the answer is empty. Otherwise it is `(display_name, lat, lon)` of an element, and of the only element when there is one. |
| Weather.WeatherEmoji | src/models/weather.rs:164-165 | The emoji of a non-empty weather list is looked up from the icon of element 0 in the table as written. Every icon but fog gets a shortcode whose icons include it. Fog gets `:fog`, which is not a shortcode. |
| Weather.WeatherEmojiCorrected | src/models/weather.rs:164-165 | With the fog entry corrected, every known icon of element 0 gets a shortcode whose icons include it. |
| Weather.MistShowsText | src/models/weather.rs:164-165 | A misty answer (icon `50d`) gets `:fog` as written, and `:fog:` once corrected. |
| MtgCommand.NextStop | src/commands/mtg.rs:21 | The lazy `.*?` stops at a `]` or newline, or at the end of the text. |
| MtgCommand.NextStopIsFirst | src/commands/mtg.rs:21 | No `]` or newline comes before that stop. |
| MtgCommand.MatchEnd | src/commands/mtg.rs:21 | A match ends at a `]` after its `[`. |
| MtgCommand.Content | src/commands/mtg.rs:21 | A capture has no `]` and no newline, and sits in the text between the `[` and the closing `]`. |
| MtgCommand.Starts | src/commands/mtg.rs:30 | `captures_iter` finds only real matches, all at or after where the search starts. |
| MtgCommand.StartsEmpty | src/commands/mtg.rs:28-32 | The search finds nothing iff the text has no match from that point on. |
| MtgCommand.StartsDoNotOverlap | src/commands/mtg.rs:28-32 | Each match found starts after the `]` of the one before, so matches do not overlap. |
| MtgCommand.StartsAreConsecutive | src/commands/mtg.rs:28-32 | No match starts between the end of one match found and the start of the next. |
| MtgCommand.StartsSkipNothingBefore | src/commands/mtg.rs:28-32 | No match starts before the first one found. |
| MtgCommand.StartsSkipNothingAfter | src/commands/mtg.rs:28-32 | No match starts after the `]` of the last one found. |
| MtgCommand.Captures | src/commands/mtg.rs:28-32 | There are no captures iff the expression never matches. No capture contains `]` or a newline. |
| MtgCommand.Terms | src/commands/mtg.rs:27-35 | The term list is never empty, so the invalid-command branch cannot be reached. It is exactly `[input]` iff the expression does not match. |
| MtgCommand.TermsComeFromBrackets | src/commands/mtg.rs:28-32 | When the expression matches, there is one term per match found, and the `k`-th term is the content of the `k`-th match, free of `]` and newlines. |
| MtgCommand.TwoNamesStarts | src/commands/mtg.rs:28-32 | In `[a] [b]` the search finds the brackets at 0 and 4, and nothing in between. |
| MtgCommand.TwoNames | src/commands/mtg.rs:28-32 | `[a] [b]` yields `a` and `b`, in order, and the space between them is dropped. |
| MtgCommand.NewlineBreaksBracket | src/commands/mtg.rs:21-35 | A bracket closed only after a newline does not match, so the whole input is the term. |
| MtgCommand.Rest | src/commands/mtg.rs:24 | The remaining text starts with the first remaining word and continues, after one space, with the rest of the words. Its length is the words' total length plus one space between each pair. |
| MtgCommand.Dispatch | src/commands/mtg.rs:108-131 | No words gives help. `set` consumes its keyword. `card` consumes its keyword and searches the rest. Anything else searches the whole message, with at least one term. |
| MtgCommand.BareCardSearchesEmptyName | src/commands/mtg.rs:115-118 | `card` alone searches for the empty name. |
| Sandbox.TrimEnd | src/models/sandboxes/mod.rs:5 | `trim_end` is the prefix that is empty or ends in a non-whitespace character, with only whitespace after it. |
| Sandbox.TrimEndUnique | src/models/sandboxes/mod.rs:5 | Those properties determine the trimmed text uniquely. |
| Sandbox.TrimEndIdempotent | src/models/sandboxes/mod.rs:5 | Trimming twice is trimming once. |
| Sandbox.TrimEndEmpty | src/models/sandboxes/mod.rs:7 | Trimming leaves nothing iff the text is all whitespace. |
| Sandbox.FormatOutput | src/models/sandboxes/mod.rs:4-12 | The result is trimmed stdout when that is non-empty, else trimmed stderr. It never ends in whitespace. It is empty iff both streams are whitespace only. |

## Findings

| source | as written | input that shows it | evidently intended | confidence | as-written member | corrected member |
|---|---|---|---|---|---|---|
| src/models/weather.rs:124 | the fog icons map to `:fog`, without the closing colon, so Discord shows the text instead of an emoji | icon `50d` (or `50n`) | `:fog:`, like every other entry of the table | high, not executed | Weather.EmojiForIconAsWritten, Weather.FogIsNotAShortcode, Weather.WeatherEmoji, Weather.MistShowsText | Weather.EmojiForIcon, Weather.WeatherEmojiCorrected |

`Weather.WeatherEmoji` models `get` with the table as written. `Weather.WeatherEmojiCorrected` is the same lookup over the corrected table.

## Left out

**I/O and runtime plumbing:**
- Scryfall, Nominatim, OpenWeatherMap, dog.ceo and cataas HTTP clients: network I/O through libraries outside the repository. Scryfall is an abstract oracle (`RemoteGateway.Client`). The Nominatim and OpenWeatherMap answers are plain values.
- The governor rate limiter and `make_client`: runtime plumbing.
- Mutexes, read-write locks, sqlx pool locking and async suspension: each database call and transaction is one atomic step.
- `Utc::now()`: the clock is the parameter `now`.
- CardStore.Search: one `now` is used for both the purge and the index insert, while the source reads the clock separately in `clear` and in `insert`.
- Floating-point code (`c_to_f`, the Gaussian CDF): not part of this model.
- `as_pretty_string` in both countdown files: formatting done by chrono_humanize.
- Discord/serenity wiring: command handlers, webhooks, embeds, replies, help, quit, the countdown command and the owner checks are UI and I/O.
- The rest of `mtg_card`, after term extraction (per-term Scryfall requests, webhook choice, embeds): Discord I/O.
- The Docker code sandbox, and the copies of the stdout/stderr fallback in `rust.rs` and `python.rs`: external processes. `Sandbox.FormatOutput` is the single model of that fallback.
- `schema.rs` and `models.rs`: declarations. They only give the row datatypes their shape.

**Panics, modelled as preconditions or left out:**
- CountdownLegacy.GetCountdowns: only the success path is modelled, because a failing query panics.
- Weather.EmojiForIcon: an unknown icon panics, so the icon is required to be known.
- Weather.WeatherEmoji: an empty weather list panics (`weather[0]`), and so does an unknown icon, so a non-empty list with a known icon is required.

**Contracts deliberately weaker than the source, or choices where the source is silent:**
- CardTypes.JoinFirst: the join returns the first matching entry in table order. SQLite does not fix which joined row `fetch_optional`/`first` sees, so this is one admissible choice.
- CountdownLegacy.Query: equal `end` values come out in id order, one of the orders SQLite may choose. The contract promises only `end` order.
- CardLookup.Insert: which insert collides depends on a uniqueness constraint not visible in the code, so the conflict key is a parameter.
- LegacyCards.InsertNewCard: the row count diesel reports is a parameter (`InsertReport`). It is not derived from the database.
- Sql.NextKey: SQLite's fallback when the largest rowid is already 2^63-1 (a random unused rowid) is not modelled.
- Rocks.Increment: the table is a map from user to count, which assumes `rocks.user_id` is a primary or unique key. The schema is not visible in the code. Only under such a key does `INSERT OR REPLACE` replace the count; without one, every increment would append a row, and the select by user would keep reading one of them.
- Rocks.Increment: counts are unbounded integers. The i64 overflow of `count += 1`, which panics in debug builds, is not modelled.
- Card and countdown ids are unbounded integers. The i64 and i32 widths of the id columns are not modelled.
- MtgCommand.Rest: `args.rest()` is modelled as the remaining words joined by single spaces, so the message's exact whitespace is not kept.
