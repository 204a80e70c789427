/** `RemoteCardGateway` (src/models/cards/remote.rs) over an abstract Scryfall
    client. The client is a value saying what each endpoint answers; every
    endpoint the gateway contacts is recorded in the reply's call log. */
module RemoteGateway {
  import opened Wrappers
  import opened CardTypes

  /** What one Scryfall endpoint answers: a value, or a transport/protocol
      error (not-found included, as `dcc_scryfall` reports it). */
  datatype ClientResult<T> = ClientOk(value: T) | ClientErr

  /** The Scryfall client as an oracle: `card_random`, `card_named(true, _)`
      and `card_autocomplete(_)`. */
  datatype Client = Client(
    random: ClientResult<ScryfallCard>,
    named: string -> ClientResult<ScryfallCard>,
    autocomplete: string -> ClientResult<seq<string>>)

  /** A request sent to Scryfall. */
  datatype Call = RandomCall | NamedCall(name: string) | AutocompleteCall(query: string)

  /** An answer together with the requests sent to produce it. */
  datatype Reply<T> = Reply(result: T, calls: seq<Call>)

  /** `RemoteCardGateway::random`: a client failure becomes an error, a card is
      converted with `RawCard::from`. */
  function Random(client: Client): (r: Reply<Result<RawCard, Error>>)
    ensures r.calls == [RandomCall]
    ensures r.result.Ok? <==> client.random.ClientOk?
    ensures r.result.Ok? ==> r.result.value == RawFromScryfall(client.random.value)
    ensures r.result.Err? ==> r.result.error == RemoteFailure
  {
    match client.random
    case ClientOk(c) => Reply(Ok(RawFromScryfall(c)), [RandomCall])
    case ClientErr => Reply(Err(RemoteFailure), [RandomCall])
  }

  /** `RemoteCardGateway::suggestions`: the empty query is answered locally
      with no suggestions; any other query is forwarded, and its list is
      returned unchanged. */
  function Suggestions(client: Client, query: string): (r: Reply<Result<seq<string>, Error>>)
    ensures query == "" ==> r == Reply(Ok([]), [])
    ensures query != "" ==> r.calls == [AutocompleteCall(query)]
    ensures query != "" ==> (r.result.Ok? <==> client.autocomplete(query).ClientOk?)
    ensures query != "" && r.result.Ok? ==> r.result.value == client.autocomplete(query).value
  {
    if query == "" then Reply(Ok([]), [])
    else
      match client.autocomplete(query)
      case ClientOk(names) => Reply(Ok(names), [AutocompleteCall(query)])
      case ClientErr => Reply(Err(RemoteFailure), [AutocompleteCall(query)])
  }

  /** `RemoteCardGateway::get_by_name`: never an error; every client failure
      reads as "no such card". */
  function GetByName(client: Client, name: string): (r: Reply<Result<Option<RawCard>, Error>>)
    ensures r.calls == [NamedCall(name)]
    ensures r.result.Ok?
    ensures r.result.value.Some? <==> client.named(name).ClientOk?
    ensures r.result.value.Some? ==> r.result.value.value == RawFromScryfall(client.named(name).value)
  {
    match client.named(name)
    case ClientOk(c) => Reply(Ok(Some(RawFromScryfall(c))), [NamedCall(name)])
    case ClientErr => Reply(Ok(None), [NamedCall(name)])
  }
}
