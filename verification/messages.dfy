/** The records that travel between a rental company (provider) and the
    aggregator: one offered car and the reply a provider sends to the "QTY"
    command. Prices are whole centavos; the providers only ever compare and
    copy them. */
module Messages {

  datatype Option<+T> = None | Some(value: T)

  /** One entry of a reply's car list: the projection `{nome, valor}` of an
      inventory car. */
  datatype Offer = Offer(name: string, price: int)

  /** The dictionary a provider sends in answer to "QTY":
      `{service_name, api_url, count, cars}`. Nothing forces `count` to agree
      with `cars`: the aggregator takes whatever arrives. */
  datatype Reply = Reply(serviceName: string, apiUrl: string, count: int, cars: seq<Offer>)

  /** The integrity the providers establish and the aggregator relies on
      without checking: the advertised count is the length of the list. */
  predicate Consistent(r: Reply) {
    r.count == |r.cars|
  }

  /** The command token the aggregator publishes and the providers answer. */
  const QueryCommand: string := "QTY"

  /** The acknowledgement token the aggregator sends back for every reply. */
  const AckToken: string := "ACK"
}
