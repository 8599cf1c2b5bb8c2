/** The market-results path through query_markets_gateway: the request is
    built into the payload buffer, wrapped in the envelope, posted through the
    chunk read callback, and the response is handed event by event to the
    extractor. The transport and the tokenizer are parameters: the sizes of
    the pulls the transport makes and the events the tokenizer reports. */
module Gateway {
  import opened CText
  import opened Requests
  import opened Transfer
  import opened MarketResults

  method QueryMarketResults(parser: MarketResultsParser, startOfDay: int, day: CStr,
                            pulls: seq<nat>, events: seq<Event>) returns (sent: seq<Char>)
    requires parser.Valid()
    requires forall i | 0 <= i < |events| :: EventFits(events[i])
    modifies parser, parser.buffer, parser.buffer.data
    ensures sent == Flatten(DrainPieces(RequestBody(day), pulls))
    ensures |RequestBody(day)| <= Sum(pulls) ==> sent == RequestBody(day)
    ensures |day| <= DayLength && |RequestBody(day)| <= Sum(pulls) ==> DayOf(sent) == Some(day)
    ensures parser.Valid()
    ensures parser.State() == Run(old(parser.State()).(startOfDay := startOfDay), events)
  {
    var query := parser.BeginQuery(startOfDay, day, MaxQueryRequestSize);
    var body := Envelope(query);
    var postFieldSize;
    sent, postFieldSize := PostBody(body, pulls);
    if |day| <= DayLength && |RequestBody(day)| <= Sum(pulls) {
      DayOfRequestBody(day);
    }
    parser.Parse(events);
  }
}
