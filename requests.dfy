/** The Markets Gateway request body: the QueryMarketResults payload for one
    day (market_results_request) wrapped in the SOAP 1.1 envelope
    (query_markets_gateway). Both are snprintf calls into fixed buffers, so
    each stage truncates to its buffer size minus one. The day is given as
    its "YYYY-MM-DD" text; computing it with strftime is not modelled. */
module Requests {
  import opened CText

  /** MAX_MARKETS_GATEWAY_QUERY_REQUEST_SIZE and MAX_MARKETS_GATEWAY_REQUEST_SIZE. */
  const MaxQueryRequestSize: nat := 2048
  const MaxRequestSize: nat := MaxQueryRequestSize + 512

  /** sizeof("YYYY-MM-DD") - 1: the longest text the day buffer holds. */
  const DayLength: nat := 10

  // The templates, in pieces short enough for the verifier to check byte by byte.
  const QueryOpen1: CStr := "<QueryMarketResults "
  const QueryOpen2: CStr := "type='Demand' day='"
  const QueryClose1: CStr := "'><All/>"
  const QueryClose2: CStr := "</QueryMarketResults>"
  const EnvelopeOpen1: CStr := "<Envelope xmlns='http://"
  const EnvelopeOpen2: CStr := "schemas.xmlsoap.org/soap/envelope/'>"
  const EnvelopeOpen3: CStr := "<Body><QueryRequest xmlns='"
  const EnvelopeOpen4: CStr := "http://emkt.pjm.com/emkt/xml'>"
  const EnvelopeClose1: CStr := "</QueryRequest>"
  const EnvelopeClose2: CStr := "</Body></Envelope>"

  const QueryOpen: CStr := QueryOpen1 + QueryOpen2
  const QueryClose: CStr := QueryClose1 + QueryClose2
  const EnvelopeOpen: CStr := EnvelopeOpen1 + EnvelopeOpen2 + EnvelopeOpen3 + EnvelopeOpen4
  const EnvelopeClose: CStr := EnvelopeClose1 + EnvelopeClose2

  lemma NoNulConcat(a: CStr, b: CStr)
    ensures NoNul(a + b)
  {
    forall i | 0 <= i < |a + b| ensures (a + b)[i] != NUL {
      if i < |a| { assert (a + b)[i] == a[i]; } else { assert (a + b)[i] == b[i - |a|]; }
    }
  }

  function Join3(a: CStr, b: CStr, c: CStr): CStr {
    NoNulConcat(a, b);
    NoNulConcat(a + b, c);
    a + b + c
  }

  /** market_results_request: the payload for one day, written into a buffer
      of `sizeOfRequestString` bytes. */
  function MarketResultsRequest(day: CStr, sizeOfRequestString: nat): (r: CStr)
    ensures |QueryOpen| + |day| + |QueryClose| < sizeOfRequestString ==> r == QueryOpen + day + QueryClose
    ensures sizeOfRequestString > 0 ==> |r| < sizeOfRequestString
    ensures r <= QueryOpen + day + QueryClose
  {
    Snprintf(Join3(QueryOpen, day, QueryClose), sizeOfRequestString)
  }

  /** The envelope snprintf of query_markets_gateway around a payload. */
  function Envelope(query: CStr): (r: CStr)
    ensures |r| < MaxRequestSize
    ensures r <= EnvelopeOpen + query + EnvelopeClose
  {
    Snprintf(Join3(EnvelopeOpen, query, EnvelopeClose), MaxRequestSize)
  }

  /** The body posted for one day. */
  function RequestBody(day: CStr): CStr {
    Envelope(MarketResultsRequest(day, MaxQueryRequestSize))
  }

  /** The envelope buffer is 512 bytes larger than the payload buffer, which
      is more than the envelope adds, so the outer snprintf never cuts. */
  lemma EnvelopeNeverTruncates(query: CStr)
    requires |query| < MaxQueryRequestSize
    ensures Envelope(query) == EnvelopeOpen + query + EnvelopeClose
  {
    assert |EnvelopeOpen| + |EnvelopeClose| == 150;
  }

  /** What comes before and after the day in a request body. */
  const BodyPrefix: CStr := Join3(EnvelopeOpen, QueryOpen, [])
  const BodySuffix: CStr := Join3(QueryClose, EnvelopeClose, [])

  /** For any day that fits the day buffer, the body is exactly the envelope
      around the payload around the day. */
  lemma RequestBodyExact(day: CStr)
    requires |day| <= DayLength
    ensures RequestBody(day) == EnvelopeOpen + QueryOpen + day + QueryClose + EnvelopeClose
    ensures RequestBody(day) == BodyPrefix + day + BodySuffix
  {
    assert |QueryOpen| + |QueryClose| == 68;
    var query := MarketResultsRequest(day, MaxQueryRequestSize);
    assert query == QueryOpen + day + QueryClose;
    EnvelopeNeverTruncates(query);
    Reassociate(EnvelopeOpen, QueryOpen, day, QueryClose, EnvelopeClose);
  }

  lemma Reassociate(a: seq<Char>, b: seq<Char>, x: seq<Char>, c: seq<Char>, d: seq<Char>)
    ensures a + (b + x + c) + d == a + b + x + c + d
    ensures a + b + x + c + d == (a + b + []) + x + (c + d + [])
  {
    assert a + b + [] == a + b;
    assert c + d + [] == c + d;
  }

  /** A day too long for the payload buffer loses the payload's tail,
      and the envelope still closes around what is left. */
  lemma LongDayTruncatesPayload(day: CStr)
    requires |QueryOpen| + |day| + |QueryClose| >= MaxQueryRequestSize
    ensures RequestBody(day)
         == EnvelopeOpen + (QueryOpen + day + QueryClose)[..MaxQueryRequestSize - 1] + EnvelopeClose
  {
    var query := MarketResultsRequest(day, MaxQueryRequestSize);
    assert |query| == MaxQueryRequestSize - 1;
    EnvelopeNeverTruncates(query);
  }

  /** The text between a given prefix and suffix, when it is a C string. */
  function Between(body: seq<Char>, prefix: seq<Char>, suffix: seq<Char>): (r: Option<CStr>)
    ensures r.Some? ==> |body| >= |prefix| + |suffix|
  {
    if |body| >= |prefix| + |suffix|
      && body[..|prefix|] == prefix
      && body[|body| - |suffix|..] == suffix
      && NoNul(body[|prefix|..|body| - |suffix|])
    then Some(body[|prefix|..|body| - |suffix|])
    else None
  }

  lemma BetweenOfWrap(prefix: seq<Char>, x: CStr, suffix: seq<Char>)
    ensures Between(prefix + x + suffix, prefix, suffix) == Some(x)
  {
    var body := prefix + x + suffix;
    assert body[..|prefix|] == prefix;
    assert body[|body| - |suffix|..] == suffix;
    assert body[|prefix|..|body| - |suffix|] == x;
  }

  lemma WrapOfBetween(body: seq<Char>, prefix: seq<Char>, suffix: seq<Char>, x: CStr)
    requires Between(body, prefix, suffix) == Some(x)
    ensures body == prefix + x + suffix
  {
    assert body == body[..|prefix|] + body[|prefix|..|body| - |suffix|] + body[|body| - |suffix|..];
  }

  /** Reading the day back out of a request body. */
  function DayOf(body: seq<Char>): Option<CStr> {
    Between(body, BodyPrefix, BodySuffix)
  }

  /** The day is recoverable from the body it produces ... */
  lemma DayOfRequestBody(day: CStr)
    requires |day| <= DayLength
    ensures DayOf(RequestBody(day)) == Some(day)
  {
    RequestBodyExact(day);
    BetweenOfWrap(BodyPrefix, day, BodySuffix);
  }

  /** ... and a body from which a short day reads back is that day's body. */
  lemma RequestBodyOfDayOf(body: seq<Char>, day: CStr)
    requires DayOf(body) == Some(day)
    requires |day| <= DayLength
    ensures RequestBody(day) == body
  {
    RequestBodyExact(day);
    WrapOfBetween(body, BodyPrefix, BodySuffix, day);
  }
}
