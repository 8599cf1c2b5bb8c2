# pjmcli core in Dafny

pjmcli is a command-line client for the PJM Markets Gateway web service,
written in C on top of libcurl (HTTP) and expat (XML). This project models
three cooperating pieces of its `main.c` and proves properties about them:

- **`struct chunk`** is the program's growable byte buffer. It has five
  operations: new, init from a C string, append with growth on demand,
  clear and free. Two libcurl callbacks sit on top of it: the read callback
  drains the buffer in pieces for a POST body, and the write callback
  accumulates a response. It is modelled as the class `Chunks.Chunk`,
  with its region as an `array?<Char>` (null before allocation and after
  free) and `read_marker` as an offset into that region (module `Chunks`).
  Module `Transfer` covers the drain loop and the accumulate loop that the
  transport drives.
- **The market-results extractor** is made of the three expat handlers
  (start, end and character data) that update the one
  `market_results_parser` record. Module `MarketResults` gives each handler
  call a pure meaning, `Step`, over an event sequence (`Open`, `Close`,
  `Text`). It also has the class `MarketResultsParser`, whose handler
  methods update the record in place and are proved to follow `Step`.
  Emission through `market_results_writer` is modelled as appending the
  current result to `written`.
- **The request body** is the `QueryMarketResults` payload for one day,
  wrapped in the SOAP envelope. Each stage is an `snprintf` into a fixed
  buffer, and the model truncates explicitly to the buffer size minus one
  (module `Requests`). Module `Gateway` composes the request, the POST body
  drain, and the hand-off of the response events to the extractor.

Module `CText` holds the C-level vocabulary:
- one-byte characters, and C strings as NUL-free sequences;
- what a C string function reads from a memory region (`CString`);
- `snprintf` truncation;
- `atoi`, as leading white space, an optional sign and the longest digit
  prefix.

The value of `atoi` is unbounded. C leaves an `int` overflow undefined, so
the hour handler states the range it needs.

`cleared_mw` is kept as the text that `atof` would read: the buffer
contents up to the first NUL. The float conversion is not modelled.

## Model

| member | source | states |
|---|---|---|
| CText.CString | main.c:369 | The string read from a region is a NUL-free prefix of it, and when it is shorter than the region it stops at a NUL |
| CText.CStringOfCStr | main.c:369 | A region holding a C string with no NUL reads back as that string |
| CText.CStringStopsAtNul | main.c:58-61 | Bytes after a NUL terminator never reach what a C string reader sees |
| CText.Snprintf | main.c:247-250 | snprintf keeps a prefix of the formatted text, of length min(formatted, size - 1), and nothing for size 0 |
| CText.SnprintfFits | main.c:432-440 | Text shorter than the buffer is kept whole |
| CText.SkipSpace | main.c:340 | atoi's first stage drops exactly a run of leading white space |
| CText.DigitPrefix | main.c:340 | atoi reads the longest prefix of decimal digits, stopping at the first non-digit |
| CText.Atoi | main.c:340 | No contract; defined as C atoi: drop leading white space, take one optional sign, then the value of the longest run of decimal digits, 0 when there are none; the value is an unbounded integer (its properties are the Atoi lemmas below) |
| CText.AtoiDecimal | main.c:340 | atoi of a decimal numeral followed by a non-digit is that number |
| CText.AtoiNegativeDecimal | main.c:340 | A leading minus sign negates the value atoi reads |
| CText.AtoiSkipsSpace | main.c:340 | Leading white space does not change what atoi reads |
| Chunks.ReadPiece | main.c:112-117 | One pull hands out the longest prefix of the pending bytes that fits the allowed size |
| Chunks.Chunk.Zeroed | main.c:21-27 | A chunk in zero-filled storage has no region, no cursor and no bytes |
| Chunks.Chunk.Realloc | main.c:49 | realloc as chunk_append and the write callback use it (main.c:86): a fresh region of the requested size that begins with as many of the old bytes as fit; size, length and the cursor are unchanged |
| Chunks.Chunk.New | main.c:29-34 | chunk_new allocates a one-byte region with size and length 0 |
| Chunks.Chunk.Init | main.c:36-42 | chunk_init gives size == length == strlen, and the region holds the string and its NUL |
| Chunks.Chunk.Append | main.c:44-62 | chunk_append grows only when the text exceeds size - length, and then by exactly that text's length; the valid bytes become the old ones followed by the text; the byte after them is a NUL |
| Chunks.Chunk.Clear | main.c:64-68 | chunk_clear zeroes the first size bytes, sets length to 0 and keeps the region and size |
| Chunks.Chunk.Free | main.c:70-78 | chunk_free resets the region, the cursor, size and length |
| Chunks.Chunk.WriteCallback | main.c:81-97 | The write callback stores size*nmemb bytes at offset size, grows size by that count, NUL-terminates and returns the count; what is stored is the old bytes followed by the new ones |
| Chunks.Chunk.ReadInit | main.c:99-102 | chunk_read_init points the cursor at the region's start, so everything valid is pending |
| Chunks.Chunk.ReadCallback | main.c:105-128 | The read callback copies min(length, size*nmemb) pending bytes, advances the cursor and decrements length by that count, and returns it; with nothing pending it returns 0 |
| Transfer.DrainPieces | main.c:105-128 | One piece is handed out per pull |
| Transfer.DrainReproduces | main.c:105-128 | For any pull sizes, the pieces handed out followed by what is still pending are exactly the original bytes |
| Transfer.DrainEmpties | main.c:105-128 | Pulls whose sizes add up to at least the byte count leave nothing pending |
| Transfer.DrainCompletes | main.c:105-128 | Such pulls hand out exactly the original bytes |
| Transfer.PositivePullsComplete | main.c:105-128 | As many non-empty pulls as there are bytes always hand out the whole body |
| Transfer.ExhaustedStaysEmpty | main.c:105-128 | Once nothing is pending, every further pull hands out nothing |
| Transfer.PostBody | main.c:194-225 | The POST size is strlen(body), and the bytes sent are the drain of the body by the transport's pulls; the whole body goes out when the pulls allow it |
| Transfer.ReceiveResponse | main.c:483-486 | A chunk made by chunk_new and fed through the write callback holds the concatenation of every delivered piece, and size is its length |
| Requests.MarketResultsRequest | main.c:241-251 | When the template around the day fits the buffer, the payload is exactly that text; for a non-empty buffer it is always shorter than the buffer; it is always a prefix of the full text |
| Requests.Envelope | main.c:432-440 | The envelope output is shorter than its buffer and a prefix of the envelope around the payload |
| Requests.EnvelopeNeverTruncates | main.c:389-390 | The envelope buffer exceeds the payload buffer by more than the envelope adds, so any payload is wrapped whole |
| Requests.RequestBody | main.c:430-440 | No contract; defined as the body that is posted at main.c:447: the payload for the day written into its 2048-byte buffer, then wrapped by the envelope snprintf into the 2560-byte buffer (its properties are RequestBodyExact, DayOfRequestBody and RequestBodyOfDayOf) |
| Requests.RequestBodyExact | main.c:432-440 | For a day of at most 10 bytes the body is exactly the envelope head, the payload head, the day, the payload tail and the envelope tail |
| Requests.LongDayTruncatesPayload | main.c:247-250 | An overlong day cuts the payload at 2047 bytes, and the envelope still closes around it |
| Requests.DayOfRequestBody | main.c:241-251 | The day can be read back out of the body it produces |
| Requests.RequestBodyOfDayOf | main.c:241-251 | A body from which a short day reads back is that day's body, so the day determines the body and back |
| MarketResults.LastValue | main.c:335-342 | The attribute loop leaves in effect the value of the last attribute with that name, and none when the name is absent |
| MarketResults.LocationCopy | main.c:348-353 | The stored location is a prefix of the value that fits the 32-byte field with its NUL; it is the whole value when that fits |
| MarketResults.HourTimestamp | main.c:340 | No contract; defined as the start of day plus atoi of the hour text times 3600 (HourFits states when that product stays inside a C int) |
| MarketResults.Step | main.c:357-386 | Text appends to the buffer; every close empties it; a ClearedMW close takes the buffered text as a C string; only a MarketResultsHourly close emits, and it emits the current result; a close other than ClearedMW leaves the result unchanged; the start of day never changes |
| MarketResults.OpenEffects | main.c:326-355 | MarketResults zeroes the result and sets the location from its last location attribute; MarketResultsHourly sets the timestamp to the start of day plus atoi(hour)*3600 from its last hour attribute; any other open changes nothing; no open touches the buffer or the output |
| MarketResults.Run | main.c:326-386 | No contract; defined as the tokenizer calling the handlers once per event, in order: Step applied to each event from first to last (its properties are RunAppend, RunSnoc and the lemmas below) |
| MarketResults.RunAppend | main.c:326-386 | Handling two event sequences in turn is handling their concatenation |
| MarketResults.RunSnoc | main.c:326-386 | One more event is one more handler call |
| MarketResults.EmitsOncePerHourlyClose | main.c:363-366 | Records are only appended, and exactly one per MarketResultsHourly close |
| MarketResults.EmitsCurrentResult | main.c:363-366 | The record emitted at a MarketResultsHourly close is the result under construction at that moment |
| MarketResults.TextSplitIrrelevant | main.c:375-386 | A run of character data split across several events is handled as if delivered whole |
| MarketResults.StepWithoutClose | main.c:375-386 | An open or text event only appends to the buffer |
| MarketResults.TextAccumulates | main.c:375-386 | Without a close, the buffer is its old contents followed by all the character data seen |
| MarketResults.ClearedMwIsTextSinceLastClose | main.c:367-370 | A ClearedMW close takes the character data delivered since the last close, as a C string |
| MarketResults.NoTextLeaksAcrossClose | main.c:372 | Text seen before one close never reaches a later ClearedMW |
| MarketResults.LocationsAlwaysFit | main.c:344-354 | Every location held or emitted fits the 32-byte field, whatever the events |
| MarketResults.HourFiveExample | main.c:340 | Hour "5" on a day starting at 1700000000 gives 1700018000 |
| MarketResults.OneRecordOpens | main.c:333-354 | A MarketResults open at a location that fits, then a MarketResultsHourly open, give a zero result at that location stamped with the start of day plus the hours |
| MarketResults.OneRecordValue | main.c:367-372 | A ClearedMW element holding one run of text sets the cleared value to that text and leaves the buffer empty |
| MarketResults.OneRecordCloses | main.c:363-372 | The hourly close then emits the current result, and the outer close emits nothing |
| MarketResults.OneRecordExample | main.c:326-386 | For any start of day, location that fits, hour and value, a document with one location, one hour and one value yields exactly one record carrying that value, timestamp and location |
| MarketResults.MissingClearedMwExample | main.c:357-373 | The first hourly block after its MarketResults open, with no ClearedMW child, is emitted with the zero cleared value |
| MarketResults.RepeatedHourlyBlock | main.c:333-366 | After an hourly close, an hourly block with no hour attribute and no children emits the same result again |
| MarketResults.StaleValueCarriesOver | main.c:333-354 | Only the MarketResults open zeroes the result, so a later hourly block with no hour and no ClearedMW repeats the previous block's timestamp and cleared value |
| MarketResults.LongLocationExample | main.c:348-353 | A 40-byte location is cut to its first 31 bytes |
| MarketResults.StrcpyInto | main.c:352 | The unchecked strcpy writes the value and its NUL from the field's start, past its end when the value is too long |
| MarketResults.StrcpyOverrunsLocation | main.c:352 | A 40-byte location makes that copy write 9 bytes past the 32-byte field |
| MarketResults.MarketResultsParser.constructor | main.c:234-239 | The global parse handle starts zero-filled, with no buffer region and a zero result |
| MarketResults.MarketResultsParser.AtofArgument | main.c:369 | No contract; defined as what the end handler hands atof: the buffer region read as a C string, or nothing when the region was never allocated and the pointer is NULL |
| MarketResults.MarketResultsParser.BeginQuery | main.c:253-312 | The day-request functions record the start of the day and write the payload for that day |
| MarketResults.HourAttributeLoop | main.c:335-342 | The loop over the attribute array of MarketResultsHourly ends in the state AfterHourlyOpen gives: the timestamp set from its last hour attribute, and nothing changed when there is none |
| MarketResults.LocationAttributeLoop | main.c:346-353 | The memset and the loop over the attribute array of MarketResults end in the state AfterMarketResultsOpen gives: a zero result, whose location is the LocationCopy of its last location attribute when there is one |
| MarketResults.MarketResultsParser.StartHandler | main.c:326-355 | The start handler leaves the record as Step says |
| MarketResults.MarketResultsParser.EndHandler | main.c:357-373 | The end handler emits or takes the buffered text, then clears the buffer, as Step says |
| MarketResults.MarketResultsParser.CharHandler | main.c:375-386 | The character handler allocates the buffer on first use and appends, as Step says |
| MarketResults.MarketResultsParser.Handle | main.c:326-386 | Each tokenizer callback follows Step |
| MarketResults.MarketResultsParser.Parse | main.c:326-386 | A sequence of callbacks leaves the record as Run says |
| MarketResults.EmptyClearedMwFirst | main.c:369 | On the fresh global record, an empty ClearedMW before any character data hands atof a NULL pointer |
| Gateway.QueryMarketResults | main.c:392-458 | The bytes posted are the drain of the request body for the day; when the pulls allow, they are the whole body and the day reads back from it; the record ends as Run says from the new start of day |

## Left out

- libcurl (`do_curl_common`, `do_curl_get`, the option setup in `do_curl_post`, the cookie and header setup in `query_markets_gateway` and `get_openam_session_token`) is network I/O inside a foreign library. It is replaced by its callbacks, and the transport's pull sizes and delivered pieces are parameters.
- The expat tokenizer (`XML_ParserCreate`, `XML_Parse`, `XML_ParserFree`) is a foreign XML library. Its output is taken as a sequence of events, so `Gateway.QueryMarketResults` takes the response's events as a parameter, unconnected to the bytes received.
- `xml_parse_write_callback` (main.c:132-142) is the program's own glue that forwards each received piece to the tokenizer. It casts the byte count to `int` and ignores the result of `XML_Parse`. It is left out together with the tokenizer it feeds.
- `time`, `localtime`, `mktime` and `strftime` in `market_results_request_yesterday`, `_today` and `_tomorrow` are calendar and time-zone behaviour of the C library. The start of the day and its "YYYY-MM-DD" text are inputs of `MarketResults.MarketResultsParser.BeginQuery`, which stands for all three functions.
- `market_results_writer` only formats a timestamp and prints under the debug flag. It is replaced by appending the result to `written`.
- `atof` and the float `cleared_mw` are floating-point numerics. The model keeps the text atof would read.
- The `index` field of `struct market_results_result` is never read by the core; it is only zeroed by the memset at main.c:346. It is not modelled.
- The `sscanf` extraction of the session token, `main`, environment-variable reading and the debug `printf` calls are not modelled.
- Allocation failure is not modelled. A `malloc` or `realloc` that returns NULL (the `data == NULL` branches of `chunk_append` and `chunk_write_callback`) cannot happen in the model.
- Heap garbage is not modelled. Bytes that `malloc` and `realloc` leave unspecified are whatever the model's fresh array holds. No contract depends on them.
- `Chunks.Chunk.WriteCallback`: `size * nmemb` and `size + bytes + 1` are unbounded here, so a `size_t` overflow is not modelled.
- `MarketResults.MarketResultsParser.StartHandler`: requires `atoi(hour) * 3600` to lie in the 32-bit `int` range, because C leaves that overflow undefined. The later addition to the `time_t` start of day is unbounded in the model.
- `MarketResults.Step` reads a `location` attribute as at most 31 bytes. This is the corrected behaviour; the copy as written is in Findings.
- Absent fields of a later hourly block are not reset to 0, because the code does not reset them. Only the `MarketResults` open zeroes the result (main.c:346); the `MarketResultsHourly` open only sets the timestamp when an hour attribute is present (main.c:333-342). An hourly block without an hour attribute or a ClearedMW child therefore repeats the previous block's timestamp or cleared value. The model follows the code; `MarketResults.StaleValueCarriesOver` states the carry-over.
- Queries after the first are not modelled separately. The global parse handle keeps its buffer region from one query to the next, and the model's record simply carries over.
- Handling the same events again from the same record gives the same record. This holds because `Run` is a function, so no lemma states it.

## Findings

| source | as written | input that shows it | evidently intended | confidence | as-written member | corrected member |
|---|---|---|---|---|---|---|
| main.c:352 | `strcpy` copies the `location` attribute into the 32-byte `location` field without a bound | a `MarketResults` element whose `location` attribute is 40 bytes long: 41 bytes are written, 9 past the field | store at most 31 bytes and the NUL | not executed | MarketResults.StrcpyOverrunsLocation | MarketResults.LocationsAlwaysFit |
| main.c:369 | `atof` is handed `buffer.data`, which is NULL until the character handler first runs | a first query whose response has no character data before an empty ClearedMW, e.g. `<MarketResults location='X'><MarketResultsHourly hour='1'><ClearedMW></ClearedMW>` with no white space between tags | read the missing text as empty, giving 0 | not executed | MarketResults.EmptyClearedMwFirst | MarketResults.MarketResultsParser.EndHandler |
