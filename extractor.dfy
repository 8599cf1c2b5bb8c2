/** The market-results extractor: the three expat handlers of the program
    and the `market_results_parser` record they update. The XML tokenizer is
    not modelled; what it delivers is a sequence of events. Emission through
    market_results_writer is modelled as appending the current result to
    `written`. */
module MarketResults {
  import opened CText
  import opened Chunks
  import opened Requests

  /** sizeof(location) in `struct market_results_result`. */
  const LocationCapacity: nat := 32

  /** The range of a 32-bit C `int`, in which `atoi(hour) * 3600` is computed. */
  const IntMin: int := -0x8000_0000
  const IntMax: int := 0x7FFF_FFFF

  const SecondsPerHour: int := 3600

  const MarketResultsTag: CStr := "MarketResults"
  const MarketResultsHourlyTag: CStr := "MarketResultsHourly"
  const ClearedMwTag: CStr := "ClearedMW"
  const HourAttribute: CStr := "hour"
  const LocationAttribute: CStr := "location"

  datatype Attribute = Attribute(name: CStr, value: CStr)

  /** What the tokenizer reports: an element opening with its attributes in
      document order, an element closing, or a run of character data. */
  datatype Event =
    | Open(name: CStr, attributes: seq<Attribute>)
    | Close(name: CStr)
    | Text(chars: seq<Char>)

  /** `struct market_results_result`, with the cleared MW value kept as the
      text atof would read, and the location as its C string. */
  datatype HourlyResult = HourlyResult(clearedMw: CStr, timestamp: int, location: CStr)

  /** The memset-to-zero result: zero timestamp, empty strings (atof of
      the empty string is 0). */
  const ZeroResult: HourlyResult := HourlyResult([], 0, [])

  /** The abstract state of `market_results_parser` and the writer's output. */
  datatype Extraction = Extraction(
    text: seq<Char>,
    result: HourlyResult,
    startOfDay: int,
    written: seq<HourlyResult>)

  /** The value of the last attribute named `key`, which is the one the
      handlers' attribute loops leave in effect. */
  function LastValue(attributes: seq<Attribute>, key: CStr): (r: Option<CStr>)
    ensures r.None? <==> forall i | 0 <= i < |attributes| :: attributes[i].name != key
    ensures r.Some? ==> exists i | 0 <= i < |attributes| ::
      attributes[i] == Attribute(key, r.value) && forall j | i < j < |attributes| :: attributes[j].name != key
  {
    if attributes == [] then None
    else if attributes[|attributes| - 1].name == key then Some(attributes[|attributes| - 1].value)
    else LastValue(attributes[..|attributes| - 1], key)
  }

  /** The copy of a location value into the 32-byte field, bounded: a value
      that does not fit keeps its first 31 bytes, leaving room for the NUL. */
  function LocationCopy(value: CStr): (r: CStr)
    ensures |r| <= |value| && |r| < LocationCapacity
    ensures r == value[..|r|]
    ensures |value| < LocationCapacity ==> r == value
    ensures |value| >= LocationCapacity ==> |r| == LocationCapacity - 1
  {
    if |value| < LocationCapacity then value
    else
      var r := value[..LocationCapacity - 1];
      assert NoNul(r) by {
        forall i | 0 <= i < |r| ensures r[i] != NUL { assert r[i] == value[i]; }
      }
      r
  }

  /** The instant an hour attribute names: the start of the day plus that
      many hours. */
  function HourTimestamp(startOfDay: int, hour: CStr): int {
    startOfDay + Atoi(hour) * SecondsPerHour
  }

  /** atoi(hour) * 3600 stays inside a C int, so the C arithmetic is defined. */
  predicate HourFits(hour: CStr) {
    IntMin <= Atoi(hour) * SecondsPerHour <= IntMax
  }

  predicate HoursFit(attributes: seq<Attribute>) {
    forall i | 0 <= i < |attributes| :: attributes[i].name == HourAttribute ==> HourFits(attributes[i].value)
  }

  /** The only demand the handlers make of their events. */
  predicate EventFits(e: Event) {
    e.Open? && e.name == MarketResultsHourlyTag ==> HoursFit(e.attributes)
  }

  /** The result after `<MarketResultsHourly ...>`. */
  function AfterHourlyOpen(result: HourlyResult, startOfDay: int, attributes: seq<Attribute>): HourlyResult {
    match LastValue(attributes, HourAttribute)
    case None => result
    case Some(hour) => result.(timestamp := HourTimestamp(startOfDay, hour))
  }

  /** The result after `<MarketResults ...>`. */
  function AfterMarketResultsOpen(attributes: seq<Attribute>): HourlyResult {
    match LastValue(attributes, LocationAttribute)
    case None => ZeroResult
    case Some(location) => ZeroResult.(location := LocationCopy(location))
  }

  /** One handler call. */
  function Step(x: Extraction, e: Event): (r: Extraction)
    ensures r.startOfDay == x.startOfDay
    ensures e.Text? ==> r == x.(text := x.text + e.chars)
    ensures e.Close? ==> r.text == []
    ensures e.Close? && e.name == MarketResultsHourlyTag ==> r.written == x.written + [x.result]
    ensures !(e.Close? && e.name == MarketResultsHourlyTag) ==> r.written == x.written
    ensures e == Close(ClearedMwTag) ==> r.result == x.result.(clearedMw := CString(x.text))
    ensures e.Close? && e.name != ClearedMwTag ==> r.result == x.result
  {
    match e
    case Open(name, attributes) =>
      if name == MarketResultsHourlyTag then
        x.(result := AfterHourlyOpen(x.result, x.startOfDay, attributes))
      else if name == MarketResultsTag then
        x.(result := AfterMarketResultsOpen(attributes))
      else x
    case Close(name) =>
      var y :=
        if name == MarketResultsHourlyTag then x.(written := x.written + [x.result])
        else if name == ClearedMwTag then x.(result := x.result.(clearedMw := CString(x.text)))
        else x;
      y.(text := [])
    case Text(chars) =>
      x.(text := x.text + chars)
  }

  /** What an opening tag does: MarketResults starts a zero result at its
      location, MarketResultsHourly sets the timestamp from its hour, any
      other element changes nothing. */
  lemma OpenEffects(x: Extraction, e: Event)
    requires e.Open?
    ensures var r := Step(x, e);
      && r.text == x.text && r.written == x.written
      && (e.name == MarketResultsTag ==>
            && r.result.clearedMw == [] && r.result.timestamp == 0
            && r.result.location == match LastValue(e.attributes, LocationAttribute)
                                    case None => []
                                    case Some(v) => LocationCopy(v))
      && (e.name == MarketResultsHourlyTag ==>
            && r.result.clearedMw == x.result.clearedMw && r.result.location == x.result.location
            && r.result.timestamp == match LastValue(e.attributes, HourAttribute)
                                     case None => x.result.timestamp
                                     case Some(hour) => x.startOfDay + Atoi(hour) * SecondsPerHour)
      && (e.name != MarketResultsTag && e.name != MarketResultsHourlyTag ==> r == x)
  {
    TagsDistinct();
  }

  /** The handler calls for a sequence of events, in order. */
  function Run(x: Extraction, events: seq<Event>): Extraction
    decreases |events|
  {
    if events == [] then x else Run(Step(x, events[0]), events[1..])
  }

  // ---------------------------------------------------------------------
  // Properties of the event model

  lemma {:induction false} RunAppend(x: Extraction, a: seq<Event>, b: seq<Event>)
    ensures Run(x, a + b) == Run(Run(x, a), b)
    decreases |a|
  {
    if a == [] {
      assert a + b == b;
    } else {
      assert (a + b)[1..] == a[1..] + b;
      RunAppend(Step(x, a[0]), a[1..], b);
    }
  }

  lemma RunSnoc(x: Extraction, events: seq<Event>, i: nat)
    requires i < |events|
    ensures Run(x, events[..i + 1]) == Step(Run(x, events[..i]), events[i])
  {
    assert events[..i + 1] == events[..i] + [events[i]];
    RunAppend(x, events[..i], [events[i]]);
  }

  function HourlyCloses(events: seq<Event>): nat {
    if events == [] then 0
    else (if events[0] == Close(MarketResultsHourlyTag) then 1 else 0) + HourlyCloses(events[1..])
  }

  /** Records are only ever appended, one for each `</MarketResultsHourly>`
      and for nothing else. */
  lemma {:induction false} EmitsOncePerHourlyClose(x: Extraction, events: seq<Event>)
    ensures x.written <= Run(x, events).written
    ensures |Run(x, events).written| == |x.written| + HourlyCloses(events)
    decreases |events|
  {
    if events != [] {
      EmitsOncePerHourlyClose(Step(x, events[0]), events[1..]);
    }
  }

  /** The record emitted at `</MarketResultsHourly>` is the result under
      construction at that moment. */
  lemma EmitsCurrentResult(x: Extraction, before: seq<Event>)
    ensures Run(x, before + [Close(MarketResultsHourlyTag)]).written
         == Run(x, before).written + [Run(x, before).result]
  {
    RunAppend(x, before, [Close(MarketResultsHourlyTag)]);
  }

  /** The tokenizer may split one run of character data into several events;
      the handlers accumulate, so the split makes no difference. */
  lemma TextSplitIrrelevant(x: Extraction, before: seq<Event>, a: seq<Char>, b: seq<Char>, after: seq<Event>)
    ensures Run(x, before + [Text(a + b)] + after) == Run(x, before + [Text(a), Text(b)] + after)
  {
    var y := Run(x, before);
    RunAppend(x, before + [Text(a + b)], after);
    RunAppend(x, before, [Text(a + b)]);
    RunAppend(x, before + [Text(a), Text(b)], after);
    RunAppend(x, before, [Text(a), Text(b)]);
    assert Run(y, [Text(a + b)]) == Step(y, Text(a + b));
    assert Run(y, [Text(a), Text(b)]) == Step(Step(y, Text(a)), Text(b)) by {
      assert [Text(a), Text(b)][1..] == [Text(b)];
      assert Run(y, [Text(a), Text(b)]) == Run(Step(y, Text(a)), [Text(b)]);
      assert Run(Step(y, Text(a)), [Text(b)]) == Step(Step(y, Text(a)), Text(b));
    }
    assert y.text + (a + b) == y.text + a + b;
  }

  predicate NoClose(events: seq<Event>) {
    forall i | 0 <= i < |events| :: !events[i].Close?
  }

  /** The character data carried by a sequence of events. */
  function TextOf(events: seq<Event>): seq<Char> {
    if events == [] then []
    else (if events[0].Text? then events[0].chars else []) + TextOf(events[1..])
  }

  lemma StepWithoutClose(x: Extraction, e: Event)
    requires !e.Close?
    ensures Step(x, e).text == x.text + (if e.Text? then e.chars else [])
    ensures Step(x, e).startOfDay == x.startOfDay
  {
  }

  /** Without a close, the buffer only grows by the character data seen. */
  lemma {:induction false} TextAccumulates(x: Extraction, events: seq<Event>)
    requires NoClose(events)
    ensures Run(x, events).text == x.text + TextOf(events)
    ensures Run(x, events).startOfDay == x.startOfDay
    decreases |events|
  {
    if events != [] {
      var e, rest := events[0], events[1..];
      assert NoClose(rest) by {
        forall i | 0 <= i < |rest| ensures !rest[i].Close? { assert rest[i] == events[i + 1]; }
      }
      var y := Step(x, e);
      StepWithoutClose(x, e);
      TextAccumulates(y, rest);
      assert Run(x, events) == Run(y, rest);
      var head := if e.Text? then e.chars else [];
      assert y.text == x.text + head;
      assert TextOf(events) == head + TextOf(rest);
      calc {
        Run(x, events).text;
        y.text + TextOf(rest);
        x.text + head + TextOf(rest);
        { assert x.text + head + TextOf(rest) == x.text + (head + TextOf(rest)); }
        x.text + TextOf(events);
      }
    }
  }

  /** `</ClearedMW>` takes, as a C string, the character data delivered
      since the previous close. */
  lemma ClearedMwIsTextSinceLastClose(x: Extraction, events: seq<Event>)
    requires NoClose(events)
    ensures Run(x, events + [Close(ClearedMwTag)]).result.clearedMw == CString(x.text + TextOf(events))
  {
    TextAccumulates(x, events);
    RunAppend(x, events, [Close(ClearedMwTag)]);
  }

  /** Every close empties the buffer, so text seen before one close never
      reaches a later `</ClearedMW>`. */
  lemma NoTextLeaksAcrossClose(x: Extraction, name: CStr, events: seq<Event>)
    requires NoClose(events)
    ensures Run(x, [Close(name)] + events + [Close(ClearedMwTag)]).result.clearedMw == CString(TextOf(events))
  {
    var y := Step(x, Close(name));
    assert [Close(name)] + events + [Close(ClearedMwTag)] == [Close(name)] + (events + [Close(ClearedMwTag)]);
    RunAppend(x, [Close(name)], events + [Close(ClearedMwTag)]);
    assert Run(x, [Close(name)]) == y;
    assert y.text == [];
    ClearedMwIsTextSinceLastClose(y, events);
    assert [] + TextOf(events) == TextOf(events);
  }

  predicate LocationsFit(x: Extraction) {
    && |x.result.location| < LocationCapacity
    && forall i | 0 <= i < |x.written| :: |x.written[i].location| < LocationCapacity
  }

  /** Every location held or emitted fits the 32-byte field with its NUL. */
  lemma {:induction false} LocationsAlwaysFit(x: Extraction, events: seq<Event>)
    requires LocationsFit(x)
    ensures LocationsFit(Run(x, events))
    decreases |events|
  {
    if events != [] {
      var y := Step(x, events[0]);
      assert LocationsFit(y) by {
        if events[0] == Close(MarketResultsHourlyTag) {
          assert y.written == x.written + [x.result];
        }
      }
      LocationsAlwaysFit(y, events[1..]);
    }
  }

  // ---------------------------------------------------------------------
  // Worked documents

  function Start(startOfDay: int): Extraction {
    Extraction([], ZeroResult, startOfDay, [])
  }

  lemma HourFiveExample()
    ensures HourTimestamp(1700000000, "5") == 1700018000
  {
    AtoiDecimal(5, []);
    assert DigitChar(5) == '5';
    assert Decimal(5) + [] == "5";
    assert Atoi("5") == 5;
  }

  lemma RunCons(x: Extraction, e: Event, rest: seq<Event>)
    ensures Run(x, [e] + rest) == Run(Step(x, e), rest)
  {
    assert ([e] + rest)[1..] == rest;
  }

  lemma TagsDistinct()
    ensures MarketResultsTag != MarketResultsHourlyTag
    ensures ClearedMwTag != MarketResultsTag && ClearedMwTag != MarketResultsHourlyTag
    ensures HourAttribute != LocationAttribute
  {
    assert |MarketResultsTag| != |MarketResultsHourlyTag|;
    assert ClearedMwTag[0] != MarketResultsTag[0] && ClearedMwTag[0] != MarketResultsHourlyTag[0];
    assert |HourAttribute| != |LocationAttribute|;
  }

  /** The events of one hourly record: a MarketResults element at
      `location` holding one MarketResultsHourly element for `hour` whose
      ClearedMW child holds `value`. */
  function OneRecordDocument(location: CStr, hour: CStr, value: seq<Char>): seq<Event> {
    [ Open(MarketResultsTag, [Attribute(LocationAttribute, location)]),
      Open(MarketResultsHourlyTag, [Attribute(HourAttribute, hour)]),
      Open(ClearedMwTag, []),
      Text(value),
      Close(ClearedMwTag),
      Close(MarketResultsHourlyTag),
      Close(MarketResultsTag) ]
  }

  lemma OneRecordOpens(startOfDay: int, location: CStr, hour: CStr)
    requires |location| < LocationCapacity
    ensures Run(Start(startOfDay), [Open(MarketResultsTag, [Attribute(LocationAttribute, location)]),
                                    Open(MarketResultsHourlyTag, [Attribute(HourAttribute, hour)])])
         == Extraction([], HourlyResult([], HourTimestamp(startOfDay, hour), location), startOfDay, [])
  {
    TagsDistinct();
    var e0 := Open(MarketResultsTag, [Attribute(LocationAttribute, location)]);
    var e1 := Open(MarketResultsHourlyTag, [Attribute(HourAttribute, hour)]);
    assert LastValue([Attribute(LocationAttribute, location)], LocationAttribute) == Some(location);
    assert LastValue([Attribute(HourAttribute, hour)], HourAttribute) == Some(hour);
    var s1 := Step(Start(startOfDay), e0);
    assert s1 == Extraction([], HourlyResult([], 0, location), startOfDay, []);
    RunCons(s1, e1, []);
    RunCons(Start(startOfDay), e0, [e1]);
    assert [e0, e1] == [e0] + [e1];
  }

  lemma OneRecordValue(x: Extraction, value: seq<Char>)
    requires x.text == []
    ensures Run(x, [Open(ClearedMwTag, []), Text(value), Close(ClearedMwTag)])
         == x.(result := x.result.(clearedMw := CString(value)))
  {
    TagsDistinct();
    var e2, e3, e4 := Open(ClearedMwTag, []), Text(value), Close(ClearedMwTag);
    assert Step(x, e2) == x;
    var s4 := Step(x, e3);
    assert s4.text == value;
    RunCons(s4, e4, []);
    RunCons(x, e3, [e4]);
    RunCons(x, e2, [e3, e4]);
    assert [e2, e3, e4] == [e2] + ([e3] + [e4]);
  }

  lemma OneRecordCloses(x: Extraction)
    ensures Run(x, [Close(MarketResultsHourlyTag), Close(MarketResultsTag)]).written == x.written + [x.result]
  {
    TagsDistinct();
    var e5, e6 := Close(MarketResultsHourlyTag), Close(MarketResultsTag);
    var s6 := Step(x, e5);
    RunCons(s6, e6, []);
    RunCons(x, e5, [e6]);
    assert [e5, e6] == [e5] + [e6];
  }

  /** One location, one hour, one cleared value: exactly one record is
      emitted, carrying the value's text, the start of the day plus the
      hours, and the location. */
  lemma OneRecordExample(startOfDay: int, location: CStr, hour: CStr, value: CStr)
    requires |location| < LocationCapacity
    ensures Run(Start(startOfDay), OneRecordDocument(location, hour, value)).written
         == [HourlyResult(value, HourTimestamp(startOfDay, hour), location)]
  {
    var doc := OneRecordDocument(location, hour, value);
    var opens, body, closes := doc[..2], doc[2..5], doc[5..];
    assert doc == opens + body + closes;
    assert opens == [Open(MarketResultsTag, [Attribute(LocationAttribute, location)]),
                     Open(MarketResultsHourlyTag, [Attribute(HourAttribute, hour)])];
    assert body == [Open(ClearedMwTag, []), Text(value), Close(ClearedMwTag)];
    assert closes == [Close(MarketResultsHourlyTag), Close(MarketResultsTag)];
    RunAppend(Start(startOfDay), opens + body, closes);
    RunAppend(Start(startOfDay), opens, body);
    OneRecordOpens(startOfDay, location, hour);
    var s2 := Run(Start(startOfDay), opens);
    OneRecordValue(s2, value);
    CStringOfCStr(value);
    OneRecordCloses(Run(s2, body));
  }

  /** An hourly block without a ClearedMW child is emitted with the zero
      (empty) cleared value. */
  lemma MissingClearedMwExample(location: CStr)
    requires |location| < LocationCapacity
    ensures Run(Start(1700000000), [
        Open(MarketResultsTag, [Attribute(LocationAttribute, location)]),
        Open(MarketResultsHourlyTag, []),
        Close(MarketResultsHourlyTag)
      ]).written == [HourlyResult([], 0, location)]
  {
    var events := [
        Open(MarketResultsTag, [Attribute(LocationAttribute, location)]),
        Open(MarketResultsHourlyTag, []),
        Close(MarketResultsHourlyTag)
      ];
    var s1 := Step(Start(1700000000), events[0]);
    assert s1.result == HourlyResult([], 0, location);
    var s2 := Step(s1, events[1]);
    assert s2.result == s1.result;
    assert Run(Start(1700000000), events) == Run(s1, events[1..]);
    assert Run(s1, events[1..]) == Run(s2, events[2..]);
  }

  /** A second hourly block: one with neither an hour attribute nor a
      ClearedMW child. */
  function TwoHourDocument(location: CStr, hour: CStr, value: seq<Char>): seq<Event> {
    OneRecordDocument(location, hour, value)[..6]
      + [Open(MarketResultsHourlyTag, []), Close(MarketResultsHourlyTag), Close(MarketResultsTag)]
  }

  /** An hourly close, then an hourly block with no attributes and no
      children, then the outer close: the current result is emitted twice. */
  lemma RepeatedHourlyBlock(x: Extraction)
    ensures Run(x, [Close(MarketResultsHourlyTag), Open(MarketResultsHourlyTag, []),
                    Close(MarketResultsHourlyTag), Close(MarketResultsTag)]).written
         == x.written + [x.result, x.result]
  {
    TagsDistinct();
    var e5, e6, e7, e8 := Close(MarketResultsHourlyTag), Open(MarketResultsHourlyTag, []),
                          Close(MarketResultsHourlyTag), Close(MarketResultsTag);
    var t5 := Step(x, e5);
    assert t5.result == x.result && t5.written == x.written + [x.result];
    var t6 := Step(t5, e6);
    assert t6 == t5;
    var t7 := Step(t6, e7);
    assert t7.written == x.written + [x.result, x.result];
    RunCons(t7, e8, []);
    RunCons(t6, e7, [e8]);
    RunCons(t5, e6, [e7, e8]);
    RunCons(x, e5, [e6, e7, e8]);
    assert [e5, e6, e7, e8] == [e5] + [e6, e7, e8];
    assert [e6, e7, e8] == [e6] + [e7, e8];
    assert [e7, e8] == [e7] + [e8];
    assert [e8] == [e8] + [];
  }

  /** Only the MarketResults open zeroes the result, so an hourly block
      without an hour attribute or a ClearedMW child repeats the timestamp
      and the cleared value of the block before it. */
  lemma StaleValueCarriesOver(startOfDay: int, location: CStr, hour: CStr, value: CStr)
    requires |location| < LocationCapacity
    ensures var r := HourlyResult(value, HourTimestamp(startOfDay, hour), location);
      Run(Start(startOfDay), TwoHourDocument(location, hour, value)).written == [r, r]
  {
    var doc := TwoHourDocument(location, hour, value);
    var opens, body, tail := doc[..2], doc[2..5], doc[5..];
    assert doc == opens + body + tail;
    assert opens == [Open(MarketResultsTag, [Attribute(LocationAttribute, location)]),
                     Open(MarketResultsHourlyTag, [Attribute(HourAttribute, hour)])];
    assert body == [Open(ClearedMwTag, []), Text(value), Close(ClearedMwTag)];
    assert tail == [Close(MarketResultsHourlyTag), Open(MarketResultsHourlyTag, []),
                    Close(MarketResultsHourlyTag), Close(MarketResultsTag)];
    RunAppend(Start(startOfDay), opens + body, tail);
    RunAppend(Start(startOfDay), opens, body);
    OneRecordOpens(startOfDay, location, hour);
    OneRecordValue(Run(Start(startOfDay), opens), value);
    CStringOfCStr(value);
    RepeatedHourlyBlock(Run(Start(startOfDay), opens + body));
  }

  /** A 40-byte location is cut to its first 31 bytes. */
  lemma LongLocationExample()
    ensures Step(Start(0), Open(MarketResultsTag, [Attribute(LocationAttribute, seq(40, _ => 'A'))])).result.location
         == seq(31, _ => 'A')
  {
    var v: CStr := seq(40, _ => 'A');
    assert LastValue([Attribute(LocationAttribute, v)], LocationAttribute) == Some(v);
    assert LocationCopy(v) == v[..31];
  }

  // ---------------------------------------------------------------------
  // The code as written: strcpy into the location field

  /** What strcpy leaves in a memory region `field` (the location array and
      whatever follows it) when copying `src`: src and its NUL, then the
      untouched rest of the region; past the region's end when src does not
      fit. */
  function StrcpyInto(field: seq<Char>, src: CStr): (r: seq<Char>)
    ensures |r| == if |src| + 1 <= |field| then |field| else |src| + 1
    ensures r[..|src| + 1] == src + [NUL]
    ensures |src| + 1 <= |field| ==> r[|src| + 1..] == field[|src| + 1..]
  {
    if |src| + 1 <= |field| then src + [NUL] + field[|src| + 1..] else src + [NUL]
  }

  /** A 40-byte location attribute makes the unchecked copy write 41 bytes
      into the 32-byte field: 9 bytes land beyond it. */
  lemma StrcpyOverrunsLocation()
    ensures |StrcpyInto(seq(LocationCapacity, _ => NUL), seq(40, _ => 'A'))| - LocationCapacity == 9
  {
  }

  // ---------------------------------------------------------------------
  // The start handler's attribute loops

  /** The loop over the attributes of `<MarketResultsHourly>`: each `hour`
      attribute sets the timestamp from the start of the day. */
  method HourAttributeLoop(result: HourlyResult, startOfDay: int, attributes: seq<Attribute>)
    returns (r: HourlyResult)
    ensures r == AfterHourlyOpen(result, startOfDay, attributes)
  {
    r := result;
    var i := 0;
    while i < |attributes|
      invariant 0 <= i <= |attributes|
      invariant r == AfterHourlyOpen(result, startOfDay, attributes[..i])
    {
      assert attributes[..i + 1][..i] == attributes[..i];
      if attributes[i].name == HourAttribute {
        r := r.(timestamp := startOfDay + Atoi(attributes[i].value) * SecondsPerHour);
      }
      i := i + 1;
    }
    assert attributes[..i] == attributes;
  }

  /** The memset and the loop over the attributes of `<MarketResults>`:
      each `location` attribute is copied into the location field. */
  method LocationAttributeLoop(attributes: seq<Attribute>) returns (r: HourlyResult)
    ensures r == AfterMarketResultsOpen(attributes)
  {
    r := ZeroResult;
    var i := 0;
    while i < |attributes|
      invariant 0 <= i <= |attributes|
      invariant r == AfterMarketResultsOpen(attributes[..i])
    {
      assert attributes[..i + 1][..i] == attributes[..i];
      if attributes[i].name == LocationAttribute {
        r := r.(location := LocationCopy(attributes[i].value));
      }
      i := i + 1;
    }
    assert attributes[..i] == attributes;
  }

  // ---------------------------------------------------------------------
  // The handlers over the shared record

  /** `struct market_results_parser` and, in `written`, what the writer has
      been handed so far. */
  class MarketResultsParser {
    const buffer: Chunk
    var result: HourlyResult
    var startOfDayTimestamp: int
    var written: seq<HourlyResult>

    ghost predicate Valid()
      reads this, buffer, buffer.data
    {
      buffer.Valid() && buffer.Terminated()
    }

    ghost function State(): Extraction
      reads this, buffer, buffer.data
      requires Valid()
    {
      Extraction(buffer.Content(), result, startOfDayTimestamp, written)
    }

    /** The program's global, zero-filled record: no buffer allocated yet. */
    constructor ()
      ensures Valid() && fresh(buffer) && buffer.data == null
      ensures State() == Start(0)
    {
      buffer := new Chunk.Zeroed();
      result := ZeroResult;
      startOfDayTimestamp := 0;
      written := [];
    }

    /** What atof is handed at `</ClearedMW>`: the buffer region as a C
        string, or None when the region was never allocated (a NULL
        pointer). */
    function AtofArgument(): Option<CStr>
      reads this, buffer, buffer.data
    {
      if buffer.data == null then None else Some(CString(buffer.data[..]))
    }

    /** market_results_request_yesterday / _today / _tomorrow, with the
        start of the day and its "YYYY-MM-DD" text supplied: record the start
        of the day and write the payload. */
    method BeginQuery(startOfDay: int, day: CStr, sizeOfRequestString: nat) returns (request: CStr)
      requires Valid()
      modifies this
      ensures Valid() && State() == old(State()).(startOfDay := startOfDay)
      ensures request == MarketResultsRequest(day, sizeOfRequestString)
    {
      startOfDayTimestamp := startOfDay;
      request := MarketResultsRequest(day, sizeOfRequestString);
    }

    /** market_results_start_handler. */
    method StartHandler(element: CStr, attributes: seq<Attribute>)
      requires Valid()
      requires element == MarketResultsHourlyTag ==> HoursFit(attributes)
      modifies this
      ensures Valid()
      ensures State() == Step(old(State()), Open(element, attributes))
    {
      if element == MarketResultsHourlyTag {
        result := HourAttributeLoop(result, startOfDayTimestamp, attributes);
      } else if element == MarketResultsTag {
        result := LocationAttributeLoop(attributes);
      }
    }

    /** market_results_end_handler. */
    method EndHandler(element: CStr)
      requires Valid()
      modifies this, buffer, buffer.data
      ensures Valid() && buffer.data == old(buffer.data)
      ensures State() == Step(old(State()), Close(element))
    {
      if element == MarketResultsHourlyTag {
        written := written + [result];
      } else if element == ClearedMwTag {
        var text: CStr := [];
        if buffer.data != null {
          assert buffer.data[..] == buffer.data[..buffer.length] + [NUL] + buffer.data[buffer.length + 1..];
          CStringStopsAtNul(buffer.data[..buffer.length], buffer.data[buffer.length + 1..]);
          text := CString(buffer.data[..]);
        }
        result := result.(clearedMw := text);
      }
      buffer.Clear();
    }

    /** market_results_char_handler. */
    method CharHandler(s: seq<Char>)
      requires Valid()
      modifies buffer, buffer.data
      ensures Valid() && buffer.data != null
      ensures buffer.data == old(buffer.data) || fresh(buffer.data)
      ensures State() == Step(old(State()), Text(s))
    {
      if buffer.data == null {
        buffer.New();
      }
      buffer.Append(s);
    }

    /** The tokenizer calling the registered handler for one event. */
    method Handle(e: Event)
      requires Valid() && EventFits(e)
      modifies this, buffer, buffer.data
      ensures Valid()
      ensures buffer.data == old(buffer.data) || fresh(buffer.data)
      ensures State() == Step(old(State()), e)
    {
      match e
      case Open(name, attributes) => StartHandler(name, attributes);
      case Close(name) => EndHandler(name);
      case Text(chars) => CharHandler(chars);
    }

    /** The tokenizer reporting a sequence of events, in order. */
    method Parse(events: seq<Event>)
      requires Valid()
      requires forall i | 0 <= i < |events| :: EventFits(events[i])
      modifies this, buffer, buffer.data
      ensures Valid()
      ensures buffer.data == old(buffer.data) || fresh(buffer.data)
      ensures State() == Run(old(State()), events)
    {
      var i := 0;
      while i < |events|
        invariant 0 <= i <= |events|
        invariant Valid()
        invariant buffer.data == old(buffer.data) || fresh(buffer.data)
        invariant State() == Run(old(State()), events[..i])
      {
        RunSnoc(old(State()), events, i);
        Handle(events[i]);
        i := i + 1;
      }
      assert events[..i] == events;
    }
  }

  /** With the record freshly zero-filled, a ClearedMW element that is the
      first element to close before any character data has arrived hands atof
      a NULL pointer. */
  method EmptyClearedMwFirst() returns (argument: Option<CStr>)
    ensures argument == None
  {
    var p := new MarketResultsParser();
    p.StartHandler(MarketResultsTag, [Attribute(LocationAttribute, "AECO")]);
    p.StartHandler(MarketResultsHourlyTag, []);
    p.StartHandler(ClearedMwTag, []);
    argument := p.AtofArgument();
  }
}
