# Bureau of Meteorology observation collector — a Dafny model

This project models the collection run of Nulah.BoMDataCollector. One run fetches the
Bureau of Meteorology's observation JSON document for a station. It logs the feed's
copyright notice and station header. Then it turns every observation record into a
`weather-data` point and hands each point to the InfluxDB write buffer, addressed to the
configured bucket and organisation.

Modules, in dependency order:

- `Wrappers`: the `Option` type.
- `Digits`: decimal digit strings, their values and zero-padded rendering.
- `Timestamp`: `DateTime.ParseExact` with the format `yyyyMMddHHmmss` under the invariant
  culture. A `None` result stands for the `FormatException`.
- `DecimalText`: `decimal.TryParse` for the `rain_trace` text. It accepts white space, a
  sign, digits and a point. It keeps the number of fraction digits as the scale, so `0.0`
  is zero at one decimal place, and a value beyond `decimal.MaxValue` fails. The scale is
  not capped at 28: see "Left out".
- `BoMJson`: the JSON classes as datatypes. Doubles are kept as opaque 64-bit patterns,
  `int?` is `Option<Int32>`, and a `FirstOrDefault` gives an `Option`.
- `Runs`: a generic "map the elements in order until one fails" loop shape. It has the
  lemmas for appending an element and for stopping at the first failure.
- `Translation`: one record becomes one point. It covers:
  - the twelve fields, keyed by an enumeration whose names are the source's keys;
  - the `source` tag, plus `ID` and `main_ID` when a header exists;
  - second precision.

  It also holds the points of a whole record array up to the first record whose timestamp
  does not parse.
- `Collector`: the `BoMCollector` class.
  - Each write to the buffer is appended to the `written` field, and each log line to the
    `log` field.
  - `WriteToInflux` is the record loop. `CollectData` is one run over an already fetched
    (and possibly null) document.

The timestamp parse that throws inside the loop is modelled as the loop's outcome
`TimestampRejected(i)`. The points for records before `i` stay written: the write API is
disposed at the end of its `using` scope, which flushes them. The log lines "Data sent" and
"Collection complete" are then missing.

## Model

| member | source | states |
|---|---|---|
| Timestamp.ParseTimestamp | Nulah.BoMDataCollector.App/Controllers/BoMCollector.cs:85 | an accepted timestamp is a valid calendar instant (year 1-9999, real month and day, hour < 24, minute and second < 60) |
| Timestamp.DaysInMonth | Nulah.BoMDataCollector.App/Controllers/BoMCollector.cs:85 | months have 28 to 31 days; 29 exactly for February of a Gregorian leap year |
| Timestamp.ParseFormat | Nulah.BoMDataCollector.App/Controllers/BoMCollector.cs:85 | every valid instant written as `yyyyMMddHHmmss` parses back to itself |
| Timestamp.FormatParse | Nulah.BoMDataCollector.App/Controllers/BoMCollector.cs:85 | an accepted text is exactly the formatting of the instant it parses to |
| Timestamp.ColumnsFormat | Nulah.BoMDataCollector.App/Controllers/BoMCollector.cs:85 | formatting writes digits only, and the six fixed-width columns read back the original fields |
| Timestamp.ParseTimestampExactly | Nulah.BoMDataCollector.App/Controllers/BoMCollector.cs:85 | a text parses to `t` if and only if `t` is valid and formats to that text |
| Timestamp.RejectsInvalid | Nulah.BoMDataCollector.App/Controllers/BoMCollector.cs:85 | fourteen digits naming an impossible date or time are rejected |
| Timestamp.TimestampExampleValid | Nulah.BoMDataCollector.App/Controllers/BoMCollector.cs:85 | "20240115063000" is 2024-01-15 06:30:00 |
| Timestamp.TimestampExampleLeapDay | Nulah.BoMDataCollector.App/Controllers/BoMCollector.cs:85 | "20240229120000" is accepted (2024 is a leap year) |
| Timestamp.TimestampExampleCenturyYear | Nulah.BoMDataCollector.App/Controllers/BoMCollector.cs:85 | "19000229000000" is rejected (1900 is not a leap year) |
| Timestamp.TimestampExampleHour24 | Nulah.BoMDataCollector.App/Controllers/BoMCollector.cs:85 | hour 24 is rejected |
| Timestamp.TimestampExampleTruncated | Nulah.BoMDataCollector.App/Controllers/BoMCollector.cs:85 | a 7-character text is rejected |
| DecimalText.ParseDecimal | Nulah.BoMDataCollector.App/Controllers/BoMCollector.cs:92 | a successful parse lies within the decimal range |
| DecimalText.ParseNumeral | Nulah.BoMDataCollector.App/Controllers/BoMCollector.cs:92 | every numeral (white space, an optional sign, digits with an optional point, white space, at least one digit) parses to the decimal its digits denote, or fails when that is out of range |
| DecimalText.ParseDecimalForm | Nulah.BoMDataCollector.App/Controllers/BoMCollector.cs:92 | the converse: every accepted text is such a numeral, and the parsed value is the decimal its digits denote |
| DecimalText.ParseDecimalExactly | Nulah.BoMDataCollector.App/Controllers/BoMCollector.cs:92 | a text parses to `d` if and only if it is a numeral whose digits denote `d` and `d` is within the decimal range |
| DecimalText.ParseRender | Nulah.BoMDataCollector.App/Controllers/BoMCollector.cs:92 | a sign, whole digits and fraction digits with at least one digit in all, with white space around them, parse to the value they denote when it is in range |
| DecimalText.LimitScales | Nulah.BoMDataCollector.App/Controllers/BoMCollector.cs:92 | the range bound at scale `k` is the largest decimal magnitude, 2^96 - 1, times 10^k |
| DecimalText.ParseFormatDecimal | Nulah.BoMDataCollector.App/Controllers/BoMCollector.cs:92 | every in-range decimal, rendered plainly and surrounded by white space, parses back to itself, scale included (for scales above 28 .NET would round instead; see "Left out") |
| DecimalText.FormatDenotes | Nulah.BoMDataCollector.App/Controllers/BoMCollector.cs:92 | the plain rendering's digits denote the value they were written from |
| DecimalText.ParseDashFails | Nulah.BoMDataCollector.App/Controllers/BoMCollector.cs:87-92 | the dash "-" does not parse |
| DecimalText.ParseZeroTrace | Nulah.BoMDataCollector.App/Controllers/BoMCollector.cs:89-92 | "0.0" parses to zero at scale 1 |
| DecimalText.ParseOnePointTwo | Nulah.BoMDataCollector.App/Controllers/BoMCollector.cs:92 | "1.2" parses to 12 at scale 1 |
| DecimalText.ParseBareFraction | Nulah.BoMDataCollector.App/Controllers/BoMCollector.cs:92 | ".5" parses to 5 at scale 1: the whole part may be empty |
| DecimalText.ParseBareWhole | Nulah.BoMDataCollector.App/Controllers/BoMCollector.cs:92 | "5." parses to 5 at scale 0: the point may end the number |
| BoMJson.FirstHeader | Nulah.BoMDataCollector.App/Controllers/BoMCollector.cs:79 | a header exists exactly when the header array is non-empty, and it is the array's first element |
| BoMJson.FirstNotice | Nulah.BoMDataCollector.App/Controllers/BoMCollector.cs:40 | a notice exists exactly when the notice array is non-empty, and it is the array's first element |
| Translation.KeyNameRoundTrip | Nulah.BoMDataCollector.App/Controllers/BoMCollector.cs:95-108 | the twelve field key strings are distinct: each one names its field back |
| Translation.RainTraceField | Nulah.BoMDataCollector.App/Controllers/BoMCollector.cs:92-101 | the `rain_trace` field is null if and only if the text does not parse, and otherwise holds the parsed decimal |
| Translation.FieldOf | Nulah.BoMDataCollector.App/Controllers/BoMCollector.cs:95-108 | each field has the kind its property has: `rain_trace` a decimal, `wind_dir` an always-present string, `rel_hum`, `wind_spd_kmh` and `gust_kmh` integers, the rest doubles |
| Translation.Fields | Nulah.BoMDataCollector.App/Controllers/BoMCollector.cs:94-108 | a record's field table has exactly the twelve keys; a missing reading is a null value, never an omitted key |
| Translation.Tags | Nulah.BoMDataCollector.App/Controllers/BoMCollector.cs:94-117 | tags always include `source` = "Bureau of Meteorology". With a header they are exactly `source`, `ID` and `main_ID` with the header's ids; without one, only `source` |
| Translation.Translate | Nulah.BoMDataCollector.App/Controllers/BoMCollector.cs:85-117 | a record gives a point if and only if its timestamp parses; the point's time is a valid instant and its fields have exactly the twelve keys |
| Translation.TranslateShape | Nulah.BoMDataCollector.App/Controllers/BoMCollector.cs:85-109 | a record gives a point if and only if its timestamp parses. The point has measurement "weather-data", second precision, exactly the twelve field keys and the run's tags. Its time is valid and formats back to the record's `aifstime_utc` |
| Translation.FieldsCopied | Nulah.BoMDataCollector.App/Controllers/BoMCollector.cs:95-108 | every field except `rain_trace` is the same-named record property, unchanged; a null property gives a null field |
| Translation.TranslateRainTrace | Nulah.BoMDataCollector.App/Controllers/BoMCollector.cs:92-101 | the `rain_trace` field is the record's rain-trace text read as a decimal |
| Translation.RainTraceNullVersusZero | Nulah.BoMDataCollector.App/Controllers/BoMCollector.cs:87-101 | the rain-trace field is null if and only if the text does not parse, and otherwise holds the parsed decimal. "-" gives null, "0.0" gives zero, "1.2" gives 1.2 |
| Translation.FirstRejected | Nulah.BoMDataCollector.App/Controllers/BoMCollector.cs:81-85 | the index found is a record whose timestamp does not parse, and every earlier record's timestamp parses |
| Translation.Points | Nulah.BoMDataCollector.App/Controllers/BoMCollector.cs:81-124 | the run's points, with no more than there are records; point `j` is the translation of record `j` |
| Translation.TranslatorFailures | Nulah.BoMDataCollector.App/Controllers/BoMCollector.cs:85-109 | translation fails on exactly the records whose timestamp parse fails |
| Translation.PointsLength | Nulah.BoMDataCollector.App/Controllers/BoMCollector.cs:81-124 | a run has one point per record before the first rejected record, and one per record when none is rejected |
| Translation.PointsExtend | Nulah.BoMDataCollector.App/Controllers/BoMCollector.cs:81-124 | appending an accepted record after accepted records appends exactly its point |
| Translation.PointsStopAt | Nulah.BoMDataCollector.App/Controllers/BoMCollector.cs:81-85 | after accepted records, a rejected record `i` is the first rejected one, and it and every later record contribute no point |
| Translation.FirstRejectedStep | Nulah.BoMDataCollector.App/Controllers/BoMCollector.cs:81-85 | a prefix without a rejected record stays so when extended by an accepted record |
| Translation.PointsUniform | Nulah.BoMDataCollector.App/Controllers/BoMCollector.cs:94-117 | every point of a run has the same measurement, field keys, tags and precision, and a time that formats to its record's timestamp text |
| Runs.MapUntilNone | Nulah.BoMDataCollector.App/Controllers/BoMCollector.cs:81-124 | no more results than elements; result `j` is element `j`'s mapping |
| Runs.FirstNone | Nulah.BoMDataCollector.App/Controllers/BoMCollector.cs:81-85 | the index found is a failing element, with every element before it mapping |
| Runs.MapUntilNoneLength | Nulah.BoMDataCollector.App/Controllers/BoMCollector.cs:81-124 | one result per element before the first failure, or per element when none fails |
| Runs.MapUntilNoneExtend | Nulah.BoMDataCollector.App/Controllers/BoMCollector.cs:81-124 | appending a mapping element after mapping elements appends its result |
| Runs.MapUntilNonePrefix | Nulah.BoMDataCollector.App/Controllers/BoMCollector.cs:81-124 | a failure-free prefix grown by a mapping element gains exactly its result |
| Runs.MapUntilNoneStop | Nulah.BoMDataCollector.App/Controllers/BoMCollector.cs:81-85 | the first failing element and everything after it contribute nothing |
| Runs.FirstNoneStep | Nulah.BoMDataCollector.App/Controllers/BoMCollector.cs:81-85 | a failure-free prefix stays failure-free when extended by a mapping element |
| Runs.SameFailures | Nulah.BoMDataCollector.App/Controllers/BoMCollector.cs:81-85 | two mappings that fail on the same elements fail first at the same index |
| Collector.Level | Nulah.BoMDataCollector.App/Controllers/BoMCollector.cs:60 | the missing-response line is the only error-level line |
| Collector.WriteOutcomeOf | Nulah.BoMDataCollector.App/Controllers/BoMCollector.cs:81-85 | the loop finishes if and only if every record's timestamp parses; otherwise it stops at a record whose timestamp does not parse |
| Collector.Addressed | Nulah.BoMDataCollector.App/Controllers/BoMCollector.cs:123 | one write per point, in order, each to the configured bucket and organisation |
| Collector.Announcements | Nulah.BoMDataCollector.App/Controllers/BoMCollector.cs:39-53 | one notice line when the notice array is non-empty and one header line when the header array is; all at information level |
| Collector.WriteLog | Nulah.BoMDataCollector.App/Controllers/BoMCollector.cs:75-126 | the write loop logs "Writing data" first, and "Data sent" if and only if every record was written; all at information level |
| Collector.BoMCollector.constructor | Nulah.BoMDataCollector.App/Controllers/BoMCollector.cs:19-28 | a new collector keeps its configuration and has written and logged nothing |
| Collector.BoMCollector.WriteToInflux | Nulah.BoMDataCollector.App/Controllers/BoMCollector.cs:73-127 | the loop's outcome is the first rejected record, if any. The writes added are the run's points in record order. The log gains "Writing data" and, only when every record was written, "Data sent" |
| Collector.BoMCollector.CollectData | Nulah.BoMDataCollector.App/Controllers/BoMCollector.cs:33-62 | a null document logs the source line and the error line and writes nothing. Otherwise the run logs the source, the notice and header lines and the write loop's lines, and writes the run's points; "Collection complete" follows only when the loop finished |
| Collector.WrittenStep | Nulah.BoMDataCollector.App/Controllers/BoMCollector.cs:94-123 | one loop step: the point built for an accepted record is the next write of the run |
| Collector.RejectedAt | Nulah.BoMDataCollector.App/Controllers/BoMCollector.cs:85 | a record whose parse throws after accepted records ends the run at that index with only the earlier points |
| Collector.AllAccepted | Nulah.BoMDataCollector.App/Controllers/BoMCollector.cs:81-126 | a loop that passed every record writes all of the run's points and finishes |
| Collector.AcceptedPrefix | Nulah.BoMDataCollector.App/Controllers/BoMCollector.cs:81-85 | a prefix has no rejected record if and only if every record in it is accepted |
| Collector.WritesEveryRecord | Nulah.BoMDataCollector.App/Controllers/BoMCollector.cs:81-123 | when every timestamp parses, there is one write per record, in order, each holding its record's translation |
| Collector.AbortKeepsEarlierWrites | Nulah.BoMDataCollector.App/Controllers/BoMCollector.cs:81-85 | a run stopped at record `i` has written exactly the points of records `0..i-1` |
| Collector.FetchedRunLogsNoError | Nulah.BoMDataCollector.App/Controllers/BoMCollector.cs:37-57 | a run over a fetched document logs nothing at error level, whatever the loop's outcome |
| Collector.ExampleRunStopsAtTruncatedTimestamp | Nulah.BoMDataCollector.App/Controllers/BoMCollector.cs:79-124 | a well-formed record followed by a truncated timestamp stops at record 1. It writes one point with the parsed time, the station `ID` tag and a null rain trace for "-" |

## Left out

- The HTTP fetch in `ReadJsonFromSource` (lines 24-27 and 64-70) is left out: the request headers, `GetStreamAsync`, and its exceptions on network or status failure. `CollectData` takes the fetch result as a parameter, where `None` is a document that deserialised to null. Only that case reaches the error line at line 60, because a failed request throws before it.
- JSON deserialisation is left out. Records are datatypes, and JSON nulls in string properties or arrays are not modelled, so strings and arrays are always present.
- The InfluxDB client and write API are left out: batching, the flush on dispose, the line-protocol serialisation of null fields, and the token and url the client uses. A write is modelled as appending `(point, bucket, organisation)` in call order.
- `DateTime` kind and time zone are left out: the parsed instant is a naive calendar value, as `ParseExact` returns it.
- Log timestamps (`DateTime.Now`), the log scope, and the message templates are left out. A log line is modelled as an event datatype carrying the values it shows.
- The scheduler in Services/CollectData.cs, the start-up in Program.cs, and `Configuration.Repeat` are not part of this model.
- The configuration is read once. A change to `IOptionsMonitor.CurrentValue` in the middle of a run is not modelled.
- DecimalText.ParseDecimal: reads with the invariant culture's symbols only. It omits the current culture, a trailing sign, thousands separators, and currency and exponent forms (neither is accepted by the default style). It does not round to at most 28 decimal places and 29 significant digits as `System.Decimal` does: the model keeps every fraction digit as scale, so "0." followed by 32 digits has scale 32 in the model, and a text whose only nonzero digit lies past the 28th place is a nonzero value in the model but zero in .NET.
- Double-valued fields are opaque bit patterns that are copied unchanged. No floating-point arithmetic is modelled.
- The record properties the collector never reads are left out of `Data`: `sort_order`, `wmo`, `name`, `history_product`, the local times, `lat`, `lon`, the cloud, sea and swell properties, `gust_kt`, `press_tend`, `vis_km`, `weather` and `wind_spd_kt`.
- `WriteToInflux` builds each point's tags with `Tags(header)`, which is the header branch at lines 111-117 folded into one value. It does not model the reassignment of `point` in place.
