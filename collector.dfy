/**
 * The collector: one collection run logs the feed's notice and station header, then turns
 * every observation record into a point and hands it to the time-series write buffer,
 * addressed to the configured bucket and organisation.
 */
module Collector {
  import opened Wrappers
  import opened BoMJson
  import opened Translation
  import opened Timestamp
  import opened Runs

  /** Where points go. */
  datatype InfluxDb = InfluxDb(token: string, url: string, bucket: string, organisation: string)

  /** The collector's settings; the run interval belongs to the scheduler and is not kept. */
  datatype Configuration = Configuration(dataSource: string, influxDb: InfluxDb)

  /** One call of the write buffer: a point and the bucket and organisation it is written to. */
  datatype Write = Write(point: Point, bucket: string, organisation: string)

  datatype LogLevel = Information | Error

  /** The log lines of a run, with the values they show and without their clock reading. */
  datatype LogEvent =
    | CollectingFrom(source: string)
    | CopyrightNotice(copyright: string, feedbackUrl: string)
    | ProductHeader(productName: string, name: string, state: string, refreshMessage: string)
    | WritingData
    | DataSent
    | CollectionComplete
    | NoResponse

  /** Only the missing response is logged as an error. */
  function Level(e: LogEvent): (l: LogLevel)
    ensures l == Error <==> e == NoResponse
  {
    if e.NoResponse? then Error else Information
  }

  /** How the write loop ends: every record written, or the parse of record `index` throws. */
  datatype WriteOutcome = AllWritten | TimestampRejected(index: nat)

  /** How a collection run ends. */
  datatype CollectOutcome = NoResponseFromSource | Collected | Aborted(index: nat)

  /** The write loop's outcome for a record array. */
  function WriteOutcomeOf(data: seq<Data>): (o: WriteOutcome)
    ensures o.AllWritten? <==> forall j :: 0 <= j < |data| ==> Accepts(data[j])
    ensures o.TimestampRejected? ==> o.index < |data| && !Accepts(data[o.index])
  {
    match FirstRejected(data)
    case None => AllWritten
    case Some(i) => TimestampRejected(i)
  }

  /** The points, each addressed to the configured bucket and organisation. */
  function Addressed(points: seq<Point>, db: InfluxDb): (ws: seq<Write>)
    ensures |ws| == |points|
    ensures forall j :: 0 <= j < |ws| ==> ws[j].point == points[j]
    ensures forall j :: 0 <= j < |ws| ==> ws[j].bucket == db.bucket && ws[j].organisation == db.organisation
  {
    seq(|points|, j requires 0 <= j < |points| => Write(points[j], db.bucket, db.organisation))
  }

  /** The notice and header lines: each one only when its array has a first element. */
  function Announcements(document: BoMData): (events: seq<LogEvent>)
    ensures |events| <= 2
    ensures |events| == (if FirstNotice(document).Some? then 1 else 0) + (if FirstHeader(document).Some? then 1 else 0)
    ensures forall j :: 0 <= j < |events| ==> Level(events[j]) == Information
  {
    var notice := match FirstNotice(document)
      case None => []
      case Some(n) => [CopyrightNotice(n.copyright, n.feedbackUrl)];
    var header := match FirstHeader(document)
      case None => []
      case Some(h) => [ProductHeader(h.productName, h.name, h.state, h.refreshMessage)];
    notice + header
  }

  /** The log lines the write loop adds: its opening line, and its closing one when every record was written. */
  function WriteLog(outcome: WriteOutcome): (events: seq<LogEvent>)
    ensures |events| >= 1 && events[0] == WritingData
    ensures DataSent in events <==> outcome.AllWritten?
    ensures forall j :: 0 <= j < |events| ==> Level(events[j]) == Information
  {
    [WritingData] + (if outcome.AllWritten? then [DataSent] else [])
  }

  class BoMCollector {
    const configuration: Configuration
    /** Every point handed to the write buffer so far, in order. */
    var written: seq<Write>
    /** Every line logged so far, in order. */
    var log: seq<LogEvent>

    constructor (configuration: Configuration)
      ensures this.configuration == configuration
      ensures written == [] && log == []
    {
      this.configuration := configuration;
      written := [];
      log := [];
    }

    /**
     * Writes one point per record, in order, until a record's timestamp does not parse;
     * that parse throws, so the loop ends there and the closing line is not logged.
     */
    method WriteToInflux(document: BoMData) returns (outcome: WriteOutcome)
      modifies this
      ensures outcome == WriteOutcomeOf(document.observations.data)
      ensures written == old(written) + Addressed(Points(document.observations.data, FirstHeader(document)), configuration.influxDb)
      ensures log == old(log) + WriteLog(outcome)
    {
      log := log + [WritingData];
      var header := FirstHeader(document);
      var observations := document.observations.data;
      var db := configuration.influxDb;
      var i := 0;
      while i < |observations|
        invariant 0 <= i <= |observations|
        invariant FirstRejected(observations[..i]) == None
        invariant written == old(written) + Addressed(Points(observations[..i], header), db)
        invariant log == old(log) + [WritingData]
      {
        var observation := observations[i];
        var measurementTime := ParseTimestamp(observation.aifstimeUtc);
        if measurementTime.None? {
          RejectedAt(observations, i, header);
          outcome := TimestampRejected(i);
          return;
        }
        var point := Point(Measurement, Tags(header), Fields(observation), measurementTime.value, S);
        WrittenStep(old(written), observations, i, header, measurementTime.value, db);
        written := written + [Write(point, db.bucket, db.organisation)];
        i := i + 1;
      }
      AllAccepted(observations, header);
      log := log + [DataSent];
      outcome := AllWritten;
    }

    /**
     * One collection run over the fetched document: no document logs an error and writes
     * nothing; otherwise the notice and header are logged, the records are written, and
     * the completion line follows only when the write loop finished.
     */
    method CollectData(fetched: Option<BoMData>) returns (outcome: CollectOutcome)
      modifies this
      ensures fetched.None? ==>
        && outcome == NoResponseFromSource
        && written == old(written)
        && log == old(log) + [CollectingFrom(configuration.dataSource), NoResponse]
      ensures fetched.Some? ==>
        var document := fetched.value;
        var w := WriteOutcomeOf(document.observations.data);
        && outcome == (if w.AllWritten? then Collected else Aborted(w.index))
        && written == old(written) + Addressed(Points(document.observations.data, FirstHeader(document)), configuration.influxDb)
        && log == old(log) + [CollectingFrom(configuration.dataSource)] + Announcements(document) + WriteLog(w)
                  + (if w.AllWritten? then [CollectionComplete] else [])
    {
      log := log + [CollectingFrom(configuration.dataSource)];
      if fetched.None? {
        log := log + [NoResponse];
        return NoResponseFromSource;
      }
      var document := fetched.value;
      log := log + Announcements(document);
      var w := WriteToInflux(document);
      if w.AllWritten? {
        log := log + [CollectionComplete];
        outcome := Collected;
      } else {
        outcome := Aborted(w.index);
      }
    }
  }

  /**
   * One step of the write loop: after accepted records, a record whose timestamp parses to
   * `t` adds exactly the write of the point the loop builds for it.
   */
  lemma WrittenStep(before: seq<Write>, data: seq<Data>, i: nat, header: Option<Header>, t: DateTime14, db: InfluxDb)
    requires i < |data|
    requires FirstRejected(data[..i]) == None
    requires ParseTimestamp(data[i].aifstimeUtc) == Some(t)
    ensures FirstRejected(data[..i + 1]) == None
    ensures before + Addressed(Points(data[..i], header), db)
              + [Write(Point(Measurement, Tags(header), Fields(data[i]), t, S), db.bucket, db.organisation)]
         == before + Addressed(Points(data[..i + 1], header), db)
  {
    var p := Point(Measurement, Tags(header), Fields(data[i]), t, S);
    FirstRejectedStep(data, i);
    PrefixPoints(data, i, header, p);
    AddressedExtend(Points(data[..i], header), p, db);
    AppendAssoc(before, Addressed(Points(data[..i], header), db), [Write(p, db.bucket, db.organisation)]);
  }

  lemma PrefixPoints(data: seq<Data>, i: nat, header: Option<Header>, p: Point)
    requires i < |data|
    requires FirstRejected(data[..i]) == None
    requires Translate(data[i], header) == Some(p)
    ensures Points(data[..i + 1], header) == Points(data[..i], header) + [p]
  {
    TranslatorFailures(header, data[..i]);
    MapUntilNonePrefix(Translator(header), data, i, p);
  }

  lemma AddressedExtend(points: seq<Point>, p: Point, db: InfluxDb)
    ensures Addressed(points + [p], db) == Addressed(points, db) + [Write(p, db.bucket, db.organisation)]
  {
    assert Addressed(points + [p], db)[|points|] == Write(p, db.bucket, db.organisation);
  }

  lemma AppendAssoc<T>(a: seq<T>, b: seq<T>, c: seq<T>)
    ensures (a + b) + c == a + (b + c)
  {
  }

  /** The write loop stops at the first record whose timestamp does not parse. */
  lemma RejectedAt(data: seq<Data>, i: nat, header: Option<Header>)
    requires i < |data| && !Accepts(data[i])
    requires FirstRejected(data[..i]) == None
    ensures WriteOutcomeOf(data) == TimestampRejected(i)
    ensures Points(data, header) == Points(data[..i], header)
  {
    PointsStopAt(data, i, header);
  }

  /** The write loop runs to the end when every record's timestamp parses. */
  lemma AllAccepted(data: seq<Data>, header: Option<Header>)
    requires FirstRejected(data[..|data|]) == None
    ensures WriteOutcomeOf(data) == AllWritten
    ensures Points(data[..|data|], header) == Points(data, header)
  {
    assert data[..|data|] == data;
  }

  /** No record of a prefix is rejected exactly when every record of it is accepted. */
  lemma AcceptedPrefix(data: seq<Data>, i: nat)
    requires i <= |data|
    ensures FirstRejected(data[..i]) == None <==> forall j :: 0 <= j < i ==> Accepts(data[j])
  {
    var prefix := data[..i];
    assert forall j :: 0 <= j < i ==> prefix[j] == data[j];
  }

  /**
   * A run over records that all carry a well-formed timestamp writes one point per record,
   * in record order, each the translation of its record.
   */
  lemma WritesEveryRecord(data: seq<Data>, header: Option<Header>, db: InfluxDb)
    requires WriteOutcomeOf(data).AllWritten?
    ensures var ws := Addressed(Points(data, header), db);
      && |ws| == |data|
      && forall j :: 0 <= j < |data| ==> Translate(data[j], header) == Some(ws[j].point)
  {
    PointsLength(data, header);
  }

  /**
   * A run that meets a malformed timestamp at record `i` has written exactly the points of
   * the records before it, and none for `i` or any later record.
   */
  lemma AbortKeepsEarlierWrites(data: seq<Data>, header: Option<Header>, db: InfluxDb)
    requires WriteOutcomeOf(data).TimestampRejected?
    ensures var i := WriteOutcomeOf(data).index;
      && Points(data, header) == Points(data[..i], header)
      && |Addressed(Points(data, header), db)| == i
  {
    var i := WriteOutcomeOf(data).index;
    PointsStopAt(data, i, header);
    PointsLength(data, header);
  }

  /**
   * A run that fetched a document logs nothing at error level, whatever the write loop's
   * outcome; the error line is the missing response alone.
   */
  lemma FetchedRunLogsNoError(source: string, document: BoMData, w: WriteOutcome)
    ensures var events := [CollectingFrom(source)] + Announcements(document) + WriteLog(w)
                          + (if w.AllWritten? then [CollectionComplete] else []);
      forall j :: 0 <= j < |events| ==> Level(events[j]) == Information
  {
  }

  /** A record with the given timestamp and rain-trace texts and every number null. */
  function SampleRecord(aifstimeUtc: string, rainTrace: string): Data {
    Data(aifstimeUtc, None, None, None, None, rainTrace, None, None, None, "NW", None, None, None)
  }

  const SampleHeader: Header :=
    Header("", "IDN60901", "094768", "Sydney - Observatory Hill", "", "", "Weather Observations", "New South Wales")

  /**
   * A run over a well-formed record followed by a truncated timestamp: the loop stops at the
   * second record, having written one point that carries the station tags and a null rain
   * trace for the text "-".
   */
  lemma ExampleRunStopsAtTruncatedTimestamp()
    ensures var data := [SampleRecord("20240115063000", "-"), SampleRecord("2024011", "0.0")];
      var ps := Points(data, Some(SampleHeader));
      && WriteOutcomeOf(data) == TimestampRejected(1)
      && |ps| == 1
      && ps[0].time == DateTime14(2024, 1, 15, 6, 30, 0)
      && ps[0].fields[RainTrace] == None
      && ps[0].tags["ID"] == "IDN60901"
  {
    var data := [SampleRecord("20240115063000", "-"), SampleRecord("2024011", "0.0")];
    TimestampExampleValid();
    TimestampExampleTruncated();
    assert data[..1] == [data[0]];
    RejectedAt(data, 1, Some(SampleHeader));
    TranslateRainTrace(data[0], Some(SampleHeader));
    RainTraceNullVersusZero("-");
  }

}
