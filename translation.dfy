/**
 * The translation of observation records into time-series points: the timestamp parse,
 * the rain-trace parse, the fixed field table and the location tags, for one record and
 * for the whole observation array in order.
 */
module Translation {
  import opened Wrappers
  import opened Timestamp
  import opened DecimalText
  import opened BoMJson
  import opened Runs

  /** The precision a point's timestamp is written with. */
  datatype WritePrecision = Ns | Us | Ms | S

  /** A field value as the builder receives it: a double, an int, a string or a decimal. */
  datatype FieldValue = Float(d: Double) | Integer(n: Int32) | Text(s: string) | Exact(x: Decimal)

  /** A point: measurement name, tags, fields (a `None` value is a null field) and timestamp. */
  datatype Point = Point(
    measurement: string,
    tags: map<string, string>,
    fields: map<FieldKey, Option<FieldValue>>,
    time: DateTime14,
    precision: WritePrecision)

  const Measurement: string := "weather-data"
  const Source: string := "Bureau of Meteorology"

  /** The twelve fields every point carries, in the order the collector adds them. */
  datatype FieldKey =
    | AirTemp | ApparentT | DeltaT | RelHum | RainTrace | Press
    | PressMsl | PressQnh | WindDir | WindSpdKmh | GustKmh | Dewpt

  /** The field's key in the written point. */
  function KeyName(k: FieldKey): string {
    match k
    case AirTemp => "air_temp"
    case ApparentT => "apparent_t"
    case DeltaT => "delta_t"
    case RelHum => "rel_hum"
    case RainTrace => "rain_trace"
    case Press => "press"
    case PressMsl => "press_msl"
    case PressQnh => "press_qnh"
    case WindDir => "wind_dir"
    case WindSpdKmh => "wind_spd_kmh"
    case GustKmh => "gust_kmh"
    case Dewpt => "dewpt"
  }

  /** The field a key names, if it names one. */
  function KeyOf(name: string): Option<FieldKey> {
    if name == "air_temp" then Some(AirTemp)
    else if name == "apparent_t" then Some(ApparentT)
    else if name == "delta_t" then Some(DeltaT)
    else if name == "rel_hum" then Some(RelHum)
    else if name == "rain_trace" then Some(RainTrace)
    else if name == "press" then Some(Press)
    else if name == "press_msl" then Some(PressMsl)
    else if name == "press_qnh" then Some(PressQnh)
    else if name == "wind_dir" then Some(WindDir)
    else if name == "wind_spd_kmh" then Some(WindSpdKmh)
    else if name == "gust_kmh" then Some(GustKmh)
    else if name == "dewpt" then Some(Dewpt)
    else None
  }

  /** Each field is written under its own key: reading a key name back gives the field. */
  lemma KeyNameRoundTrip(k: FieldKey)
    ensures KeyOf(KeyName(k)) == Some(k)
  {
  }

  const FieldKeys: set<FieldKey> := {
    AirTemp, ApparentT, DeltaT, RelHum, RainTrace, Press,
    PressMsl, PressQnh, WindDir, WindSpdKmh, GustKmh, Dewpt
  }

  function FloatField(v: Option<Double>): Option<FieldValue> {
    match v
    case None => None
    case Some(d) => Some(Float(d))
  }

  function IntegerField(v: Option<Int32>): Option<FieldValue> {
    match v
    case None => None
    case Some(n) => Some(Integer(n))
  }

  /** `rain_trace`: the parsed decimal, or a null field when the text is not a number. */
  function RainTraceField(text: string): (f: Option<FieldValue>)
    ensures f.None? <==> ParseDecimal(text).None?
    ensures f.Some? ==> f.value.Exact? && ParseDecimal(text) == Some(f.value.x)
  {
    match ParseDecimal(text)
    case None => None
    case Some(x) => Some(Exact(x))
  }

  /**
   * The value of one field of a record, of the kind its property has: `rain_trace` a
   * decimal, `wind_dir` a string that is always present, the three whole-number readings
   * integers, and the other readings doubles.
   */
  function FieldOf(obs: Data, k: FieldKey): (v: Option<FieldValue>)
    ensures k == WindDir ==> v.Some?
    ensures v.Some? ==> (v.value.Exact? <==> k == RainTrace)
    ensures v.Some? ==> (v.value.Text? <==> k == WindDir)
    ensures v.Some? ==> (v.value.Integer? <==> k == RelHum || k == WindSpdKmh || k == GustKmh)
  {
    match k
    case AirTemp => FloatField(obs.airTemp)
    case ApparentT => FloatField(obs.apparentT)
    case DeltaT => FloatField(obs.deltaT)
    case RelHum => IntegerField(obs.relHum)
    case RainTrace => RainTraceField(obs.rainTrace)
    case Press => FloatField(obs.press)
    case PressMsl => FloatField(obs.pressMsl)
    case PressQnh => FloatField(obs.pressQnh)
    case WindDir => Some(Text(obs.windDir))
    case WindSpdKmh => IntegerField(obs.windSpdKmh)
    case GustKmh => IntegerField(obs.gustKmh)
    case Dewpt => FloatField(obs.dewpt)
  }

  /** The field table of one record: every key is present, a missing reading being a null value. */
  function Fields(obs: Data): (f: map<FieldKey, Option<FieldValue>>)
    ensures f.Keys == FieldKeys
  {
    map k | k in FieldKeys :: FieldOf(obs, k)
  }

  /** The tag every point starts with. */
  const SourceTag: map<string, string> := map["source" := Source]

  /** The station's location tags added to a tag set. */
  function WithLocation(tags: map<string, string>, h: Header): map<string, string> {
    tags["ID" := h.id]["main_ID" := h.mainId]
  }

  /**
   * Tags: always `source`; `ID` and `main_ID` from the header when there is one, and
   * otherwise no key but `source` at all.
   */
  function Tags(header: Option<Header>): (t: map<string, string>)
    ensures "source" in t && t["source"] == Source
    ensures header.None? ==> t.Keys == {"source"}
    ensures header.Some? ==>
      && t.Keys == {"source", "ID", "main_ID"}
      && t["ID"] == header.value.id
      && t["main_ID"] == header.value.mainId
  {
    match header
    case None => SourceTag
    case Some(h) => WithLocation(SourceTag, h)
  }

  /** A record's timestamp is in the fixed format, so the record can become a point. */
  predicate Accepts(obs: Data) {
    ParseTimestamp(obs.aifstimeUtc).Some?
  }

  /** The timestamp parse of a record, as a mapping over records. */
  const RecordTime: Data -> Option<DateTime14> := (obs: Data) => ParseTimestamp(obs.aifstimeUtc)

  /** One record as a point; `None` when its timestamp does not parse. */
  function Translate(obs: Data, header: Option<Header>): (r: Option<Point>)
    ensures r.Some? <==> Accepts(obs)
    ensures r.Some? ==> Valid(r.value.time) && r.value.fields.Keys == FieldKeys
  {
    match ParseTimestamp(obs.aifstimeUtc)
    case None => None
    case Some(t) => Some(Point(Measurement, Tags(header), Fields(obs), t, S))
  }

  /** The translation of records under one header, as a mapping over records. */
  function Translator(header: Option<Header>): Data -> Option<Point> {
    (obs: Data) => Translate(obs, header)
  }

  /** The index of the first record whose timestamp does not parse, if there is one. */
  function FirstRejected(data: seq<Data>): (r: Option<nat>)
    ensures r.Some? ==> r.value < |data| && !Accepts(data[r.value])
    ensures forall j :: 0 <= j < |data| && (r.None? || j < r.value) ==> Accepts(data[j])
  {
    FirstNone(RecordTime, data)
  }

  /** How many records become points: all of them, or those before the first rejected one. */
  function Accepted(data: seq<Data>): (n: nat)
    ensures n <= |data|
  {
    match FirstRejected(data)
    case None => |data|
    case Some(i) => i
  }

  /** The points of a run, in array order, up to the first record whose timestamp does not parse. */
  function Points(data: seq<Data>, header: Option<Header>): (ps: seq<Point>)
    ensures |ps| <= |data|
    ensures forall j :: 0 <= j < |ps| ==> Translate(data[j], header) == Some(ps[j])
  {
    MapUntilNone(Translator(header), data)
  }

  /** Translation fails on exactly the records whose timestamp does not parse. */
  lemma TranslatorFailures(header: Option<Header>, data: seq<Data>)
    ensures FirstNone(Translator(header), data) == FirstRejected(data)
  {
    forall obs: Data
      ensures Translator(header)(obs).Some? == RecordTime(obs).Some?
    {
    }
    SameFailures(Translator(header), RecordTime, data);
  }

  /**
   * A record becomes a point exactly when its timestamp parses. The point is a
   * "weather-data" measurement with whole-second precision, exactly the twelve field keys,
   * and a timestamp that formats back to the record's `aifstime_utc` text.
   */
  lemma TranslateShape(obs: Data, header: Option<Header>)
    ensures Translate(obs, header).Some? <==> Accepts(obs)
    ensures Translate(obs, header).Some? ==>
      var p := Translate(obs, header).value;
      && p.measurement == Measurement
      && p.precision == S
      && p.fields == Fields(obs)
      && p.fields.Keys == FieldKeys
      && p.tags == Tags(header)
      && Valid(p.time)
      && FormatTimestamp(p.time) == obs.aifstimeUtc
  {
    if Accepts(obs) {
      FormatParse(obs.aifstimeUtc);
    }
  }

  /**
   * Every field but `rain_trace` is the same-named property of the record, unchanged; a null
   * property gives a null field.
   */
  lemma FieldsCopied(obs: Data)
    ensures var f := Fields(obs);
      && f[AirTemp] == FloatField(obs.airTemp)
      && f[ApparentT] == FloatField(obs.apparentT)
      && f[DeltaT] == FloatField(obs.deltaT)
      && f[RelHum] == IntegerField(obs.relHum)
      && f[Press] == FloatField(obs.press)
      && f[PressMsl] == FloatField(obs.pressMsl)
      && f[PressQnh] == FloatField(obs.pressQnh)
      && f[WindDir] == Some(Text(obs.windDir))
      && f[WindSpdKmh] == IntegerField(obs.windSpdKmh)
      && f[GustKmh] == IntegerField(obs.gustKmh)
      && f[Dewpt] == FloatField(obs.dewpt)
  {
    assert AirTemp in FieldKeys && ApparentT in FieldKeys && DeltaT in FieldKeys && RelHum in FieldKeys;
    assert RainTrace in FieldKeys && Press in FieldKeys && PressMsl in FieldKeys && PressQnh in FieldKeys;
    assert WindDir in FieldKeys && WindSpdKmh in FieldKeys && GustKmh in FieldKeys && Dewpt in FieldKeys;
  }

  /** `rain_trace` is the record's rain-trace text read as a decimal. */
  lemma TranslateRainTrace(obs: Data, header: Option<Header>)
    requires Accepts(obs)
    ensures Translate(obs, header).value.fields[RainTrace] == RainTraceField(obs.rainTrace)
  {
    assert RainTrace in FieldKeys;
  }

  /**
   * `rain_trace` is null exactly when its text is not a number: "-" gives a null field,
   * "0.0" a zero, and a null field is never produced for a text that parses.
   */
  lemma RainTraceNullVersusZero(text: string)
    ensures var f := RainTraceField(text);
      && (f.None? <==> ParseDecimal(text).None?)
      && (f.Some? ==> f.value.Exact? && InRange(f.value.x) && ParseDecimal(text) == Some(f.value.x))
      && (text == "-" ==> f.None?)
      && (text == "0.0" ==> f == Some(Exact(Decimal(0, 1))))
      && (text == "1.2" ==> f == Some(Exact(Decimal(12, 1))))
  {
    ParseDashFails();
    ParseZeroTrace();
    ParseOnePointTwo();
  }

  /** One point per record up to the first rejected record, and one per record when none is. */
  lemma PointsLength(data: seq<Data>, header: Option<Header>)
    ensures |Points(data, header)| == Accepted(data)
    ensures FirstRejected(data).None? ==> |Points(data, header)| == |data|
  {
    TranslatorFailures(header, data);
    MapUntilNoneLength(Translator(header), data);
  }

  /** Appending a record after accepted ones appends its point. */
  lemma PointsExtend(data: seq<Data>, obs: Data, header: Option<Header>, p: Point)
    requires FirstRejected(data) == None
    requires Translate(obs, header) == Some(p)
    ensures Points(data + [obs], header) == Points(data, header) + [p]
  {
    TranslatorFailures(header, data);
    MapUntilNoneExtend(Translator(header), data, obs, p);
  }

  /** Nothing from the first rejected record on contributes a point. */
  lemma PointsStopAt(data: seq<Data>, i: nat, header: Option<Header>)
    requires i < |data| && !Accepts(data[i])
    requires FirstRejected(data[..i]) == None
    ensures Points(data, header) == Points(data[..i], header)
    ensures FirstRejected(data) == Some(i)
  {
    TranslatorFailures(header, data[..i]);
    MapUntilNoneStop(Translator(header), data, i);
    MapUntilNoneStop(RecordTime, data, i);
  }

  /** A prefix with no rejected record stays so when the next record is accepted. */
  lemma FirstRejectedStep(data: seq<Data>, i: nat)
    requires i < |data| && Accepts(data[i])
    requires FirstRejected(data[..i]) == None
    ensures FirstRejected(data[..i + 1]) == None
  {
    FirstNoneStep(RecordTime, data, i);
  }

  /**
   * Every point of a run has the same shape: the same measurement, the same field keys and
   * the same tags, the header's location tags included.
   */
  lemma PointsUniform(data: seq<Data>, header: Option<Header>)
    ensures var ps := Points(data, header);
      forall j :: 0 <= j < |ps| ==>
        && ps[j].measurement == Measurement
        && ps[j].fields.Keys == FieldKeys
        && ps[j].tags == Tags(header)
        && ps[j].precision == S
        && FormatTimestamp(ps[j].time) == data[j].aifstimeUtc
  {
    var ps := Points(data, header);
    forall j | 0 <= j < |ps|
      ensures ps[j].measurement == Measurement && ps[j].fields.Keys == FieldKeys
      ensures ps[j].tags == Tags(header) && ps[j].precision == S
      ensures FormatTimestamp(ps[j].time) == data[j].aifstimeUtc
    {
      TranslateShape(data[j], header);
    }
  }

}
