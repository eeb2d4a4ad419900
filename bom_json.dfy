/**
 * The observation feed as the collector decodes it: one document holding notices, station
 * headers and the observation records. Only the properties the collector reads are kept.
 */
module BoMJson {
  import opened Wrappers

  /** A C# `double`, kept as its IEEE 754 bit pattern: the collector copies it and never computes with it. */
  datatype Double = Double(bits: bv64)

  /** A C# `int`. */
  newtype Int32 = x: int | -0x8000_0000 <= x < 0x8000_0000

  /** Attribution for the feed; only logged. */
  datatype Notice = Notice(copyright: string, copyrightUrl: string, disclaimerUrl: string, feedbackUrl: string)

  /** Station metadata; `id` and `mainId` are the JSON properties `ID` and `main_ID`. */
  datatype Header = Header(
    refreshMessage: string,
    id: string,
    mainId: string,
    name: string,
    stateTimeZone: string,
    timeZone: string,
    productName: string,
    state: string)

  /**
   * One observation record. Nullable numbers are `Option`s; `aifstimeUtc` and `rainTrace`
   * are the raw strings the collector parses.
   */
  datatype Data = Data(
    aifstimeUtc: string,
    airTemp: Option<Double>,
    apparentT: Option<Double>,
    deltaT: Option<Double>,
    relHum: Option<Int32>,
    rainTrace: string,
    press: Option<Double>,
    pressMsl: Option<Double>,
    pressQnh: Option<Double>,
    windDir: string,
    windSpdKmh: Option<Int32>,
    gustKmh: Option<Int32>,
    dewpt: Option<Double>)

  datatype Observations = Observations(notice: seq<Notice>, header: seq<Header>, data: seq<Data>)

  /** The decoded document. */
  datatype BoMData = BoMData(observations: Observations)

  /** `header.FirstOrDefault()`: the first station header, if the array has one. */
  function FirstHeader(document: BoMData): (h: Option<Header>)
    ensures h.Some? <==> |document.observations.header| > 0
    ensures h.Some? ==> h.value == document.observations.header[0]
  {
    if |document.observations.header| > 0 then Some(document.observations.header[0]) else None
  }

  /** `notice.FirstOrDefault()`: the first notice, if the array has one. */
  function FirstNotice(document: BoMData): (n: Option<Notice>)
    ensures n.Some? <==> |document.observations.notice| > 0
    ensures n.Some? ==> n.value == document.observations.notice[0]
  {
    if |document.observations.notice| > 0 then Some(document.observations.notice[0]) else None
  }

}
