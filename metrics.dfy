/** What a collector hands to telegraf's accumulator: a measurement name,
    fields and tags, with the kind of call that added it. */
module Metrics {

  /** A field value: the collectors report numbers and strings. */
  datatype Value = Int(i: int) | Str(s: string)

  /** AddCounter, AddFields and AddGauge respectively. */
  datatype Kind = Counter | Untyped | Gauge

  datatype Metric = Metric(kind: Kind, name: string, fields: map<string, Value>, tags: map<string, string>)
}
