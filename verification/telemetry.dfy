/**
  Telemetry records as the web exporter receives them from the decoders,
  and the validation step of `WebExporter.handle_telemetry`.

  A record is a dictionary from field names to values. The exporter never
  computes on a value: it tests field presence, copies values, and uses
  the `id` value as a dictionary key. Values are therefore opaque here.
*/
module Telemetry {
  import opened Wrappers

  /** A field value: a text, a rendered number, or a decoder-side datetime object. */
  datatype Value = Text(text: string) | Number(literal: string) | DateTime(iso: string)

  type Record = map<string, Value>

  /** What a producer can put on the queue: Python `None`, or a telemetry dictionary. */
  datatype Input = NoData | Telem(fields: Record)

  /** The decode-time datetime object, removed before a record is published. */
  const DateTimeField: string := "datetime_dt"

  /** `WebExporter.REQUIRED_FIELDS`, in the order the source checks them. */
  const RequiredFields: seq<string> :=
    ["frame", "id", "datetime", "lat", "lon", "alt", "temp", "type", "freq", "freq_float", DateTimeField]

  /** Why a queued item was dropped (the two `logging.error` paths). */
  datatype Rejection = NoneGiven | MissingField(name: string)

  datatype Checked = Valid(telem: Record) | Invalid(reason: Rejection)

  predicate HasAll(fields: seq<string>, r: Record)
  {
    forall i :: 0 <= i < |fields| ==> fields[i] in r
  }

  /** Index of the first name in `fields` that `r` lacks, if any. */
  function FirstMissing(fields: seq<string>, r: Record): (m: Option<nat>)
    ensures m.None? <==> HasAll(fields, r)
    ensures m.Some? ==> m.value < |fields| && fields[m.value] !in r
    ensures m.Some? ==> forall j :: 0 <= j < m.value ==> fields[j] in r
  {
    if |fields| == 0 then None
    else if fields[0] !in r then Some(0)
    else match FirstMissing(fields[1..], r)
      case None => None
      case Some(i) => Some(i + 1)
  }

  /** The copy that is published and stored: the input without `datetime_dt`. */
  function Strip(r: Record): (s: Record)
    ensures DateTimeField !in s
    ensures forall k :: k in r && k != DateTimeField ==> k in s && s[k] == r[k]
    ensures forall k :: k in s ==> k in r
  {
    r - {DateTimeField}
  }

  /** A record the store can merge: it names an id and a position. */
  predicate Mergeable(t: Record)
  {
    "id" in t && "lat" in t && "lon" in t && "alt" in t
  }

  /**
    The checks at the head of `handle_telemetry`: `None` is refused, then
    the required fields are checked in list order and the first missing one
    is reported; otherwise the stripped copy is passed on.
  */
  function Validate(input: Input): (c: Checked)
    ensures input.NoData? ==> c == Invalid(NoneGiven)
    ensures c.Valid? <==> input.Telem? && HasAll(RequiredFields, input.fields)
    ensures c.Valid? ==> c.telem == Strip(input.fields) && Mergeable(c.telem)
    ensures c.Invalid? && input.Telem? ==>
      exists i :: 0 <= i < |RequiredFields| && c.reason == MissingField(RequiredFields[i])
        && RequiredFields[i] !in input.fields
        && HasAll(RequiredFields[..i], input.fields)
  {
    match input
    case NoData => Invalid(NoneGiven)
    case Telem(fields) =>
      match FirstMissing(RequiredFields, fields)
      case Some(i) =>
        assert HasAll(RequiredFields[..i], fields);
        Invalid(MissingField(RequiredFields[i]))
      case None =>
        assert RequiredFields[1] in fields && RequiredFields[3] in fields;
        assert RequiredFields[4] in fields && RequiredFields[5] in fields;
        Valid(Strip(fields))
  }
}
