/**
 * JSON values as the transport sees them after `JSON.parse`, and the
 * serialiser/parser pair (`JSON.stringify` + UTF-8 encoding, UTF-8 decoding
 * + `JSON.parse`), which the model leaves abstract.
 */
module Json {
  import opened Wrappers

  newtype byte = b: int | 0 <= b < 256
  type Bytes = seq<byte>

  /** JSON numbers are modelled by their integer values. */
  datatype Json =
    | JNull
    | JBool(b: bool)
    | JNum(n: int)
    | JStr(s: string)
    | JArr(items: seq<Json>)
    | JObj(fields: map<string, Json>)

  /** `key in v` for an object `v`. */
  predicate Has(v: Json, key: string) {
    v.JObj? && key in v.fields
  }

  /** `v?.[key]`: the member stored under `key`, or None (undefined) when `v` is not an object or lacks it. */
  function Field(v: Json, key: string): (r: Option<Json>)
    ensures r.Some? <==> Has(v, key)
  {
    if Has(v, key) then Some(v.fields[key]) else None
  }

  /** JavaScript truthiness of a JSON value. */
  predicate Truthy(v: Json) {
    match v
    case JNull => false
    case JBool(b) => b
    case JNum(n) => n != 0
    case JStr(s) => s != []
    case _ => true
  }

  /** `a ?? b` on possibly-undefined members: `null` and undefined both fall through. */
  function Coalesce(a: Option<Json>, b: Option<Json>): Option<Json> {
    if a.Some? && a.value != JNull then a else b
  }

  /** The two halves of the wire encoding of a JSON value. */
  datatype JsonCodec = JsonCodec(serialize: Json -> Bytes, parse: Bytes -> Option<Json>)

  /** The property the transport relies on: parsing a serialised value gives it back. */
  ghost predicate Sound(c: JsonCodec) {
    forall m :: c.parse(c.serialize(m)) == Some(m)
  }
}
