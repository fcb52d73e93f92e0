// The JSON values the byte-level codecs exchange with serde_json
// (`serde_json::Value`). Numbers are integers here: the protobuf decoder
// only ever produces unsigned integers, and floating point is not modelled.
// An object is a map from keys to values; serde_json keeps its keys in a
// sorted map, so no insertion order is observable.

module JsonValue {
  datatype Json =
    | JNull
    | JBool(b: bool)
    | JNum(n: int)
    | JStr(s: string)
    | JArr(items: seq<Json>)
    | JObj(fields: map<string, Json>)
}
