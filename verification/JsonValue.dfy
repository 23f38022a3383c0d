/** The values that the JSON parser returns; a `BTreeMap` is a map, its order is in `KeyOrder`. */
module JsonValues {
  datatype JsonValue =
    | Null
    | Bool(value: bool)
    | Number(text: string)
    | String(chars: string)
    | Array(items: seq<JsonValue>)
    | Object(members: map<string, JsonValue>)
}
