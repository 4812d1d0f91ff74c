/**
 * An already-decoded JSON document: what json.Unmarshal into `interface{}`
 * produces. Numbers keep their literal text, since nothing here does
 * arithmetic on them.
 */
module Json {

  datatype Value =
    | JNull
    | JBool(b: bool)
    | JNumber(literal: string)
    | JString(str: string)
    | JArray(elements: seq<Value>)
    | JObject(members: map<string, Value>)
}
