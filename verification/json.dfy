/** An abstract JSON value, the shape a line of the capture process's output
    has after text parsing. Objects are maps from key to value. */
module Json {

  datatype Json =
    | JNull
    | JBool(b: bool)
    | JNumber(n: real)
    | JString(s: string)
    | JArray(items: seq<Json>)
    | JObject(fields: map<string, Json>)
}
