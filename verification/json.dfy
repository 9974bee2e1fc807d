/** The document a comment-tolerant JSON parser produces.

    The parser itself is a collaborator: it is passed in as a function that
    yields `None` where the real parser throws. */
module Json {
  import opened Results

  datatype JsonValue =
    | JNull
    | JBool(b: bool)
      /** numbers keep their literal text; their value never matters here */
    | JNumber(literal: string)
    | JString(text: string)
    | JArray(items: seq<JsonValue>)
      /** an object, after the parser has resolved duplicate keys */
    | JObject(fields: map<string, JsonValue>)

  type JsoncParser = string -> Option<JsonValue>
}
