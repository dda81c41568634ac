/** Decoded JSON documents, as far as the pipeline looks into them. */
module Json {

  /** A JSON value; lists and objects the code never looks into are `Nested`. */
  datatype Value = Str(str: string) | Number(number: int) | Null | Nested

  /** A decoded JSON object. */
  type Object = map<string, Value>
}
