/**
  Parsed command files.

  A command file holds one JSON object (name, aliases, help, syntax, example,
  cooldown, permissions, donor, donor_tier, parameters, ...). The catalog does
  not interpret any field except "name", which is the lookup key, so a record
  is kept as an opaque map from field names to JSON values.
 */
module Records {

  datatype Option<+T> = None | Some(value: T)

  /** A JSON value as produced by the parser. Numbers are kept as their text. */
  datatype Json =
    | JNull
    | JBool(b: bool)
    | JNumber(literal: string)
    | JString(s: string)
    | JArray(items: seq<Json>)
    | JObject(fields: map<string, Json>)

  /** One command record: the JSON object a command file parses to. */
  type Record = map<string, Json>

  /**
    The test `cmd["name"] == command_name` of the lookup: the record has a
    "name" field and that field is the JSON string `n`. A missing field reads
    as nil and a non-string field (a number, say) never equals a string.
   */
  predicate HasName(r: Record, n: string) {
    "name" in r && r["name"] == JString(n)
  }

  /** A record answers to at most one name. */
  lemma NameIsUnique(r: Record, n1: string, n2: string)
    requires HasName(r, n1) && HasName(r, n2)
    ensures n1 == n2
  {
  }
}
