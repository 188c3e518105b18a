/**
 * JSON values as Python sees them after parsing: what FastAPI hands the
 * handler as its payload, what `json.loads` makes of the rules document,
 * and what the handler returns and writes to the audit table.
 */
module Json {

  /** A parsed JSON value; numbers are integers only (see README). */
  datatype Value =
    | Null
    | Bool(b: bool)
    | Number(n: int)
    | String(s: string)
    | Array(items: seq<Value>)
    | Object(fields: map<string, Value>)
}
