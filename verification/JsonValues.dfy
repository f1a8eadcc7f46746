/** JSON values. Objects are maps: the order of their fields is not modelled. */
module JsonValues {
  import opened Wrappers
  import opened Strings

  datatype Json =
    | JNull
    | JBool(b: bool)
    | JNum(n: real)
    | JStr(s: string)
    | JArr(items: seq<Json>)
    | JObj(fields: map<string, Json>)

  function Field(j: Json, name: string): Option<Json> {
    if j.JObj? && name in j.fields then Some(j.fields[name]) else None
  }

  function TextField(j: Json, name: string): Option<string> {
    match Field(j, name) case Some(JStr(s)) => Some(s) case _ => None
  }

  /** One step of a path: a field of an object, or an element or the length of an array. */
  function Member(j: Json, part: string): Option<Json> {
    match j
    case JObj(fields) => if part in fields then Some(fields[part]) else None
    case JArr(items) => if part == "length" then Some(JNum(|items| as real)) else Element(items, part, 0)
    case _ => None
  }

  function Element(items: seq<Json>, part: string, from: nat): Option<Json>
    requires from <= |items|
    decreases |items| - from
  {
    if from == |items| then None
    else if Decimal(from) == part then Some(items[from])
    else Element(items, part, from + 1)
  }

  function ReadParts(j: Json, parts: seq<string>): Option<Json>
    decreases |parts|
  {
    if parts == [] then Some(j)
    else match Member(j, parts[0]) case None => None case Some(next) => ReadParts(next, parts[1..])
  }

  function NonEmpty(parts: seq<string>): seq<string> {
    if parts == [] then []
    else if parts[0] == "" then NonEmpty(parts[1..])
    else [parts[0]] + NonEmpty(parts[1..])
  }

  /** A slash-separated path; nothing where the path leads nowhere. */
  function ReadPath(j: Json, path: string): Option<Json> {
    ReadParts(j, NonEmpty(Split(path, "/")))
  }
}
