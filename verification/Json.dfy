/** Decoded JSON as Python holds it. */
module Json {

  datatype Json =
    | Null
    | Bool(b: bool)
    | Number(n: real)
    | Text(s: string)
    | Array(elements: seq<Json>)
    | Object(fields: map<string, Json>)

  function GetField(fields: map<string, Json>, name: string, default: Json): Json {
    if name in fields then fields[name] else default
  }

  /** What counts as true in a condition. */
  predicate Truthy(j: Json) {
    match j
    case Null => false
    case Bool(b) => b
    case Number(n) => n != 0.0
    case Text(s) => s != ""
    case Array(es) => es != []
    case Object(fs) => fs != map[]
  }

  /** `a or b`. */
  function Or(a: Json, b: Json): Json {
    if Truthy(a) then a else b
  }

  /** The six values that count as false. */
  lemma FalsyIff(j: Json)
    ensures !Truthy(j) <==> j in {Null, Bool(false), Number(0.0), Text(""), Array([]), Object(map[])}
  {
  }

  /** The field is there and does not count as false. */
  predicate Holds(fields: map<string, Json>, name: string) {
    name in fields && fields[name] !in {Null, Bool(false), Number(0.0), Text(""), Array([]), Object(map[])}
  }

  lemma HoldsIff(fields: map<string, Json>, name: string)
    ensures Holds(fields, name) <==> Truthy(GetField(fields, name, Null))
    ensures Holds(fields, name) <==> Truthy(GetField(fields, name, Array([])))
  {
    FalsyIff(GetField(fields, name, Null));
    FalsyIff(GetField(fields, name, Array([])));
  }
}
