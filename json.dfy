/**
 * Parsed JSON values and the org.json accessors the extractor calls. Each
 * accessor either returns the value or throws a `JSONException`, modelled as a
 * `Failure` carrying a `JsonError`.
 */
module Json {
  import opened Wrappers
  import opened JavaInt

  /**
   * A parsed JSON value. `JOther` stands for `null`, `true`, `false` and every
   * number that is not a Java `int`.
   */
  datatype Json =
    | JObject(members: map<string, Json>)
    | JArray(elements: seq<Json>)
    | JString(text: string)
    | JInt(number: int32)
    | JOther

  /** The place an accessor looked: the whole text, a key, or an array index. */
  datatype Location = Root | Key(name: string) | Index(index: nat)

  /** The JSON types an accessor can demand. */
  datatype Kind = ObjectKind | ArrayKind | StringKind | IntKind

  /** Why an org.json call threw. */
  datatype JsonError =
    | Syntax(message: string)
    | NoValue(name: string)
    | OutOfRange(index: nat, length: nat)
    | TypeMismatch(at: Location, required: Kind)

  /** `JSONObject.get(name)`. */
  function Get(obj: map<string, Json>, name: string): (r: Result<Json, JsonError>)
    ensures r.Success? <==> name in obj
    ensures r.Success? ==> r.value == obj[name]
    ensures r.Failure? ==> r.error == NoValue(name)
  {
    if name in obj then Success(obj[name]) else Failure(NoValue(name))
  }

  /** `JSONObject.getString(name)`, without org.json's conversion of non-strings to text. */
  function GetString(obj: map<string, Json>, name: string): (r: Result<string, JsonError>)
    ensures r.Success? <==> name in obj && obj[name].JString?
    ensures r.Success? ==> r.value == obj[name].text
  {
    var v :- Get(obj, name);
    if v.JString? then Success(v.text) else Failure(TypeMismatch(Key(name), StringKind))
  }

  /** `JSONObject.getInt(name)`, without org.json's conversion of strings and doubles. */
  function GetInt(obj: map<string, Json>, name: string): (r: Result<int32, JsonError>)
    ensures r.Success? <==> name in obj && obj[name].JInt?
    ensures r.Success? ==> r.value == obj[name].number
  {
    var v :- Get(obj, name);
    if v.JInt? then Success(v.number) else Failure(TypeMismatch(Key(name), IntKind))
  }

  /** `JSONObject.getJSONArray(name)`. */
  function GetArray(obj: map<string, Json>, name: string): (r: Result<seq<Json>, JsonError>)
    ensures r.Success? <==> name in obj && obj[name].JArray?
    ensures r.Success? ==> r.value == obj[name].elements
  {
    var v :- Get(obj, name);
    if v.JArray? then Success(v.elements) else Failure(TypeMismatch(Key(name), ArrayKind))
  }

  /** `JSONObject.getJSONObject(name)`. */
  function GetObject(obj: map<string, Json>, name: string): (r: Result<map<string, Json>, JsonError>)
    ensures r.Success? <==> name in obj && obj[name].JObject?
    ensures r.Success? ==> r.value == obj[name].members
  {
    var v :- Get(obj, name);
    if v.JObject? then Success(v.members) else Failure(TypeMismatch(Key(name), ObjectKind))
  }

  /** `JSONArray.getString(index)`. */
  function ElementString(arr: seq<Json>, index: nat): (r: Result<string, JsonError>)
    ensures r.Success? <==> index < |arr| && arr[index].JString?
    ensures r.Success? ==> r.value == arr[index].text
  {
    if |arr| <= index then Failure(OutOfRange(index, |arr|))
    else if arr[index].JString? then Success(arr[index].text)
    else Failure(TypeMismatch(Index(index), StringKind))
  }

  /** A value seen as an object, as `new JSONObject(text)` and `JSONArray.getJSONObject(i)` demand. */
  function AsObject(v: Json, at: Location): (r: Result<map<string, Json>, JsonError>)
    ensures r.Success? <==> v.JObject?
    ensures r.Success? ==> r.value == v.members
  {
    if v.JObject? then Success(v.members) else Failure(TypeMismatch(at, ObjectKind))
  }

  function KindName(k: Kind): string {
    match k
    case ObjectKind => "JSONObject"
    case ArrayKind => "JSONArray"
    case StringKind => "String"
    case IntKind => "int"
  }

  function LocationText(at: Location): string {
    match at
    case Root => "the top level"
    case Key(name) => name
    case Index(i) => ValueOf(if i <= IntMax then i else IntMax)
  }

  /** What `JSONException.toString()` yields: the class name, then the message. */
  function ExceptionText(e: JsonError): string {
    "org.json.JSONException: " +
    match e
    case Syntax(message) => message
    case NoValue(name) => "No value for " + name
    case OutOfRange(i, n) =>
      "Index " + ValueOf(if i <= IntMax then i else IntMax) +
      " out of range [0.." + ValueOf(if n <= IntMax then n else IntMax) + ")"
    case TypeMismatch(at, k) => "Value at " + LocationText(at) + " cannot be converted to " + KindName(k)
  }
}
