/** A JSON document and the SwiftyJSON accessors the catalog decoders use:
    subscripting by key, `.string`, `.int`, `.intValue` and `.array`. */
module Json {
  import opened Results
  import Decimal

  /** Numbers are integers; a key that is missing and an explicit `null` both read as `JNull`. */
  datatype JSON =
    | JNull
    | JBool(b: bool)
    | JNumber(n: int)
    | JString(s: string)
    | JArray(items: seq<JSON>)
    | JObject(fields: map<string, JSON>)

  /** `json[key]`: the member of an object, or null when the key is missing or `json` is not an object. */
  function Member(j: JSON, key: string): (v: JSON)
    ensures HasKey(j, key) ==> v == j.fields[key]
    ensures !HasKey(j, key) ==> v == JNull
  {
    if j.JObject? && key in j.fields then j.fields[key] else JNull
  }

  /** `.string`: only a JSON string has a string view. */
  function AsString(j: JSON): Option<string> {
    if j.JString? then Some(j.s) else None
  }

  /** `.int`: numbers, and booleans viewed as the numbers 0 and 1. */
  function AsInt(j: JSON): Option<int> {
    match j
    case JNumber(n) => Some(n)
    case JBool(b) => Some(if b then 1 else 0)
    case _ => None
  }

  /** `.intValue`: like `.int`, except that a string is read as decimal text and everything
      else, null included, is 0. */
  function AsIntValue(j: JSON): int {
    match j
    case JNumber(n) => n
    case JBool(b) => if b then 1 else 0
    case JString(s) => (match Decimal.ParseInt(s) case Some(n) => n case None => 0)
    case _ => 0
  }

  /** `.array`: only a JSON array has an array view. */
  function AsArray(j: JSON): Option<seq<JSON>> {
    if j.JArray? then Some(j.items) else None
  }

  predicate HasKey(j: JSON, key: string) {
    j.JObject? && key in j.fields
  }

  /** The object `j` holds exactly the value `v` under `key`. */
  predicate Holds(j: JSON, key: string, v: JSON) {
    HasKey(j, key) && j.fields[key] == v
  }

  predicate HasString(j: JSON, key: string) {
    HasKey(j, key) && j.fields[key].JString?
  }

  /** `key` holds a value with an `.int` view: a number or a boolean. */
  predicate HasInt(j: JSON, key: string) {
    HasKey(j, key) && (j.fields[key].JNumber? || j.fields[key].JBool?)
  }

  predicate HasArray(j: JSON, key: string) {
    HasKey(j, key) && j.fields[key].JArray?
  }

  /** The field policy for optional strings: `Some(s)` exactly when `key` holds the string `s`. */
  ghost predicate StringField(j: JSON, key: string, f: Option<string>) {
    forall s :: f == Some(s) <==> Holds(j, key, JString(s))
  }

  /** The field policy for zero-defaulting integers: never `nil`, a number reads as itself,
      and a missing key or `null` reads as 0. */
  ghost predicate IntField(j: JSON, key: string, f: Option<int>) {
    && f.Some?
    && (forall n :: Holds(j, key, JNumber(n)) ==> f == Some(n))
    && (!HasKey(j, key) || Holds(j, key, JNull) ==> f == Some(0))
  }

  /** `json[key].string` follows the optional-string policy. */
  lemma StringMember(j: JSON, key: string)
    ensures StringField(j, key, AsString(Member(j, key)))
  {
  }

  /** `json[key].intValue` follows the zero-defaulting integer policy. */
  lemma IntValueMember(j: JSON, key: string)
    ensures IntField(j, key, Some(AsIntValue(Member(j, key))))
  {
  }

  /** A string without a single digit, such as "not-a-number", reads as 0 under `.intValue`,
      never as a failure. */
  lemma IntValueOfDigitlessString(s: string)
    requires forall i :: 0 <= i < |s| ==> !Decimal.IsDigit(s[i])
    ensures AsIntValue(JString(s)) == 0
  {
    if |s| > 0 {
      assert !Decimal.IsDigit(s[0]);
      if |s| > 1 {
        assert !Decimal.IsDigit(s[1..][0]);
      }
    }
  }

  /** `json[key].int` is present exactly when `key` holds a number or a boolean. */
  lemma IntMember(j: JSON, key: string)
    ensures AsInt(Member(j, key)).Some? <==> HasInt(j, key)
    ensures forall n :: Holds(j, key, JNumber(n)) ==> AsInt(Member(j, key)) == Some(n)
  {
  }
}
