/**
 * What a view receives from a request: a JSON body as Python's `json.loads`
 * decodes it, Python's truthiness of the decoded values, and the integer
 * coercion (`int(value)`) an integer key column applies to the value it is
 * compared with in a lookup.
 */
module Requests {
  import opened Wrappers
  import opened Models

  /** A decoded JSON value. Numbers with a fraction or an exponent are not
      part of this model. */
  datatype Json =
    | JNull
    | JBool(b: bool)
    | JInt(i: int)
    | JStr(s: string)
    | JArray(items: seq<Json>)
    | JObject(members: map<string, Json>)

  /** A request body as `json.loads` reads it: it raises `JSONDecodeError`
      (text that is not JSON), it raises another exception (bytes that are
      not valid UTF-8 raise `UnicodeDecodeError`, a too deeply nested value
      raises `RecursionError`), or it yields a value. */
  datatype Body = NotJson | Undecodable | JsonBody(value: Json)

  /** Python truthiness (`if not x`) of a decoded value. */
  predicate Truthy(v: Json) {
    match v
    case JNull => false
    case JBool(b) => b
    case JInt(i) => i != 0
    case JStr(s) => s != ""
    case JArray(items) => items != []
    case JObject(members) => members != map[]
  }

  /** `data[key]`: only an object holding the key yields a value; every
      other subscript raises (`KeyError` or `TypeError`). */
  function Subscript(data: Json, key: string): (r: Option<Json>)
    ensures r.Some? <==> data.JObject? && key in data.members
    ensures r.Some? ==> r.value == data.members[key]
  {
    match data
    case JObject(members) => if key in members then Some(members[key]) else None
    case _ => None
  }

  predicate IsDigit(c: char) {
    '0' <= c <= '9'
  }

  predicate AllDigits(s: string) {
    forall i :: 0 <= i < |s| ==> IsDigit(s[i])
  }

  /** The value of a string of decimal digits. */
  function DigitsValue(s: string): nat
    requires AllDigits(s)
  {
    if s == [] then 0 else 10 * DigitsValue(s[..|s| - 1]) + (s[|s| - 1] as int - '0' as int)
  }

  /** Python's `int(s)` on an unsigned numeral. */
  function ParseNatural(s: string): Option<nat> {
    if s != [] && AllDigits(s) then Some(DigitsValue(s)) else None
  }

  /** Python's `int(s)` on a string: an optional sign and at least one
      ASCII digit; anything else raises `ValueError`. Surrounding
      whitespace, digit-group underscores and non-ASCII digits, which
      Python also accepts, are not part of this model. */
  function ParseInt(s: string): Option<int> {
    if |s| > 0 && s[0] == '-' then
      match ParseNatural(s[1..])
      case Some(n) => Some(-(n as int))
      case None => None
    else if |s| > 0 && s[0] == '+' then
      match ParseNatural(s[1..])
      case Some(n) => Some(n)
      case None => None
    else
      match ParseNatural(s)
      case Some(n) => Some(n)
      case None => None
  }

  /** The coercion an integer key applies to a decoded value before a
      lookup: `bool` and `int` convert, a string converts when it is a
      numeral; `None`, lists and objects raise. */
  function AsKey(v: Json): Option<Id> {
    match v
    case JBool(b) => Some(if b then 1 else 0)
    case JInt(i) => Some(i)
    case JStr(s) => ParseInt(s)
    case _ => None
  }

  // ---------------------------------------------------------------------
  // Keys written in decimal, as they appear in a URL, read back as themselves
  // ---------------------------------------------------------------------

  function Digit(d: nat): char
    requires d < 10
  {
    ('0' as int + d) as char
  }

  /** The decimal numeral of a natural number. */
  function Numeral(n: nat): string
    decreases n
  {
    if n < 10 then [Digit(n)] else Numeral(n / 10) + [Digit(n % 10)]
  }

  /** The decimal numeral of a key, with a leading `-` when negative. */
  function KeyNumeral(k: Id): string {
    if k < 0 then "-" + Numeral(-k) else Numeral(k)
  }

  lemma {:induction false} NumeralReadsBack(n: nat)
    ensures Numeral(n) != [] && IsDigit(Numeral(n)[0])
    ensures AllDigits(Numeral(n)) && DigitsValue(Numeral(n)) == n
    decreases n
  {
    if n >= 10 {
      NumeralReadsBack(n / 10);
      var s := Numeral(n);
      assert s[..|s| - 1] == Numeral(n / 10);
    }
  }

  /** `int()` of a key's decimal numeral is that key. */
  lemma KeyNumeralReadsBack(k: Id)
    ensures ParseInt(KeyNumeral(k)) == Some(k)
  {
    if k < 0 {
      NumeralReadsBack(-k);
      assert KeyNumeral(k)[1..] == Numeral(-k);
    } else {
      NumeralReadsBack(k);
    }
  }
}
