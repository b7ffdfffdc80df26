/** JavaScript values as they occur in data rows and feature properties, with
    the conversions the choropleth layer relies on: truthiness (`!x`),
    `String(x)` / `x.toString()`, property lookup on a plain object and the
    abstract equality `==`. */
module JsValue {

  datatype Option<T> = None | Some(value: T)

  /** A primitive JavaScript value. Numbers are modelled as integers. */
  datatype Value = Undefined | Null | Bool(b: bool) | Num(n: int) | Str(s: string)

  /** One own property of a plain object. */
  datatype Field = Field(key: string, value: Value)

  /** A plain object (a data row, the `properties` of a feature): its own
      properties in `Object.keys` order. */
  type Row = seq<Field>

  /** ToBoolean: `undefined`, `null`, `false`, `0` and `""` are falsy. */
  predicate Truthy(v: Value)
    ensures Truthy(v) <==> v !in {Undefined, Null, Bool(false), Num(0), Str("")}
  {
    match v
    case Undefined => false
    case Null => false
    case Bool(b) => b
    case Num(n) => n != 0
    case Str(s) => s != ""
  }

  function DigitChar(d: nat): char
    requires d < 10
  {
    "0123456789"[d]
  }

  /** Decimal digits of a natural number, without leading zeros. */
  function NatToString(n: nat): (r: string)
    ensures r != [] && IsDigit(r[0])
    ensures r[0] == '0' <==> n == 0
    decreases n
  {
    if n < 10 then [DigitChar(n)] else NatToString(n / 10) + [DigitChar(n % 10)]
  }

  /** `Number.prototype.toString()` on an integer. */
  function IntToString(n: int): (r: string)
    ensures r != [] && (r[0] == '-' || IsDigit(r[0]))
  {
    if n < 0 then "-" + NatToString(-n) else NatToString(n)
  }

  /** `String(v)`: the text a value has as a property key, and the text
      `v.toString()` gives for every value that has that method. */
  function ToStr(v: Value): (r: string)
    ensures Truthy(v) ==> r != ""
    ensures v.Str? ==> r == v.s
  {
    match v
    case Undefined => "undefined"
    case Null => "null"
    case Bool(b) => if b then "true" else "false"
    case Num(n) => IntToString(n)
    case Str(s) => s
  }

  /** `obj[key]` on a plain object: the first own property with that name,
      `undefined` when there is none. */
  function Get(row: Row, key: string): (r: Value)
    ensures (forall k :: 0 <= k < |row| ==> row[k].key != key) ==> r == Undefined
  {
    if row == [] then Undefined
    else if row[0].key == key then row[0].value
    else Get(row[1..], key)
  }

  /** Looking a key up finds the value of its first field. */
  lemma {:induction false} GetFirstField(row: Row, key: string, k: nat)
    requires k < |row| && row[k].key == key
    requires forall i :: 0 <= i < k ==> row[i].key != key
    ensures Get(row, key) == row[k].value
  {
    if k > 0 {
      assert row[0].key != key;
      GetFirstField(row[1..], key, k - 1);
    }
  }

  /** The names every plain object `{}` inherits from `Object.prototype`
      (ECMAScript section 20.1.3 and Annex B.2.2). Reading one of them from
      an empty object gives a function or an object, which is truthy. */
  const ObjectPrototypeKeys: set<string> := {
    "constructor", "hasOwnProperty", "isPrototypeOf", "propertyIsEnumerable",
    "toLocaleString", "toString", "valueOf", "__proto__",
    "__defineGetter__", "__defineSetter__", "__lookupGetter__", "__lookupSetter__"
  }

  predicate IsDigit(c: char) {
    '0' <= c <= '9'
  }

  function DigitsValue(s: string): (r: nat)
    requires forall i :: 0 <= i < |s| ==> IsDigit(s[i])
    decreases |s|
  {
    if s == [] then 0
    else
      assert IsDigit(s[|s| - 1]);
      10 * DigitsValue(s[..|s| - 1]) + (s[|s| - 1] as int - '0' as int)
  }

  predicate AllDigits(s: string) {
    s != [] && forall i :: 0 <= i < |s| ==> IsDigit(s[i])
  }

  /** `Number(s)` for the integer literals a location column holds: `""` is 0,
      an optionally signed run of decimal digits is its value, anything else
      is NaN (`None`). */
  function StringToNumber(s: string): (r: Option<int>)
    ensures AllDigits(s) ==> r == Some(DigitsValue(s))
  {
    if s == "" then Some(0)
    else if AllDigits(s) then Some(DigitsValue(s))
    else if (s[0] == '-' || s[0] == '+') && AllDigits(s[1..]) then
      var magnitude: int := DigitsValue(s[1..]);
      Some(if s[0] == '-' then -magnitude else magnitude)
    else None
  }

  /** The abstract equality `a == b` (ECMAScript section 7.2.15). */
  predicate LooseEquals(a: Value, b: Value)
    ensures a == b ==> LooseEquals(a, b)
    ensures (a.Null? || a.Undefined?) ==> (LooseEquals(a, b) <==> b.Null? || b.Undefined?)
    ensures a.Str? && b.Str? ==> (LooseEquals(a, b) <==> a == b)
  {
    match (a, b)
    case (Undefined, _) => b.Undefined? || b.Null?
    case (Null, _) => b.Undefined? || b.Null?
    case (_, Undefined) => false
    case (_, Null) => false
    case (Bool(x), Bool(y)) => x == y
    case (Bool(x), Num(m)) => m == (if x then 1 else 0)
    case (Bool(x), Str(t)) => StringToNumber(t) == Some(if x then 1 else 0)
    case (Num(n), Bool(y)) => n == (if y then 1 else 0)
    case (Num(n), Num(m)) => n == m
    case (Num(n), Str(t)) => StringToNumber(t) == Some(n)
    case (Str(s), Bool(y)) => StringToNumber(s) == Some(if y then 1 else 0)
    case (Str(s), Num(m)) => StringToNumber(s) == Some(m)
    case (Str(s), Str(t)) => s == t
  }

  /** `==` is symmetric, and two numbers or two booleans are loosely equal
      only when they are the same value. */
  lemma LooseEqualsLaws(a: Value, b: Value)
    ensures LooseEquals(a, b) <==> LooseEquals(b, a)
    ensures (a.Num? && b.Num?) || (a.Bool? && b.Bool?) ==> (LooseEquals(a, b) <==> a == b)
    ensures (b.Null? || b.Undefined?) ==> (LooseEquals(a, b) <==> a.Null? || a.Undefined?)
  {
  }

  /** A digit string and the number it spells are loosely equal, so a
      numeric location matches a textual one. */
  lemma LooseEqualsNumberText(n: nat)
    ensures LooseEquals(Num(n), Str(NatToString(n)))
  {
    NatToStringDigits(n);
  }

  lemma {:induction false} NatToStringDigits(n: nat)
    ensures AllDigits(NatToString(n))
    ensures DigitsValue(NatToString(n)) == n
    decreases n
  {
    if n >= 10 {
      NatToStringDigits(n / 10);
      var s := NatToString(n / 10) + [DigitChar(n % 10)];
      assert s[..|s| - 1] == NatToString(n / 10);
    }
  }
}
