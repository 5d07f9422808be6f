/** Loosely shaped JavaScript values, as caption records and request bodies
    arrive: an object is a map from property names to values, and a property
    that is absent reads as `undefined`. Arrays are not needed and not modelled. */
module JsValue {
  import opened JsString
  import opened JsNumber

  datatype Value =
    | Undefined
    | Null
    | Bool(b: bool)
    | Num(n: Number)
    | Str(s: string)
    | Obj(fields: map<string, Value>)

  type Record = map<string, Value>

  /** `r[k]`: an absent property reads as `undefined`. */
  function Get(r: Record, k: string): (v: Value)
    ensures k !in r ==> v == Undefined
  {
    if k in r then r[k] else Undefined
  }

  /** The values `??` skips. */
  predicate IsNullish(v: Value) {
    v.Undefined? || v.Null?
  }

  /** JavaScript truthiness: `undefined`, `null`, `false`, `0`, `NaN` and `""` are falsy. */
  predicate Truthy(v: Value) {
    match v
    case Undefined => false
    case Null => false
    case Bool(b) => b
    case Num(n) => !n.NaN? && n != Finite(0.0)
    case Str(s) => s != []
    case Obj(_) => true
  }

  /** `r[keys[0]] ?? r[keys[1]] ?? … ?? r[keys[n-1]]`: the first property that
      is neither `undefined` nor `null`, else the value of the last one. */
  function Coalesce(r: Record, keys: seq<string>): (v: Value)
    requires keys != []
    ensures forall i ::
              (0 <= i < |keys| && !IsNullish(Get(r, keys[i])) && forall j :: 0 <= j < i ==> IsNullish(Get(r, keys[j])))
              ==> v == Get(r, keys[i])
    ensures (forall i :: 0 <= i < |keys| ==> IsNullish(Get(r, keys[i]))) ==> v == Get(r, keys[|keys| - 1])
  {
    if |keys| == 1 || !IsNullish(Get(r, keys[0])) then Get(r, keys[0])
    else
      var v := Coalesce(r, keys[1..]);
      assert forall i :: 1 <= i < |keys| ==> keys[1..][i - 1] == keys[i];
      v
  }

  /** The first `??` operand that is defined, as an index, or -1. */
  function FirstDefined(r: Record, keys: seq<string>): (i: int)
    ensures -1 <= i < |keys|
    ensures i >= 0 ==> !IsNullish(Get(r, keys[i]))
    ensures forall j :: 0 <= j < |keys| && (i == -1 || j < i) ==> IsNullish(Get(r, keys[j]))
  {
    if keys == [] then -1
    else if !IsNullish(Get(r, keys[0])) then 0
    else
      var k := FirstDefined(r, keys[1..]);
      assert forall j :: 1 <= j < |keys| ==> keys[1..][j - 1] == keys[j];
      if k == -1 then -1 else k + 1
  }

  lemma CoalesceFirstDefined(r: Record, keys: seq<string>)
    requires keys != []
    ensures FirstDefined(r, keys) >= 0 ==> Coalesce(r, keys) == Get(r, keys[FirstDefined(r, keys)])
    ensures FirstDefined(r, keys) == -1 ==> IsNullish(Coalesce(r, keys))
  {
  }

  /** `String(v)`. Numbers are spelled out when they are integers below 10^21
      in magnitude; any other finite number is given the stand-in "". */
  function ToJsString(v: Value): string {
    match v
    case Undefined => "undefined"
    case Null => "null"
    case Bool(b) => if b then "true" else "false"
    case Num(n) =>
      (match n
       case NaN => "NaN"
       case Infinity(neg) => if neg then "-Infinity" else "Infinity"
       case Finite(x) =>
         if x == x.Floor as real && -1000000000000000000000.0 < x < 1000000000000000000000.0
         then IntToString(x.Floor) else "")
    case Str(s) => s
    case Obj(_) => "[object Object]"
  }

  /** `parseFloat(String(v))`. For a number this is the number itself, since
      JavaScript's number-to-string conversion round-trips through `parseFloat`. */
  function ParseFloatOf(v: Value): (n: Number)
    ensures v.Num? ==> n == v.n
    ensures v.Str? ==> n == ParseFloat(v.s)
  {
    if v.Num? then v.n else ParseFloat(ToJsString(v))
  }
}
