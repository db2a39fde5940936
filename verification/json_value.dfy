/**
  JavaScript values as they travel through the state store and the legacy
  adapter, and the text helpers that turn them into strings.

  Only the shapes the store and the adapter distinguish are kept: `undefined`,
  `null`, booleans, numbers (integers only), strings and arrays.
 */
module JsonValue {

  datatype Value =
    | Undefined
    | Null
    | Bool(b: bool)
    | Num(n: int)
    | Str(s: string)
    | List(items: seq<Value>)

  /** The decimal digit for `d`. */
  function Digit(d: nat): (c: char)
    requires d < 10
    ensures '0' <= c <= '9'
  {
    "0123456789"[d]
  }

  /** Decimal text of a natural number, most significant digit first, without leading zeros. */
  function NatText(n: nat): (r: string)
    ensures |r| >= 1
    ensures forall i :: 0 <= i < |r| ==> '0' <= r[i] <= '9'
    decreases n
  {
    if n < 10 then [Digit(n)] else NatText(n / 10) + [Digit(n % 10)]
  }

  /** Decimal text of an integer, with a leading '-' for negative numbers. */
  function IntText(n: int): (r: string)
    ensures |r| >= 1
    ensures (r[0] == '-') <==> n < 0
  {
    if n < 0 then "-" + NatText(-n) else NatText(n)
  }

  /** The parts separated by single commas. */
  function Join(parts: seq<string>): (r: string)
  {
    if |parts| == 0 then ""
    else if |parts| == 1 then parts[0]
    else parts[0] + "," + Join(parts[1..])
  }

  /** The total length of the parts, counting one separator after each part. */
  function Weight(parts: seq<string>): (r: nat)
  {
    if |parts| == 0 then 0 else |parts[0]| + 1 + Weight(parts[1..])
  }

  /** A joined list is one character shorter than its weight (the last part has no separator). */
  lemma {:induction false} JoinLength(parts: seq<string>)
    ensures |parts| == 0 ==> |Join(parts)| == 0
    ensures |parts| > 0 ==> |Join(parts)| + 1 == Weight(parts)
  {
    if |parts| > 1 {
      JoinLength(parts[1..]);
    }
  }

  /** Weight is additive over concatenation. */
  lemma {:induction false} WeightAppend(a: seq<string>, b: seq<string>)
    ensures Weight(a + b) == Weight(a) + Weight(b)
    decreases |a|
  {
    if |a| == 0 {
      assert a + b == b;
    } else {
      assert (a + b)[1..] == a[1..] + b;
      WeightAppend(a[1..], b);
    }
  }

  /** Dropping one non-empty part makes the joined text strictly shorter. */
  lemma JoinDropShrinks(parts: seq<string>, i: nat)
    requires i < |parts|
    requires |parts[i]| >= 1
    ensures |Join(parts[..i] + parts[i + 1..])| < |Join(parts)|
  {
    var rest := parts[..i] + parts[i + 1..];
    assert parts == parts[..i] + ([parts[i]] + parts[i + 1..]);
    WeightAppend(parts[..i], [parts[i]] + parts[i + 1..]);
    WeightAppend([parts[i]], parts[i + 1..]);
    WeightAppend(parts[..i], parts[i + 1..]);
    JoinLength(parts);
    JoinLength(rest);
  }

  /**
    The deterministic text form of a value: `undefined` is written as `null`
    (as JSON.stringify does inside arrays), strings are quoted without escaping.
   */
  function EncodeValue(v: Value): (r: string)
    ensures |r| >= 1
    decreases v
  {
    match v
    case Undefined => "null"
    case Null => "null"
    case Bool(b) => if b then "true" else "false"
    case Num(n) => IntText(n)
    case Str(s) => "\"" + s + "\""
    case List(items) =>
      "[" + Join(seq(|items|, i requires 0 <= i < |items| => EncodeValue(items[i]))) + "]"
  }

  /**
    JavaScript's conversion of a value to a property key (ToString): arrays
    join their elements with commas, writing `null` and `undefined` elements
    as empty text.
   */
  function PropertyKey(v: Value): (r: string)
    ensures v.Str? ==> r == v.s
    decreases v
  {
    match v
    case Undefined => "undefined"
    case Null => "null"
    case Bool(b) => if b then "true" else "false"
    case Num(n) => IntText(n)
    case Str(s) => s
    case List(items) =>
      Join(seq(|items|, i requires 0 <= i < |items| =>
        if items[i].Undefined? || items[i].Null? then "" else PropertyKey(items[i])))
  }
}
