/** The parsed JSON (Fleece) values a query is written in, and the few
    accessors the query translator uses on them. */
module JsonValue {
  import opened Wrappers

  /** A JSON value. Non-integral numbers are kept as the text Fleece would
      print for them; dictionary contents are never inspected by the
      translator, so only their keys are kept. */
  datatype Json =
    | JNull
    | JBool(b: bool)
    | JInt(i: int)
    | JReal(text: string)
    | JString(s: string)
    | JData(bytes: seq<bv8>)
    | JArray(items: seq<Json>)
    | JDict(keys: seq<string>)

  /** A measure that shrinks from an array to each of its items. */
  function Size(j: Json): (n: nat)
    ensures n >= 1
    decreases j
  {
    match j
    case JArray(items) => 1 + SizeSeq(items)
    case _ => 1
  }

  function SizeSeq(s: seq<Json>): nat
    decreases s
  {
    if |s| == 0 then 0 else Size(s[0]) + SizeSeq(s[1..])
  }

  lemma {:induction false} SizeSeqDrop(s: seq<Json>, k: nat)
    requires k <= |s|
    ensures SizeSeq(s[k..]) <= SizeSeq(s)
    ensures k > 0 ==> SizeSeq(s[k..]) < SizeSeq(s)
    decreases k
  {
    if k > 0 {
      assert s[1..][k - 1..] == s[k..];
      SizeSeqDrop(s[1..], k - 1);
    }
  }

  lemma {:induction false} SizeSeqElement(s: seq<Json>, k: nat)
    requires k < |s|
    ensures Size(s[k]) <= SizeSeq(s)
    decreases k
  {
    if k > 0 {
      SizeSeqElement(s[1..], k - 1);
    }
  }

  function Digit(d: nat): char
    requires d < 10
  {
    "0123456789"[d]
  }

  predicate IsDigit(c: char) {
    '0' <= c <= '9'
  }

  /** Decimal rendering of a natural number, as `ostream << n` writes it. */
  function NatToString(n: nat): (r: string)
    ensures |r| >= 1
    ensures forall i :: 0 <= i < |r| ==> IsDigit(r[i])
    ensures DigitsValue(r) == n
    decreases n
  {
    if n < 10 then [Digit(n)] else NatToString(n / 10) + [Digit(n % 10)]
  }

  /** The number a string of decimal digits denotes (the inverse of NatToString). */
  function DigitsValue(s: string): nat
    requires forall i :: 0 <= i < |s| ==> IsDigit(s[i])
    decreases |s|
  {
    if |s| == 0 then 0
    else
      assert IsDigit(s[|s| - 1]);
      10 * DigitsValue(s[..|s| - 1]) + ((s[|s| - 1] as int) - ('0' as int))
  }

  /** Decimal rendering of a signed integer. */
  function IntToString(i: int): (r: string)
    ensures |r| >= 1
    ensures i < 0 <==> r[0] == '-'
    ensures var d := if i < 0 then r[1..] else r;
      |d| >= 1 && (forall k :: 0 <= k < |d| ==> IsDigit(d[k])) &&
      DigitsValue(d) == (if i < 0 then -i else i)
  {
    if i < 0 then
      var d := NatToString(-i);
      assert ("-" + d)[1..] == d;
      "-" + d
    else NatToString(i)
  }

  /** Fleece's `asString()`: the string of a string value, else a null slice. */
  function AsString(j: Json): Option<string> {
    if j.JString? then Some(j.s) else None
  }

  /** Fleece's `toString()` of a value: strings as themselves, numbers and
      specials as their JSON text; containers and data have no text. */
  function ToText(j: Json): string {
    match j
    case JNull => "null"
    case JBool(b) => if b then "true" else "false"
    case JInt(i) => IntToString(i)
    case JReal(t) => t
    case JString(s) => s
    case _ => ""
  }
}
