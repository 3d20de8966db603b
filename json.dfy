/**
  Decoded JSON documents, as the converter receives them once the input text
  has been parsed, and the order in which keys are rendered on output.
 */
module Json {

  /** A decoded JSON value. Numbers are integers in this model. */
  datatype Json =
    | JNull
    | JBool(b: bool)
    | JNum(n: int)
    | JStr(s: string)
    | JArr(items: seq<Json>)
    | JObj(fields: map<string, Json>)

  /** One input record: an attribute map. */
  type Record = map<string, Json>

  /** Lexicographic order on strings by code point, the order of Python's `<` on `str`. */
  predicate StrLess(a: string, b: string)
  {
    if |a| == 0 then |b| > 0
    else if |b| == 0 then false
    else if a[0] != b[0] then a[0] < b[0]
    else StrLess(a[1..], b[1..])
  }

  lemma {:induction false} StrLessIrreflexive(a: string)
    ensures !StrLess(a, a)
  {
    if |a| > 0 {
      StrLessIrreflexive(a[1..]);
    }
  }

  lemma {:induction false} StrLessTransitive(a: string, b: string, c: string)
    requires StrLess(a, b) && StrLess(b, c)
    ensures StrLess(a, c)
  {
    if |a| > 0 && a[0] == b[0] && b[0] == c[0] {
      StrLessTransitive(a[1..], b[1..], c[1..]);
    }
  }

  lemma {:induction false} StrLessTotal(a: string, b: string)
    requires a != b
    ensures StrLess(a, b) || StrLess(b, a)
  {
    if |a| > 0 && |b| > 0 && a[0] == b[0] {
      assert a == [a[0]] + a[1..] && b == [b[0]] + b[1..];
      StrLessTotal(a[1..], b[1..]);
    }
  }

  /** Position of each kind of value in the key order used across kinds. */
  function Rank(v: Json): nat
  {
    match v
    case JNull => 0
    case JBool(_) => 1
    case JNum(_) => 2
    case JStr(_) => 3
    case JArr(_) => 4
    case JObj(_) => 5
  }

  /**
    The order in which map keys are rendered: strings by code point, numbers
    numerically, false before true; values of different kinds by Rank.
   */
  predicate KeyLess(a: Json, b: Json)
  {
    match (a, b)
    case (JBool(x), JBool(y)) => !x && y
    case (JNum(x), JNum(y)) => x < y
    case (JStr(x), JStr(y)) => StrLess(x, y)
    case _ => Rank(a) < Rank(b)
  }

  lemma KeyLessIrreflexive(a: Json)
    ensures !KeyLess(a, a)
  {
    if a.JStr? {
      StrLessIrreflexive(a.s);
    }
  }

  lemma KeyLessTransitive(a: Json, b: Json, c: Json)
    requires KeyLess(a, b) && KeyLess(b, c)
    ensures KeyLess(a, c)
  {
    if a.JStr? && b.JStr? && c.JStr? {
      StrLessTransitive(a.s, b.s, c.s);
    }
  }
}
