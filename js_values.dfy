/**
 * The JavaScript values the library passes around: attribute values, item
 * records, condition tuples (arrays) and thrown errors, together with the
 * string conversions the library relies on (`toString`, template literals,
 * `Array.prototype.join`).
 */
module JsValues {

  /** A JavaScript value as far as this library inspects it. */
  datatype Term =
    | Undef                              // `undefined`
    | Bool(b: bool)
    | Int(n: int)                        // a number with an integer value
    | Str(s: string)
    | Arr(elems: seq<Term>)              // an array
    | Obj(fields: map<string, Term>)     // a plain object

  /** A plain object, such as an item or a key. An absent key is a missing property. */
  type Record = map<string, Term>

  /**
   * The properties every plain object inherits from `Object.prototype`. A
   * read of one of them on an object that lacks it as its own property finds
   * the inherited member (a function, or the prototype for `__proto__`); the
   * model does not follow such reads.
   */
  const ObjectPrototypeKeys: set<string> := {
    "constructor", "hasOwnProperty", "isPrototypeOf", "propertyIsEnumerable",
    "toLocaleString", "toString", "valueOf", "__proto__",
    "__defineGetter__", "__defineSetter__", "__lookupGetter__", "__lookupSetter__"}

  /** `obj[k]` for an own property `k`: a missing property reads as `undefined`. */
  function Get(r: Record, k: string): Term {
    if k in r then r[k] else Undef
  }

  /** An error value that a call can throw. */
  datatype JsError =
    | Named(name: string, message: string)   // an `Error` with this `name` and `message`
    | ItemNotFound(itemKeys: Term)           // an `ItemNotFoundError`; its message text is built by a helper outside this model
    | ItemsNotFound(keys: seq<Record>)       // an `ItemsNotFoundError` holding the keys it was built from
    | EngineTypeError                        // the engine's `TypeError` (a property read on `undefined`, a call on a non-function)
    | InvalidNextToken                       // an `InvalidNextTokenError` (resume-token decoding failed)
    | Described(prefix: string, subject: Term) // an `Error` whose message is `prefix` followed by `JSON.stringify(subject)`
    | Opaque(id: nat)                        // an error object made by the caller's or the store's code

  // ---------------------------------------------------------------------------
  // Decimal text of integers (`Number.prototype.toString` for integer values)

  predicate IsDigit(c: char) { '0' <= c <= '9' }

  function DigitChar(d: nat): (c: char)
    requires d < 10
  {
    "0123456789"[d]
  }

  function DigitValue(c: char): nat
    requires IsDigit(c)
  {
    (c as int - '0' as int) as nat
  }

  /** The shortest decimal text of `n`, most significant digit first. */
  function NatText(n: nat): (s: string)
    ensures |s| > 0
    ensures forall k :: 0 <= k < |s| ==> IsDigit(s[k])
  {
    if n < 10 then [DigitChar(n)] else NatText(n / 10) + [DigitChar(n % 10)]
  }

  function IntText(i: int): string {
    if i < 0 then "-" + NatText(-i) else NatText(i)
  }

  /** Reads a run of decimal digits back as a number. */
  function ParseDigits(s: string): nat
    requires forall k :: 0 <= k < |s| ==> IsDigit(s[k])
  {
    if |s| == 0 then 0 else ParseDigits(s[..|s| - 1]) * 10 + DigitValue(s[|s| - 1])
  }

  /** Decimal text round-trips: parsing the text of `n` gives back `n`. */
  lemma {:induction false} ParseNatText(n: nat)
    ensures ParseDigits(NatText(n)) == n
  {
    var s := NatText(n);
    if n >= 10 {
      ParseNatText(n / 10);
      assert s[..|s| - 1] == NatText(n / 10);
    }
  }

  /** Distinct numbers have distinct decimal texts. */
  lemma NatTextInjective(a: nat, b: nat)
    ensures NatText(a) == NatText(b) ==> a == b
  {
    ParseNatText(a);
    ParseNatText(b);
  }

  /** JavaScript truthiness: `undefined`, `false`, 0 and the empty string are falsy; arrays and objects are truthy. */
  predicate Truthy(t: Term) {
    match t
    case Undef => false
    case Bool(b) => b
    case Int(n) => n != 0
    case Str(s) => s != ""
    case Arr(_) => true
    case Obj(_) => true
  }

  // ---------------------------------------------------------------------------
  // String conversion

  /** `parts.join(sep)`. */
  function Join(sep: string, parts: seq<string>): string {
    if |parts| == 0 then ""
    else if |parts| == 1 then parts[0]
    else parts[0] + sep + Join(sep, parts[1..])
  }

  /**
   * `String(t)`: the text a template literal, a property lookup or
   * `toString` produces. Arrays join their elements with ",", rendering
   * `undefined` elements as the empty string.
   */
  function Text(t: Term): string
    decreases t
  {
    match t
    case Undef => "undefined"
    case Bool(b) => if b then "true" else "false"
    case Int(n) => IntText(n)
    case Str(s) => s
    case Arr(es) => Join(",", ElementTexts(es))
    case Obj(_) => "[object Object]"
  }

  /** The texts `join` uses for the elements of an array: `undefined` becomes "". */
  function ElementTexts(es: seq<Term>): (ts: seq<string>)
    ensures |ts| == |es|
    decreases es
  {
    seq(|es|, k requires 0 <= k < |es| => if es[k].Undef? then "" else Text(es[k]))
  }
}
