/**
 * The loosely-typed values that cross the engine's boundary, with the few
 * Python 2 behaviours of them that the converters and validators rely on:
 * which values are iterable, which are mappings, truthiness, `str`, `repr`
 * and `==`.
 */
module Values {
  import opened Wrappers
  import Decimal

  datatype Value =
    | VNone                               // None
    | VBool(b: bool)                      // True, False
    | VInt(i: int)                        // int and long
    | VStr(s: string)                     // a string: no __iter__ in Python 2
    | VList(items: seq<Value>)            // a list
    | VTuple(items: seq<Value>)           // a tuple
    | VDict(entries: seq<(Value, Value)>) // a dict, its entries in iteration order
    | VObject(id: nat)                    // any other object: not iterable, not a number

  type Entries = seq<(Value, Value)>

  /** `hasattr(v, '__iter__')` in Python 2: lists, tuples and dicts, never strings. */
  predicate HasIter(v: Value)
  {
    v.VList? || v.VTuple? || v.VDict?
  }

  /** `hasattr(v, 'get')`: mappings only. */
  predicate HasGet(v: Value)
  {
    v.VDict?
  }

  function KeysOf(entries: Entries): (ks: seq<Value>)
    ensures |ks| == |entries|
    ensures forall i :: 0 <= i < |entries| ==> ks[i] == entries[i].0
  {
    seq(|entries|, i requires 0 <= i < |entries| => entries[i].0)
  }

  /** `list(v)` for a value with `__iter__`: a dict gives its keys. */
  function ListOf(v: Value): (xs: seq<Value>)
    requires HasIter(v)
    ensures v.VDict? ==> |xs| == |v.entries|
    ensures !v.VDict? ==> xs == v.items
  {
    match v
    case VList(items) => items
    case VTuple(items) => items
    case VDict(entries) => KeysOf(entries)
  }

  /**
   * What iterating over `v` produces, when it can be iterated at all: the
   * `__iter__` values and, through `__getitem__`, strings (one-character
   * strings).
   */
  function Iterate(v: Value): (r: Option<seq<Value>>)
    ensures HasIter(v) ==> r == Some(ListOf(v))
    ensures r.Some? <==> HasIter(v) || v.VStr?
  {
    match v
    case VStr(s) => Some(seq(|s|, i requires 0 <= i < |s| => VStr([s[i]])))
    case _ => if HasIter(v) then Some(ListOf(v)) else None
  }

  /** Whether `v` may be a dict key: lists and dicts may not, nor tuples holding them. */
  predicate Hashable(v: Value)
  {
    match v
    case VList(_) => false
    case VDict(_) => false
    case VTuple(items) => forall i :: 0 <= i < |items| ==> Hashable(items[i])
    case _ => true
  }

  /** `type(v).__name__`. */
  function TypeName(v: Value): string
  {
    match v
    case VNone => "NoneType"
    case VBool(_) => "bool"
    case VInt(_) => "int"
    case VStr(_) => "str"
    case VList(_) => "list"
    case VTuple(_) => "tuple"
    case VDict(_) => "dict"
    case VObject(_) => "object"
  }

  /** The type name `hash(v)` complains about: the first unhashable part of `v`. */
  function UnhashableName(v: Value): string
    requires !Hashable(v)
    decreases v, 1, 0
  {
    match v
    case VList(_) => "list"
    case VDict(_) => "dict"
    case VTuple(items) => UnhashableFrom(v, 0)
  }

  /** The name `hash` complains about for the items of a tuple from index `k` on. */
  function UnhashableFrom(t: Value, k: nat): string
    requires t.VTuple? && k <= |t.items|
    requires exists i :: k <= i < |t.items| && !Hashable(t.items[i])
    decreases t, 0, |t.items| - k
  {
    if !Hashable(t.items[k]) then UnhashableName(t.items[k]) else UnhashableFrom(t, k + 1)
  }

  /** Python truthiness. */
  predicate Truthy(v: Value)
  {
    match v
    case VNone => false
    case VBool(b) => b
    case VInt(i) => i != 0
    case VStr(s) => s != ""
    case VList(items) => items != []
    case VTuple(items) => items != []
    case VDict(entries) => entries != []
    case VObject(_) => true
  }

  function Join(sep: string, parts: seq<string>): string
  {
    if parts == [] then ""
    else if |parts| == 1 then parts[0]
    else parts[0] + sep + Join(sep, parts[1..])
  }

  /** `repr(v)`, without the escaping of quotes and control characters. */
  function Repr(v: Value): (r: string)
    ensures |r| > 0
  {
    match v
    case VNone => "None"
    case VBool(b) => if b then "True" else "False"
    case VInt(i) => Decimal.Render(i)
    case VStr(s) => "'" + s + "'"
    case VList(items) =>
      "[" + Join(", ", seq(|items|, i requires 0 <= i < |items| => Repr(items[i]))) + "]"
    case VTuple(items) =>
      "(" + Join(", ", seq(|items|, i requires 0 <= i < |items| => Repr(items[i])))
      + (if |items| == 1 then ",)" else ")")
    case VDict(entries) =>
      "{" + Join(", ", seq(|entries|, i requires 0 <= i < |entries| =>
                             Repr(entries[i].0) + ": " + Repr(entries[i].1))) + "}"
    case VObject(_) => "<object>"
  }

  /** `str(v)`: a string is itself, anything else its repr. */
  function ToStr(v: Value): string
  {
    if v.VStr? then v.s else Repr(v)
  }

  function LowerChar(c: char): char
  {
    if 'A' <= c <= 'Z' then (c as int + 32) as char else c
  }

  /** `str.lower()` on a byte string: ASCII letters only. */
  function Lower(s: string): (t: string)
    ensures |t| == |s|
    ensures forall i :: 0 <= i < |s| ==> t[i] == LowerChar(s[i])
  {
    seq(|s|, i requires 0 <= i < |s| => LowerChar(s[i]))
  }

  predicate IsNumber(v: Value)
  {
    v.VInt? || v.VBool?
  }

  /** The numeric value of a bool or an int (`True == 1`). */
  function NumberOf(v: Value): int
    requires IsNumber(v)
  {
    if v.VInt? then v.i else if v.b then 1 else 0
  }

  /**
   * Python's `==`: numbers compare by value across bool and int, lists and
   * tuples element-wise, dicts by their sets of entries, other objects by
   * identity.
   */
  predicate Equal(a: Value, b: Value)
    decreases a, 1, 0
  {
    if IsNumber(a) || IsNumber(b) then IsNumber(a) && IsNumber(b) && NumberOf(a) == NumberOf(b)
    else match a
      case VList(xs) =>
        b.VList? && |xs| == |b.items| && forall i :: 0 <= i < |xs| ==> Equal(xs[i], b.items[i])
      case VTuple(xs) =>
        b.VTuple? && |xs| == |b.items| && forall i :: 0 <= i < |xs| ==> Equal(xs[i], b.items[i])
      case VDict(es) =>
        b.VDict? && |es| == |b.entries| && forall i :: 0 <= i < |es| ==> HasEntry(es[i], b.entries)
      case _ => a == b
  }

  /** Some entry of `es` has a key equal to `p`'s and a value equal to `p`'s. */
  predicate HasEntry(p: (Value, Value), es: Entries)
    decreases p, 0, |es|
  {
    es != [] && ((Equal(p.0, es[0].0) && Equal(p.1, es[0].1)) || HasEntry(p, es[1..]))
  }
}
