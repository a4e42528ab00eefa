/**
 * The scalar types: `Integer` and `Boolean`. A conversion either produces a
 * value or rejects the input with the message of the `Invalid` it raises.
 */
module Scalars {
  import opened Wrappers
  import opened Values
  import Decimal

  datatype Conversion = Converted(value: Value) | Rejected(msg: string)

  /** `int(x)`, or None for the TypeError or ValueError it raises. */
  function IntOf(x: Value): Option<int>
  {
    match x
    case VInt(i) => Some(i)
    case VBool(b) => Some(if b then 1 else 0)
    case VStr(s) => Decimal.Parse(s)
    case _ => None
  }

  /** `'%r' % x`: a tuple is the argument list itself, so only a one-item tuple formats. */
  function FormatRepr(x: Value): Option<string>
  {
    if x.VTuple? then (if |x.items| == 1 then Some(Repr(x.items[0])) else None)
    else Some(Repr(x))
  }

  /** The message of the Integer type, with the value's repr. */
  function NotANumber(x: Value): string
  {
    Repr(x) + " is not a number"
  }

  /** `Integer.deserialize`: `int(x)`. */
  function IntegerDeserialize(x: Value): Conversion
  {
    match IntOf(x)
    case None => Rejected(NotANumber(x))
    case Some(i) => Converted(VInt(i))
  }

  /** `Integer.serialize`: `str(int(x))`. */
  function IntegerSerialize(x: Value): Conversion
  {
    match IntOf(x)
    case None => Rejected(NotANumber(x))
    case Some(i) => Converted(VStr(Decimal.Render(i)))
  }

  /**
   * `Integer.deserialize` as written: the message is built with
   * `'%r is not a number' % value`; None is the TypeError that formatting
   * raises for a tuple that is not of length one.
   */
  function IntegerDeserializeAsWritten(x: Value): Option<Conversion>
  {
    match IntOf(x)
    case Some(i) => Some(Converted(VInt(i)))
    case None =>
      match FormatRepr(x)
      case None => None
      case Some(r) => Some(Rejected(r + " is not a number"))
  }

  /** `Integer.serialize` as written: the same `%` formatting builds its message. */
  function IntegerSerializeAsWritten(x: Value): Option<Conversion>
  {
    match IntOf(x)
    case Some(i) => Some(Converted(VStr(Decimal.Render(i))))
    case None =>
      match FormatRepr(x)
      case None => None
      case Some(r) => Some(Rejected(r + " is not a number"))
  }

  /** `Boolean.deserialize`: `str(x).lower()` is false exactly for `false` and `0`. */
  function BooleanDeserialize(x: Value): Value
  {
    VBool(!(Lower(ToStr(x)) in ["false", "0"]))
  }

  /** `Boolean.serialize`: `value and 'true' or 'false'`. */
  function BooleanSerialize(x: Value): Value
  {
    VStr(if Truthy(x) then "true" else "false")
  }

  /** What the Integer type accepts: numbers, and strings that `int()` parses. */
  lemma IntegerAccepts(x: Value)
    ensures IntegerDeserialize(x).Converted? <==> IsNumber(x) || (x.VStr? && Decimal.Parse(x.s).Some?)
    ensures IntegerDeserialize(x).Converted? <==> IntegerSerialize(x).Converted?
    ensures IsNumber(x) ==> IntegerDeserialize(x) == Converted(VInt(NumberOf(x)))
    ensures IntegerDeserialize(x).Rejected? ==> IntegerDeserialize(x).msg == IntegerSerialize(x).msg == NotANumber(x)
  {
  }

  /** Serializing an integer and deserializing the text gives the integer back. */
  lemma IntegerRoundTrip(i: int)
    ensures IntegerSerialize(VInt(i)) == Converted(VStr(Decimal.Render(i)))
    ensures IntegerDeserialize(VStr(Decimal.Render(i))) == Converted(VInt(i))
  {
    RenderedParses(i);
  }

  lemma RenderedParses(i: int)
    ensures IntOf(VStr(Decimal.Render(i))) == Some(i)
  {
    Decimal.ParseRender(i);
  }

  /**
   * Whatever the Integer type serializes deserializes to the number it stood
   * for, and serializing the output again changes nothing.
   */
  lemma IntegerSerializeStable(x: Value)
    requires IntegerSerialize(x).Converted?
    ensures IntegerDeserialize(IntegerSerialize(x).value) == IntegerDeserialize(x)
    ensures IntegerSerialize(IntegerSerialize(x).value) == IntegerSerialize(x)
  {
    var i := IntOf(x).value;
    var t := VStr(Decimal.Render(i));
    assert IntegerSerialize(x) == Converted(t);
    RenderedParses(i);
    assert IntegerDeserialize(t) == Converted(VInt(i));
    assert IntegerSerialize(t) == Converted(t);
  }

  /** Off tuples, the source's message formatting agrees with the corrected one. */
  lemma IntegerAsWrittenAgrees(x: Value)
    requires !x.VTuple?
    ensures IntegerDeserializeAsWritten(x) == Some(IntegerDeserialize(x))
    ensures IntegerSerializeAsWritten(x) == Some(IntegerSerialize(x))
  {
  }

  /**
   * On any tuple whose length is not one, both conversions as written raise
   * TypeError, where the corrected ones reject the value as not a number.
   */
  lemma IntegerAsWrittenRaises(x: Value)
    requires x.VTuple? && |x.items| != 1
    ensures IntegerDeserializeAsWritten(x).None? && IntegerSerializeAsWritten(x).None?
    ensures IntegerDeserialize(x) == IntegerSerialize(x) == Rejected(NotANumber(x))
  {
  }

  /** On the empty tuple, the source's formatting raises TypeError. */
  lemma IntegerAsWrittenEmptyTuple()
    ensures IntegerDeserializeAsWritten(VTuple([])).None?
    ensures IntegerDeserialize(VTuple([])) == Rejected("() is not a number")
  {
    IntegerAsWrittenRaises(VTuple([]));
    assert NotANumber(VTuple([])) == "() is not a number" by {
      assert Repr(VTuple([])) == "()" by {
        var items: seq<Value> := [];
        assert seq(|items|, i requires 0 <= i < |items| => Repr(items[i])) == [];
      }
      assert "()" + " is not a number" == "() is not a number";
    }
  }

  /** On a tuple of two items, the source's formatting raises TypeError. */
  lemma IntegerAsWrittenPair(a: Value, b: Value)
    ensures IntegerDeserializeAsWritten(VTuple([a, b])).None?
    ensures IntegerDeserialize(VTuple([a, b])).Rejected?
  {
  }

  /** On a one-item tuple, the source's message reports the item, not the tuple. */
  lemma IntegerAsWrittenSingleton()
    ensures IntegerDeserializeAsWritten(VTuple([VStr("x")])) == Some(Rejected("'x' is not a number"))
    ensures IntegerDeserialize(VTuple([VStr("x")])) == Rejected("('x',) is not a number")
  {
    var items := [VStr("x")];
    assert IntegerDeserializeAsWritten(VTuple(items)) == Some(Rejected("'x' is not a number")) by {
      assert FormatRepr(VTuple(items)) == Some("'x'") by {
        assert Repr(items[0]) == "'x'";
      }
      assert "'x'" + " is not a number" == "'x' is not a number";
    }
    assert IntegerDeserialize(VTuple(items)) == Rejected("('x',) is not a number") by {
      assert Repr(VTuple(items)) == "('x',)" by {
        assert Repr(items[0]) == "'x'";
        assert seq(|items|, i requires 0 <= i < |items| => Repr(items[i])) == ["'x'"];
        assert Values.Join(", ", ["'x'"]) == "'x'";
      }
      assert "('x',)" + " is not a number" == "('x',) is not a number";
    }
  }

  /** Lower-casing keeps a character that is not an upper-case letter. */
  lemma LowerKeeps(s: string, k: nat)
    requires k < |s| && !('A' <= s[k] <= 'Z')
    ensures Lower(s)[k] == s[k]
  {
  }

  /**
   * Exactly False, 0 and the strings `false` and `0` (in any case, without
   * surrounding blanks) deserialize to False.
   */
  lemma BooleanFalseValues(x: Value)
    ensures BooleanDeserialize(x) == VBool(false) <==>
      x == VBool(false) || x == VInt(0) || (x.VStr? && Lower(x.s) in ["false", "0"])
  {
    var t := ToStr(x);
    match x {
      case VStr(_) =>
      case VBool(b) =>
        if b {
          assert Lower(t)[1] == 'r';
        } else {
          var l := Lower(t);
          assert l[0] == 'f' && l[1] == 'a' && l[2] == 'l' && l[3] == 's' && l[4] == 'e';
          assert l == "false";
        }
      case VInt(i) =>
        LowerKeeps(t, 0);
        if |t| == 1 {
          assert Lower(t) == [t[0]] && t == [t[0]];
        }
      case VNone =>
        assert Lower(t)[0] == 'n';
      case VList(_) =>
        LowerKeeps(t, 0);
      case VTuple(_) =>
        LowerKeeps(t, 0);
      case VDict(_) =>
        LowerKeeps(t, 0);
      case VObject(_) =>
        LowerKeeps(t, 0);
    }
  }

  /** Serializing a value and deserializing the text gives its truth value. */
  lemma BooleanRoundTrip(x: Value)
    ensures BooleanDeserialize(BooleanSerialize(x)) == VBool(Truthy(x))
  {
    var t := if Truthy(x) then "true" else "false";
    assert Lower(t) == t;
    if Truthy(x) {
      assert t != "false" && t != "0";
    }
  }

  /** Deserializing what was deserialized and serialized gives the same bool. */
  lemma BooleanStable(x: Value)
    ensures BooleanDeserialize(BooleanSerialize(BooleanDeserialize(x))) == BooleanDeserialize(x)
  {
    BooleanRoundTrip(BooleanDeserialize(x));
  }
}
