/**
 * The validators: `Range`, `OneOf` and the composite `All`. A validator
 * accepts a value or rejects it with a message.
 */
module Validators {
  import opened Wrappers
  import opened Values
  import opened Errors
  import Decimal

  datatype Validator =
    | Range(min: Option<int>, max: Option<int>)  // None: no bound on that side
    | OneOf(choices: seq<Value>)                 // the choices, given as a list
    | All(validators: seq<Validator>)

  /**
   * `x < bound` in Python 2, for an integer bound: numbers compare by value,
   * None is smaller than any number, every other object is greater.
   */
  predicate Below(x: Value, bound: int)
  {
    if IsNumber(x) then NumberOf(x) < bound else x.VNone?
  }

  /** `x > bound` in Python 2, for an integer bound. */
  predicate Above(x: Value, bound: int)
  {
    if IsNumber(x) then NumberOf(x) > bound else !x.VNone?
  }

  /** `x in choices`: some choice is equal to `x`. */
  predicate Among(x: Value, choices: seq<Value>)
  {
    exists i :: 0 <= i < |choices| && Equal(x, choices[i])
  }

  /** Calling the validator on `x`: None when it passes, else the message it raises. */
  function Check(v: Validator, x: Value): Option<Message>
    decreases v, 1, 0
  {
    match v
    case Range(lo, hi) =>
      if lo.Some? && Below(x, lo.value) then
        Some(Text(Repr(x) + " is less than minimum value " + Decimal.Render(lo.value)))
      else if hi.Some? && Above(x, hi.value) then
        Some(Text(Repr(x) + " is greater than maximum value " + Decimal.Render(hi.value)))
      else None
    case OneOf(cs) =>
      if Among(x, cs) then None else Some(Text(Repr(x) + " is not one of " + Repr(VList(cs))))
    case All(vs) =>
      var msgs := Failed(v, x, |vs|);
      if msgs == [] then None else Some(Many(msgs))
  }

  /** The messages of the failing validators among the first `k` of an All, in order. */
  function Failed(v: Validator, x: Value, k: nat): seq<Message>
    requires v.All? && k <= |v.validators|
    decreases v, 0, k
  {
    if k == 0 then []
    else
      var r := Check(v.validators[k - 1], x);
      Failed(v, x, k - 1) + (if r.Some? then [r.value] else [])
  }

  /** Running a validator; the All validator calls its validators in turn. */
  method Run(v: Validator, x: Value) returns (r: Option<Message>)
    ensures r == Check(v, x)
    decreases v
  {
    match v {
      case Range(_, _) => r := Check(v, x);
      case OneOf(_) => r := Check(v, x);
      case All(vs) =>
        var msgs: seq<Message> := [];
        var i := 0;
        while i < |vs|
          invariant 0 <= i <= |vs|
          invariant msgs == Failed(v, x, i)
        {
          var e := Run(vs[i], x);
          if e.Some? {
            msgs := msgs + [e.value];
          }
          i := i + 1;
        }
        r := if msgs == [] then None else Some(Many(msgs));
    }
  }

  /** On an integer, Range passes exactly when it lies within the bounds that are given. */
  lemma RangeOnInt(lo: Option<int>, hi: Option<int>, i: int)
    ensures Check(Range(lo, hi), VInt(i)).None? <==>
      (lo.None? || lo.value <= i) && (hi.None? || i <= hi.value)
  {
  }

  /** The minimum is checked first: a value below both bounds is reported against the minimum. */
  lemma RangeMinFirst(lo: int, hi: Option<int>, x: Value)
    requires Below(x, lo)
    ensures Check(Range(Some(lo), hi), x) ==
      Some(Text(Repr(x) + " is less than minimum value " + Decimal.Render(lo)))
  {
  }

  /** Python 2 ordering: None is below every bound, a non-number above every bound. */
  lemma RangeOnOtherTypes(lo: int, hi: int, x: Value)
    requires !IsNumber(x)
    ensures Check(Range(Some(lo), None), x).Some? <==> x.VNone?
    ensures Check(Range(None, Some(hi)), x).Some? <==> !x.VNone?
  {
  }

  /** `==` on values is reflexive. */
  lemma {:induction false} EqualReflexive(x: Value)
    ensures Equal(x, x)
  {
    match x {
      case VList(xs) =>
        forall i | 0 <= i < |xs| ensures Equal(xs[i], xs[i]) { EqualReflexive(xs[i]); }
      case VTuple(xs) =>
        forall i | 0 <= i < |xs| ensures Equal(xs[i], xs[i]) { EqualReflexive(xs[i]); }
      case VDict(es) =>
        forall i | 0 <= i < |es| ensures HasEntry(es[i], es) {
          EqualReflexive(es[i].0);
          EqualReflexive(es[i].1);
          EntryListed(es[i], es, i);
        }
      case _ =>
    }
  }

  lemma {:induction false} EntryListed(p: (Value, Value), es: Entries, i: nat)
    requires i < |es| && Equal(p.0, es[i].0) && Equal(p.1, es[i].1)
    ensures HasEntry(p, es)
  {
    if i > 0 {
      EntryListed(p, es[1..], i - 1);
    }
  }

  /** OneOf accepts each of its choices, and rejects a value equal to none of them. */
  lemma OneOfChoices(cs: seq<Value>, x: Value)
    ensures x in cs ==> Check(OneOf(cs), x).None?
    ensures (forall i :: 0 <= i < |cs| ==> !Equal(x, cs[i])) ==> Check(OneOf(cs), x).Some?
  {
    if x in cs {
      var i :| 0 <= i < |cs| && cs[i] == x;
      EqualReflexive(x);
    }
  }

  /** `True in [1]`: OneOf compares bools and integers by value. */
  lemma OneOfBoolAndInt()
    ensures Check(OneOf([VInt(1)]), VBool(true)).None?
    ensures Check(OneOf([VInt(1)]), VBool(false)).Some?
  {
    assert Equal(VBool(true), [VInt(1)][0]);
  }

  /** The indices of the failing validators among the first `k`. */
  function FailingIndices(vs: seq<Validator>, x: Value, k: nat): seq<nat>
    requires k <= |vs|
  {
    if k == 0 then []
    else FailingIndices(vs, x, k - 1) + (if Check(vs[k - 1], x).Some? then [k - 1] else [])
  }

  /** The failing indices increase, each one fails, and none is left out. */
  lemma FailingIndicesExact(vs: seq<Validator>, x: Value, k: nat)
    requires k <= |vs|
    ensures forall j :: 0 <= j < |FailingIndices(vs, x, k)| ==>
      FailingIndices(vs, x, k)[j] < k && Check(vs[FailingIndices(vs, x, k)[j]], x).Some?
    ensures forall j, j' :: 0 <= j < j' < |FailingIndices(vs, x, k)| ==>
      FailingIndices(vs, x, k)[j] < FailingIndices(vs, x, k)[j']
    ensures forall i :: 0 <= i < k && Check(vs[i], x).Some? ==> i in FailingIndices(vs, x, k)
  {
    FailingIndicesFail(vs, x, k);
    forall i | 0 <= i < k && Check(vs[i], x).Some? ensures i in FailingIndices(vs, x, k) {
      FailingIndicesFind(vs, x, k, i);
    }
  }

  lemma {:induction false} FailingIndicesFail(vs: seq<Validator>, x: Value, k: nat)
    requires k <= |vs|
    ensures forall j :: 0 <= j < |FailingIndices(vs, x, k)| ==>
      FailingIndices(vs, x, k)[j] < k && Check(vs[FailingIndices(vs, x, k)[j]], x).Some?
    ensures forall j, j' :: 0 <= j < j' < |FailingIndices(vs, x, k)| ==>
      FailingIndices(vs, x, k)[j] < FailingIndices(vs, x, k)[j']
  {
    if k > 0 {
      FailingIndicesFail(vs, x, k - 1);
      var prev := FailingIndices(vs, x, k - 1);
      if Check(vs[k - 1], x).Some? {
        var idx := FailingIndices(vs, x, k);
        assert idx == prev + [k - 1];
        forall j | 0 <= j < |idx| ensures idx[j] < k && Check(vs[idx[j]], x).Some? {
          if j < |prev| { assert idx[j] == prev[j]; }
        }
        forall j, j' | 0 <= j < j' < |idx| ensures idx[j] < idx[j'] {
          assert idx[j] == prev[j];
          if j' < |prev| { assert idx[j'] == prev[j']; }
        }
      } else {
        assert FailingIndices(vs, x, k) == prev;
      }
    }
  }

  lemma {:induction false} FailingIndicesFind(vs: seq<Validator>, x: Value, k: nat, i: nat)
    requires i < k <= |vs| && Check(vs[i], x).Some?
    ensures i in FailingIndices(vs, x, k)
  {
    if i < k - 1 {
      FailingIndicesFind(vs, x, k - 1, i);
    }
  }

  /** The messages of an All's failing validators are theirs, index by index. */
  lemma {:induction false} FailedAtIndices(vs: seq<Validator>, x: Value, k: nat)
    requires k <= |vs|
    ensures |Failed(All(vs), x, k)| == |FailingIndices(vs, x, k)|
    ensures forall j :: 0 <= j < |FailingIndices(vs, x, k)| ==>
      FailingIndices(vs, x, k)[j] < |vs| && Check(vs[FailingIndices(vs, x, k)[j]], x) == Some(Failed(All(vs), x, k)[j])
  {
    if k > 0 {
      FailedAtIndices(vs, x, k - 1);
      var r := Check(vs[k - 1], x);
      assert All(vs).validators[k - 1] == vs[k - 1];
      if r.Some? {
        AlignedAppend(vs, x, FailingIndices(vs, x, k - 1), Failed(All(vs), x, k - 1), k - 1, r.value);
      }
    }
  }

  /** Recording one more failing validator keeps indices and messages aligned. */
  lemma AlignedAppend(vs: seq<Validator>, x: Value, idx: seq<nat>, msgs: seq<Message>, i: nat, m: Message)
    requires i < |vs| && Check(vs[i], x) == Some(m) && |msgs| == |idx|
    requires forall j :: 0 <= j < |idx| ==> idx[j] < |vs| && Check(vs[idx[j]], x) == Some(msgs[j])
    ensures forall j :: 0 <= j < |idx + [i]| ==>
      (idx + [i])[j] < |vs| && Check(vs[(idx + [i])[j]], x) == Some((msgs + [m])[j])
  {
  }

  lemma {:induction false} NoneFailed(vs: seq<Validator>, x: Value, k: nat)
    requires k <= |vs|
    requires forall i :: 0 <= i < k ==> Check(vs[i], x).None?
    ensures Failed(All(vs), x, k) == []
  {
    if k > 0 {
      NoneFailed(vs, x, k - 1);
    }
  }

  /** All passes exactly when every validator passes. */
  lemma AllPasses(vs: seq<Validator>, x: Value)
    ensures Check(All(vs), x).None? <==> forall i :: 0 <= i < |vs| ==> Check(vs[i], x).None?
  {
    FailedAtIndices(vs, x, |vs|);
    FailingIndicesExact(vs, x, |vs|);
    var idx := FailingIndices(vs, x, |vs|);
    if i :| 0 <= i < |vs| && Check(vs[i], x).Some? {
      assert i in idx;
    } else {
      NoneFailed(vs, x, |vs|);
    }
  }

  /** A failing All lists the messages of the failing validators, in their order. */
  lemma AllMessages(vs: seq<Validator>, x: Value)
    requires Check(All(vs), x).Some?
    ensures Check(All(vs), x).value.Many?
    ensures |Check(All(vs), x).value.parts| == |FailingIndices(vs, x, |vs|)|
    ensures forall j :: 0 <= j < |FailingIndices(vs, x, |vs|)| ==>
      FailingIndices(vs, x, |vs|)[j] < |vs| &&
      Check(vs[FailingIndices(vs, x, |vs|)[j]], x) == Some(Check(All(vs), x).value.parts[j])
  {
    FailedAtIndices(vs, x, |vs|);
  }
}
