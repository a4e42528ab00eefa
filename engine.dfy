/**
 * The conversion as the source performs it: each composite type loops over
 * its subnodes, appending converted values to a result and failures to a
 * lazily created error, and the mapping pops each subnode's key from its copy
 * of the input. Each method is proved to compute the function of the
 * `Schema` module that specifies it.
 */
module Engine {
  import opened Wrappers
  import opened Values
  import opened Types
  import opened Errors
  import opened Validators
  import opened Schema
  import Dicts

  /** `SchemaNode.deserialize`. */
  method DeserializeNode(n: Node, x: Value) returns (r: Outcome)
    ensures r == Convert(n, Deserialize, x)
  {
    r := ConvertNode(n, Deserialize, x);
  }

  /** `SchemaNode.serialize`. */
  method SerializeNode(n: Node, x: Value) returns (r: Outcome)
    ensures r == Convert(n, Serialize, x)
  {
    r := ConvertNode(n, Serialize, x);
  }

  method ConvertNode(n: Node, d: Direction, x: Value) returns (r: Outcome)
    ensures r == Convert(n, d, x)
    decreases n, 5
  {
    r := TypeConvertNode(n, d, x);
    if d.Deserialize? && r.Ok? && n.validator.Some? {
      var m := Run(n.validator.value, r.value);
      if m.Some? {
        r := Err(Reject(n, Some(m.value)));
      }
    }
  }

  method TypeConvertNode(n: Node, d: Direction, x: Value) returns (r: Outcome)
    ensures r == TypeConvert(n, d, x)
    decreases n, 4
  {
    match n.typ {
      case Integer => r := TypeConvert(n, d, x);
      case Boolean => r := TypeConvert(n, d, x);
      case Tuple => r := TupleImpl(n, d, x);
      case Sequence(_) => r := SequenceImpl(n, d, x);
      case Mapping(_) => r := MappingImpl(n, d, x);
    }
  }

  /** `Tuple._impl`. */
  method TupleImpl(n: Node, d: Direction, x: Value) returns (r: Outcome)
    ensures r == TupleConvert(n, d, x)
    decreases n, 3
  {
    var c := TupleValidate(n, x);
    if c.Refused? {
      return Err(c.error);
    }
    ghost var outs := TupleOutcomes(n, d, c.value);
    r := TupleItems(n, d, c.value, outs);
  }

  /**
   * The loop of `Tuple._impl`: each subnode converts the item at its
   * position; `outs` are their outcomes.
   */
  method TupleItems(n: Node, d: Direction, value: seq<Value>, ghost outs: seq<Outcome>) returns (r: Outcome)
    requires |value| == |outs| == |n.nodes|
    requires forall i :: 0 <= i < |outs| ==> outs[i] == Convert(n.nodes[i], d, value[i])
    ensures r == Finish(Gather(n, outs), false)
    decreases n, 2
  {
    var error: Option<Failure> := None;
    var result: seq<Value> := [];
    ghost var oks: seq<(nat, Value)> := [];
    var num := 0;
    while num < |n.nodes|
      invariant 0 <= num <= |n.nodes|
      invariant Gather(n, outs[..num]) == Gathered(oks, error)
      invariant result == ValuesOf(oks)
    {
      var o := ConvertNode(n.nodes[num], d, value[num]);
      if o.Uncaught? {
        LoopStep(n, outs, num, oks, error);
        RaisedStays(n, outs, num + 1);
        return o;
      }
      result, error, oks := Collect(n, outs, num, o, result, error, oks);
      num := num + 1;
    }
    assert outs[..num] == outs;
    if error.Some? {
      return Err(error.value);
    }
    return Ok(VTuple(result));
  }

  /**
   * One turn of the Tuple and Sequence loops: the subnode's value is
   * appended to the result, or its failure, at its index, is added under the
   * node's failure, created on the first one.
   */
  method Collect(n: Node, ghost outs: seq<Outcome>, num: nat, o: Outcome,
                 result: seq<Value>, error: Option<Failure>, ghost oks: seq<(nat, Value)>)
    returns (result': seq<Value>, error': Option<Failure>, ghost oks': seq<(nat, Value)>)
    requires num < |outs| && outs[num] == o && !o.Uncaught?
    requires Gather(n, outs[..num]) == Gathered(oks, error) && result == ValuesOf(oks)
    ensures Gather(n, outs[..num + 1]) == Gathered(oks', error') && result' == ValuesOf(oks')
  {
    LoopStep(n, outs, num, oks, error);
    result', error', oks' := result, error, oks;
    match o {
      case Ok(v) =>
        result' := result + [v];
        oks' := oks + [(num, v)];
      case Err(e) =>
        var parent := if error.None? then Reject(n, None) else error.value;
        error' := Some(Add(parent, e.(pos := Some(num))));
    }
  }

  /** `Sequence._impl`. */
  method SequenceImpl(n: Node, d: Direction, x: Value) returns (r: Outcome)
    requires n.typ.Sequence?
    ensures r == SequenceConvert(n, d, x)
    decreases n, 3
  {
    var c := SequenceValidate(n, x);
    if c.Refused? {
      return Err(c.error);
    }
    ghost var outs := SequenceOutcomes(n, d, c.value);
    r := SequenceItems(n, d, c.value, outs);
  }

  /**
   * The loop of `Sequence._impl`: the first subnode converts every item;
   * without subnodes the first item raises IndexError. `outs` are the
   * items' outcomes.
   */
  method SequenceItems(n: Node, d: Direction, value: seq<Value>, ghost outs: seq<Outcome>) returns (r: Outcome)
    requires |value| == |outs|
    requires n.nodes == [] ==> forall i :: 0 <= i < |outs| ==> outs[i] == Uncaught(IndexError)
    requires n.nodes != [] ==> forall i :: 0 <= i < |outs| ==> outs[i] == Convert(n.nodes[0], d, value[i])
    ensures r == Finish(Gather(n, outs), true)
    decreases n, 2
  {
    var error: Option<Failure> := None;
    var result: seq<Value> := [];
    ghost var oks: seq<(nat, Value)> := [];
    var num := 0;
    while num < |value|
      invariant 0 <= num <= |value|
      invariant Gather(n, outs[..num]) == Gathered(oks, error)
      invariant result == ValuesOf(oks)
    {
      if n.nodes == [] {
        LoopStep(n, outs, num, oks, error);
        RaisedStays(n, outs, num + 1);
        return Uncaught(IndexError);
      }
      var o := ConvertNode(n.nodes[0], d, value[num]);
      if o.Uncaught? {
        LoopStep(n, outs, num, oks, error);
        RaisedStays(n, outs, num + 1);
        return o;
      }
      result, error, oks := Collect(n, outs, num, o, result, error, oks);
      num := num + 1;
    }
    assert outs[..num] == outs;
    if error.Some? {
      return Err(error.value);
    }
    return Ok(VList(result));
  }

  /** `Mapping._impl`'s handling of one subnode. */
  method ChildNode(sub: Node, d: Direction, subval: Option<Value>) returns (r: Outcome)
    ensures r == ChildOutcome(sub, d, subval)
    decreases sub, 6
  {
    if subval.None? {
      if Required(sub) {
        return Err(RejectWith(sub, Repr(KeyOf(sub)) + " is required but missing"));
      }
      if d.Deserialize? {
        return Ok(sub.default.value);
      }
      r := ConvertNode(sub, Serialize, sub.default.value);
    } else {
      r := ConvertNode(sub, d, subval.value);
    }
  }

  /** `outs[i]` is what subnode `i` makes of what it pops from the copied dict. */
  predicate ChildAt(n: Node, d: Direction, dict: Entries, outs: seq<Outcome>, i: nat)
    requires i < |outs| == |n.nodes|
  {
    outs[i] == ChildOutcome(n.nodes[i], d, Popped(n, dict, i))
  }

  /** The loop state after one more outcome, when no exception has ended the loop. */
  lemma LoopStep(n: Node, outs: seq<Outcome>, num: nat, oks: seq<(nat, Value)>, error: Option<Failure>)
    requires num < |outs|
    requires Gather(n, outs[..num]) == Gathered(oks, error)
    ensures Gather(n, outs[..num + 1]) ==
      match outs[num]
      case Ok(v) => Gathered(oks + [(num, v)], error)
      case Err(e) => Gathered(oks, Some(Add(error.GetOr(Reject(n, None)), e.(pos := Some(num)))))
      case Uncaught(x) => Raised(x)
  {
    GatherNext(n, outs, num);
  }

  /** Assigning one more value under subnode `i`'s name. */
  lemma AssignedAppend(n: Node, oks: seq<(nat, Value)>, i: nat, v: Value)
    requires i < |n.nodes| && forall j :: 0 <= j < |oks| ==> oks[j].0 < |n.nodes|
    ensures Assigned(n, oks + [(i, v)]) == Dicts.Set(Assigned(n, oks), KeyOf(n.nodes[i]), v)
  {
    assert (oks + [(i, v)])[..|oks|] == oks;
  }

  /**
   * One turn of `Mapping._impl`'s loop: pops the subnode's key, converts
   * what was there, and records the value or the failure; `exc` is another
   * exception, which ends the loop.
   */
  method MappingTurn(n: Node, d: Direction, ghost dict: Entries, ghost outs: seq<Outcome>, num: nat,
                     value: Entries, result: Entries, error: Option<Failure>, ghost oks: seq<(nat, Value)>)
    returns (value': Entries, result': Entries, error': Option<Failure>, exc: Option<PyException>, ghost oks': seq<(nat, Value)>)
    requires num < |outs| == |n.nodes| && ChildAt(n, d, dict, outs, num)
    requires value == Remaining(n, dict, num)
    requires Gather(n, outs[..num]) == Gathered(oks, error)
    requires result == Assigned(n, oks)
    ensures exc.None? ==> Gather(n, outs[..num + 1]) == Gathered(oks', error')
    ensures exc.None? ==> value' == Remaining(n, dict, num + 1) && result' == Assigned(n, oks')
    ensures exc.Some? ==> Gather(n, outs[..num + 1]) == Raised(exc.value)
    decreases n, 1
  {
    var subnode := n.nodes[num];
    var name := KeyOf(subnode);
    var popped := Dicts.Pop(value, name);
    var subval := popped.0;
    value' := popped.1;
    var o := ChildNode(subnode, d, subval);
    LoopStep(n, outs, num, oks, error);
    result', error', exc, oks' := result, error, None, oks;
    match o {
      case Ok(v) =>
        result' := Dicts.Set(result, name, v);
        oks' := oks + [(num, v)];
        AssignedAppend(n, oks, num, v);
      case Err(e) =>
        var parent := if error.None? then Reject(n, None) else error.value;
        error' := Some(Add(parent, e.(pos := Some(num))));
      case Uncaught(x) =>
        exc := Some(x);
    }
  }

  /**
   * The loop of `Mapping._impl`: pops each subnode's key from the copied
   * dict, assigns converted values under the subnodes' names and collects
   * failures; `exc` is another exception that ended the loop. `outs` are
   * the subnodes' outcomes.
   */
  method MappingChildren(n: Node, d: Direction, dict: Entries, ghost outs: seq<Outcome>)
    returns (value: Entries, result: Entries, error: Option<Failure>, exc: Option<PyException>)
    requires |outs| == |n.nodes| && forall i :: 0 <= i < |outs| ==> ChildAt(n, d, dict, outs, i)
    ensures Gather(n, outs).Raised? ==> exc == Some(Gather(n, outs).exc)
    ensures Gather(n, outs).Gathered? ==>
      exc.None? && error == Gather(n, outs).error &&
      result == Assigned(n, Gather(n, outs).oks) && value == Remaining(n, dict, |n.nodes|)
    decreases n, 2
  {
    value := dict;
    error := None;
    result := [];
    ghost var oks: seq<(nat, Value)> := [];
    var num := 0;
    while num < |n.nodes|
      invariant 0 <= num <= |n.nodes|
      invariant value == Remaining(n, dict, num)
      invariant Gather(n, outs[..num]) == Gathered(oks, error)
      invariant result == Assigned(n, oks)
    {
      var exc';
      value, result, error, exc', oks := MappingTurn(n, d, dict, outs, num, value, result, error, oks);
      if exc'.Some? {
        RaisedStays(n, outs, num + 1);
        exc := exc';
        return;
      }
      num := num + 1;
    }
    assert outs[..num] == outs;
    exc := None;
  }

  /** `Mapping._impl`. */
  method MappingImpl(n: Node, d: Direction, x: Value) returns (r: Outcome)
    requires n.typ.Mapping?
    ensures r == MappingConvert(n, d, x)
    decreases n, 3
  {
    var c := MappingValidate(n, x);
    if c.Refused? {
      return Err(c.error);
    }
    ghost var outs := MappingOutcomes(n, d, c.value);
    assert forall i :: 0 <= i < |outs| ==> ChildAt(n, d, c.value, outs, i);
    var value, result, error, exc := MappingChildren(n, d, c.value, outs);
    if exc.Some? {
      return Uncaught(exc.value);
    }
    if n.typ.unknown.Raise? {
      if value != [] {
        return Err(RejectWith(n, "Unrecognized keys in mapping: " + Repr(VDict(value))));
      }
    } else if n.typ.unknown.Preserve? {
      result := Dicts.Update(result, value);
    }
    if error.Some? {
      return Err(error.value);
    }
    return Ok(VDict(result));
  }
}
