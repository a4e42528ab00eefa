/**
 * Schema nodes and the conversion they drive (`SchemaNode.deserialize` and
 * `serialize`, and the `deserialize`/`serialize` of each type), as functions.
 * A conversion either produces a value, raises a failure tree (`Invalid`), or
 * lets another exception escape.
 */
module Schema {
  import opened Wrappers
  import opened Values
  import opened Types
  import opened Errors
  import opened Validators
  import opened Scalars
  import Dicts
  import Decimal

  /**
   * A `SchemaNode`: its type, its validator, its default (None when no
   * default was given) and its name, and its subnodes in order.
   */
  datatype Node = Node(
    typ: Type,
    validator: Option<Validator>,
    default: Option<Value>,
    name: string,
    nodes: seq<Node>)

  /** `required`: the node has no default. */
  predicate Required(n: Node)
  {
    n.default.None?
  }

  /** `add`: the subnode goes after the existing ones; nothing else changes. */
  function AddNode(n: Node, child: Node): (r: Node)
    ensures r.nodes == n.nodes + [child]
    ensures r.nodes[..|n.nodes|] == n.nodes && r.nodes[|n.nodes|] == child
    ensures r.typ == n.typ && r.validator == n.validator && r.default == n.default && r.name == n.name
    ensures Required(r) <==> Required(n)
  {
    n.(nodes := n.nodes + [child])
  }

  datatype Direction = Deserialize | Serialize

  /** What a conversion does: returns a value, raises `Invalid`, or raises another exception. */
  datatype Outcome = Ok(value: Value) | Err(error: Failure) | Uncaught(exc: PyException)

  /** `Invalid(node, msg)`. */
  function Reject(n: Node, msg: Option<Message>): (e: Failure)
    ensures e.name == n.name && e.typ == n.typ && e.msg == msg && e.pos.None? && e.children == []
  {
    Fresh(n.name, n.typ, msg)
  }

  function RejectWith(n: Node, text: string): Failure
  {
    Reject(n, Some(Text(text)))
  }

  /**
   * The state of a composite type's loop over its children: the values
   * converted so far, each with its child's index, and the failure collecting
   * the children's failures, once there is one; or the exception that ended
   * the loop.
   */
  datatype Gathered = Gathered(oks: seq<(nat, Value)>, error: Option<Failure>) | Raised(exc: PyException)

  /**
   * The loop of `Mapping._impl`, `Tuple._impl` and `Sequence._impl` over the
   * children's outcomes: a value is kept; a failure gets the child's index as
   * its position and is added to the node's failure, created message-less on
   * the first one; any other exception leaves the loop.
   */
  function Gather(n: Node, outs: seq<Outcome>): (g: Gathered)
    ensures g.Gathered? ==> forall j :: 0 <= j < |g.oks| ==> g.oks[j].0 < |outs|
  {
    if outs == [] then Gathered([], None)
    else
      var num := |outs| - 1;
      match Gather(n, outs[..num])
      case Raised(x) => Raised(x)
      case Gathered(oks, error) =>
        match outs[num]
        case Ok(v) => Gathered(oks + [(num, v)], error)
        case Err(e) => Gathered(oks, Some(Add(error.GetOr(Reject(n, None)), e.(pos := Some(num)))))
        case Uncaught(x) => Raised(x)
  }

  /** One more outcome taken into the loop's state. */
  lemma GatherNext(n: Node, outs: seq<Outcome>, k: nat)
    requires k < |outs|
    ensures Gather(n, outs[..k + 1]) ==
      match Gather(n, outs[..k])
      case Raised(x) => Raised(x)
      case Gathered(oks, error) =>
        match outs[k]
        case Ok(v) => Gathered(oks + [(k, v)], error)
        case Err(e) => Gathered(oks, Some(Add(error.GetOr(Reject(n, None)), e.(pos := Some(k)))))
        case Uncaught(x) => Raised(x)
  {
    assert outs[..k + 1][..k] == outs[..k];
  }

  /** Once the loop has left on an exception, more outcomes do not change that. */
  lemma {:induction false} RaisedStays(n: Node, outs: seq<Outcome>, k: nat)
    requires k <= |outs| && Gather(n, outs[..k]).Raised?
    ensures Gather(n, outs) == Gather(n, outs[..k])
    decreases |outs| - k
  {
    if k < |outs| {
      assert outs[..k + 1][..k] == outs[..k];
      RaisedStays(n, outs, k + 1);
    } else {
      assert outs[..k] == outs;
    }
  }

  function ValuesOf(oks: seq<(nat, Value)>): (vs: seq<Value>)
    ensures |vs| == |oks| && forall j :: 0 <= j < |oks| ==> vs[j] == oks[j].1
  {
    seq(|oks|, j requires 0 <= j < |oks| => oks[j].1)
  }

  /** The end of a Tuple or Sequence loop: raise the collected failure, or return the values. */
  function Finish(g: Gathered, asList: bool): Outcome
  {
    match g
    case Raised(x) => Uncaught(x)
    case Gathered(oks, error) =>
      if error.Some? then Err(error.value)
      else if asList then Ok(VList(ValuesOf(oks)))
      else Ok(VTuple(ValuesOf(oks)))
  }

  /** `SchemaNode.deserialize` and `serialize`: only deserialization runs the validator. */
  function Convert(n: Node, d: Direction, x: Value): Outcome
    decreases n, 3, 0
  {
    var r := TypeConvert(n, d, x);
    if d.Deserialize? && r.Ok? && n.validator.Some? then
      match Check(n.validator.value, r.value)
      case None => r
      case Some(m) => Err(Reject(n, Some(m)))
    else r
  }

  /** The node's type converting the value. */
  function TypeConvert(n: Node, d: Direction, x: Value): Outcome
    decreases n, 2, 0
  {
    match n.typ
    case Integer =>
      (match (if d.Deserialize? then IntegerDeserialize(x) else IntegerSerialize(x))
       case Converted(v) => Ok(v)
       case Rejected(m) => Err(RejectWith(n, m)))
    case Boolean => Ok(if d.Deserialize? then BooleanDeserialize(x) else BooleanSerialize(x))
    case Tuple => TupleConvert(n, d, x)
    case Sequence(_) => SequenceConvert(n, d, x)
    case Mapping(_) => MappingConvert(n, d, x)
  }

  /** What a type's `_validate` does: coerce the value, or raise a failure for the node. */
  datatype Coerced<T> = Coerced(value: T) | Refused(error: Failure)

  /**
   * `Tuple._validate`: the items of an iterable with one item per subnode
   * (a dict gives its keys).
   */
  function TupleValidate(n: Node, x: Value): (c: Coerced<seq<Value>>)
    ensures c.Coerced? ==> |c.value| == |n.nodes|
  {
    if !HasIter(x) then Refused(RejectWith(n, Repr(x) + " is not iterable"))
    else
      var items := ListOf(x);
      if |items| != |n.nodes| then
        Refused(RejectWith(n, ToStr(x) + " has an incorrect number of elements (expected "
          + Decimal.Render(|n.nodes|) + ", was " + Decimal.Render(|items|) + ")"))
      else Coerced(items)
  }

  /** `Tuple._validate` then `Tuple._impl`. */
  function TupleConvert(n: Node, d: Direction, x: Value): Outcome
    decreases n, 1, 0
  {
    match TupleValidate(n, x)
    case Refused(e) => Err(e)
    case Coerced(items) => Finish(Gather(n, TupleOutcomes(n, d, items)), false)
  }

  /** Each subnode converting the item at its position. */
  function TupleOutcomes(n: Node, d: Direction, items: seq<Value>): (outs: seq<Outcome>)
    requires |items| == |n.nodes|
    ensures |outs| == |n.nodes|
    decreases n, 0, 0
  {
    seq(|n.nodes|, i requires 0 <= i < |n.nodes| => Convert(n.nodes[i], d, items[i]))
  }

  /**
   * `Sequence._validate`: an iterable that is not a mapping gives its items;
   * anything else is one item when scalars are accepted, else not iterable.
   */
  function SequenceItems(acceptScalar: bool, x: Value): Option<seq<Value>>
  {
    if HasIter(x) && !HasGet(x) then Some(ListOf(x))
    else if acceptScalar then Some([x])
    else None
  }

  function SequenceValidate(n: Node, x: Value): Coerced<seq<Value>>
    requires n.typ.Sequence?
  {
    match SequenceItems(n.typ.acceptScalar, x)
    case None => Refused(RejectWith(n, Repr(x) + " is not iterable"))
    case Some(items) => Coerced(items)
  }

  /** `Sequence._validate` then `Sequence._impl`. */
  function SequenceConvert(n: Node, d: Direction, x: Value): Outcome
    requires n.typ.Sequence?
    decreases n, 1, 0
  {
    match SequenceValidate(n, x)
    case Refused(e) => Err(e)
    case Coerced(items) => Finish(Gather(n, SequenceOutcomes(n, d, items)), true)
  }

  /**
   * The first subnode converting each item; without subnodes, looking up the
   * first one raises IndexError.
   */
  function SequenceOutcomes(n: Node, d: Direction, items: seq<Value>): (outs: seq<Outcome>)
    ensures |outs| == |items|
    decreases n, 0, 0
  {
    if n.nodes == [] then seq(|items|, i requires 0 <= i < |items| => Uncaught(IndexError))
    else seq(|items|, i requires 0 <= i < |items| => Convert(n.nodes[0], d, items[i]))
  }

  /** The key a subnode is looked up under. */
  function KeyOf(sub: Node): Value
  {
    VStr(sub.name)
  }

  /** The copied dict after the keys of the first `k` subnodes have been popped. */
  function Remaining(n: Node, dict: Entries, k: nat): Entries
    requires k <= |n.nodes|
  {
    if k == 0 then dict else Dicts.Without(Remaining(n, dict, k - 1), KeyOf(n.nodes[k - 1]))
  }

  /** What subnode `i` pops from the copied dict. */
  function Popped(n: Node, dict: Entries, i: nat): Option<Value>
    requires i < |n.nodes|
  {
    Dicts.Lookup(Remaining(n, dict, i), KeyOf(n.nodes[i]))
  }

  /**
   * One subnode of a mapping: a missing value fails when the subnode is
   * required, else the default stands in (serialized when serializing).
   */
  function ChildOutcome(sub: Node, d: Direction, subval: Option<Value>): Outcome
    decreases sub, 4, 0
  {
    match subval
    case Some(v) => Convert(sub, d, v)
    case None =>
      if Required(sub) then Err(RejectWith(sub, Repr(KeyOf(sub)) + " is required but missing"))
      else if d.Deserialize? then Ok(sub.default.value)
      else Convert(sub, Serialize, sub.default.value)
  }

  function MappingOutcomes(n: Node, d: Direction, dict: Entries): (outs: seq<Outcome>)
    ensures |outs| == |n.nodes|
    decreases n, 0, 0
  {
    seq(|n.nodes|, i requires 0 <= i < |n.nodes| => ChildOutcome(n.nodes[i], d, Popped(n, dict, i)))
  }

  /** The result dict: each kept value assigned under its subnode's name, in order. */
  function Assigned(n: Node, oks: seq<(nat, Value)>): Entries
    requires forall j :: 0 <= j < |oks| ==> oks[j].0 < |n.nodes|
  {
    if oks == [] then []
    else
      var last := oks[|oks| - 1];
      Dicts.Set(Assigned(n, oks[..|oks| - 1]), KeyOf(n.nodes[last.0]), last.1)
  }

  /** `Mapping._validate`: `dict(x)`, its failure reported for the node. */
  function MappingValidate(n: Node, x: Value): (c: Coerced<Entries>)
    ensures c.Coerced? ==> Dicts.DistinctKeys(c.value)
  {
    match Dicts.DictOf(x)
    case None => Refused(RejectWith(n, Repr(x) + " is not a mapping type: " + Dicts.DictError(x)))
    case Some(dict) => Coerced(dict)
  }

  /** What the unknown-keys policy makes of the loop's outcome. */
  function MappingFinish(n: Node, rest: Entries, result: Entries, error: Option<Failure>): Outcome
    requires n.typ.Mapping?
  {
    if n.typ.unknown.Raise? && rest != [] then
      Err(RejectWith(n, "Unrecognized keys in mapping: " + Repr(VDict(rest))))
    else if error.Some? then Err(error.value)
    else if n.typ.unknown.Preserve? then Ok(VDict(Dicts.Update(result, rest)))
    else Ok(VDict(result))
  }

  /** `Mapping._validate` then `Mapping._impl`. */
  function MappingConvert(n: Node, d: Direction, x: Value): Outcome
    requires n.typ.Mapping?
    decreases n, 1, 0
  {
    match MappingValidate(n, x)
    case Refused(e) => Err(e)
    case Coerced(dict) =>
      match Gather(n, MappingOutcomes(n, d, dict))
      case Raised(exc) => Uncaught(exc)
      case Gathered(oks, error) =>
        MappingFinish(n, Remaining(n, dict, |n.nodes|), Assigned(n, oks), error)
  }
}
