/**
 * Serializing then deserializing through a schema gives the value back, for
 * every value of the shape the schema describes that its validators accept.
 */
module RoundTrip {
  import opened Values
  import opened Validators
  import opened Scalars
  import opened Schema
  import opened Composites
  import opened MappingLaws

  /** The node's validator, if any, accepts `v`. */
  predicate Accepted(n: Node, v: Value)
  {
    n.validator.None? || Check(n.validator.value, v).None?
  }

  /**
   * `v` has the shape `n` describes: an int for Integer, a bool for Boolean,
   * a tuple with one conforming item per subnode, a list of items conforming
   * to the first subnode, or a dict holding exactly the (distinct) subnode
   * names, in subnode order, with conforming values; and every validator on
   * the way accepts it.
   */
  predicate Conforms(n: Node, v: Value)
    decreases n
  {
    Accepted(n, v) &&
    match n.typ
    case Integer => v.VInt?
    case Boolean => v.VBool?
    case Tuple =>
      v.VTuple? && |v.items| == |n.nodes| &&
      forall i :: 0 <= i < |n.nodes| ==> Conforms(n.nodes[i], v.items[i])
    case Sequence(_) =>
      v.VList? && n.nodes != [] &&
      forall i :: 0 <= i < |v.items| ==> Conforms(n.nodes[0], v.items[i])
    case Mapping(_) =>
      v.VDict? && DistinctNames(n) && Follows(n, v.entries) &&
      forall i :: 0 <= i < |n.nodes| ==> Conforms(n.nodes[i], v.entries[i].1)
  }

  /** `deserialize(serialize(v)) == v` for every conforming value. */
  lemma {:induction false} RoundTripLaw(n: Node, v: Value)
    requires Conforms(n, v)
    ensures Convert(n, Serialize, v).Ok?
    ensures Convert(n, Deserialize, Convert(n, Serialize, v).value) == Ok(v)
    decreases n, 1
  {
    match n.typ
    case Integer =>
      IntegerRoundTrip(v.i);
    case Boolean =>
      BooleanRoundTrip(v);
    case Tuple =>
      TupleRoundTrip(n, v);
    case Sequence(_) =>
      SequenceRoundTrip(n, v);
    case Mapping(_) =>
      MappingRoundTrip(n, v);
  }

  lemma {:induction false} TupleRoundTrip(n: Node, v: Value)
    requires n.typ.Tuple? && Conforms(n, v)
    ensures TypeConvert(n, Serialize, v).Ok?
    ensures TypeConvert(n, Deserialize, TypeConvert(n, Serialize, v).value) == Ok(v)
    decreases n, 0
  {
    forall i | 0 <= i < |n.nodes|
      ensures Convert(n.nodes[i], Serialize, v.items[i]).Ok?
      ensures Convert(n.nodes[i], Deserialize, Convert(n.nodes[i], Serialize, v.items[i]).value) == Ok(v.items[i])
    {
      RoundTripLaw(n.nodes[i], v.items[i]);
    }
    TupleConverts(n, Serialize, v);
    var s := TypeConvert(n, Serialize, v).value;
    TupleConverts(n, Deserialize, s);
    assert TypeConvert(n, Deserialize, s).value.items == v.items;
  }

  lemma {:induction false} SequenceRoundTrip(n: Node, v: Value)
    requires n.typ.Sequence? && Conforms(n, v)
    ensures TypeConvert(n, Serialize, v).Ok?
    ensures TypeConvert(n, Deserialize, TypeConvert(n, Serialize, v).value) == Ok(v)
    decreases n, 0
  {
    forall i | 0 <= i < |v.items|
      ensures Convert(n.nodes[0], Serialize, v.items[i]).Ok?
      ensures Convert(n.nodes[0], Deserialize, Convert(n.nodes[0], Serialize, v.items[i]).value) == Ok(v.items[i])
    {
      RoundTripLaw(n.nodes[0], v.items[i]);
    }
    SequenceConverts(n, Serialize, v, v.items);
    var s := TypeConvert(n, Serialize, v).value;
    SequenceConverts(n, Deserialize, s, s.items);
    assert TypeConvert(n, Deserialize, s).value.items == v.items;
  }

  lemma {:induction false} MappingRoundTrip(n: Node, v: Value)
    requires n.typ.Mapping? && Conforms(n, v)
    ensures TypeConvert(n, Serialize, v).Ok?
    ensures TypeConvert(n, Deserialize, TypeConvert(n, Serialize, v).value) == Ok(v)
    decreases n, 0
  {
    var es := v.entries;
    forall i | 0 <= i < |n.nodes|
      ensures Convert(n.nodes[i], Serialize, es[i].1).Ok?
      ensures Convert(n.nodes[i], Deserialize, Convert(n.nodes[i], Serialize, es[i].1).value) == Ok(es[i].1)
    {
      RoundTripLaw(n.nodes[i], es[i].1);
    }
    MappingBack(n, es);
  }

  /** The entries with their keys kept and their values replaced. */
  function Relabel(es: Entries, out: seq<Value>): (r: Entries)
    requires |out| == |es|
    ensures |r| == |es| && forall i :: 0 <= i < |es| ==> r[i] == (es[i].0, out[i])
  {
    seq(|es|, i requires 0 <= i < |es| => (es[i].0, out[i]))
  }

  lemma MappingThrough(n: Node, d: Direction, es: Entries, out: seq<Value>)
    requires n.typ.Mapping? && DistinctNames(n) && Follows(n, es) && |out| == |es|
    requires forall i :: 0 <= i < |es| ==> Convert(n.nodes[i], d, es[i].1) == Ok(out[i])
    ensures TypeConvert(n, d, VDict(es)) == Ok(VDict(Relabel(es, out)))
  {
    MappingExact(n, d, es, out);
    var r := MappingConvert(n, d, VDict(es)).value.entries;
    assert r == Relabel(es, out) by {
      RelabelAt(es, out, r);
    }
    assert TypeConvert(n, d, VDict(es)) == MappingConvert(n, d, VDict(es));
  }

  lemma RelabelAt(es: Entries, out: seq<Value>, r: Entries)
    requires |out| == |es| == |r| && forall i :: 0 <= i < |es| ==> r[i] == (es[i].0, out[i])
    ensures r == Relabel(es, out)
  {
  }

  /** A mapping's round trip, once each subnode's round trip is known. */
  lemma MappingBack(n: Node, es: Entries)
    requires n.typ.Mapping? && DistinctNames(n) && Follows(n, es)
    requires forall i :: 0 <= i < |n.nodes| ==> Convert(n.nodes[i], Serialize, es[i].1).Ok?
    requires forall i :: 0 <= i < |n.nodes| ==>
      Convert(n.nodes[i], Deserialize, Convert(n.nodes[i], Serialize, es[i].1).value) == Ok(es[i].1)
    ensures TypeConvert(n, Serialize, VDict(es)).Ok?
    ensures TypeConvert(n, Deserialize, TypeConvert(n, Serialize, VDict(es)).value) == Ok(VDict(es))
  {
    var out := seq(|es|, i requires 0 <= i < |es| => Convert(n.nodes[i], Serialize, es[i].1).value);
    assert forall i :: 0 <= i < |es| ==> Convert(n.nodes[i], Serialize, es[i].1) == Ok(out[i]);
    MappingThrough(n, Serialize, es, out);
    MappingReturn(n, es, out);
  }

  /** Deserializing the serialized entries gives back the original ones. */
  lemma MappingReturn(n: Node, es: Entries, out: seq<Value>)
    requires n.typ.Mapping? && DistinctNames(n) && Follows(n, es) && |out| == |es|
    requires forall i :: 0 <= i < |es| ==> Convert(n.nodes[i], Deserialize, out[i]) == Ok(es[i].1)
    ensures TypeConvert(n, Deserialize, VDict(Relabel(es, out))) == Ok(VDict(es))
  {
    var r := Relabel(es, out);
    var back := seq(|es|, i requires 0 <= i < |es| => es[i].1);
    assert Follows(n, r);
    assert forall i :: 0 <= i < |r| ==> Convert(n.nodes[i], Deserialize, r[i].1) == Ok(back[i]);
    MappingThrough(n, Deserialize, r, back);
    RelabelAt(r, back, es);
  }
}
