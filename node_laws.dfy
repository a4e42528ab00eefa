/**
 * What `SchemaNode` promises: `required` means no default, `add` appends,
 * `deserialize` runs the validator on the type's result and lets its failure
 * through as it is, and `serialize` never runs the validator.
 */
module NodeLaws {
  import opened Wrappers
  import opened Values
  import opened Errors
  import opened Validators
  import opened Schema

  /** The loop over the children depends on the node only through its name and type. */
  lemma {:induction false} GatherSameNode(n: Node, m: Node, outs: seq<Outcome>)
    requires n.name == m.name && n.typ == m.typ
    ensures Gather(n, outs) == Gather(m, outs)
  {
    if outs != [] {
      GatherSameNode(n, m, outs[..|outs| - 1]);
      assert Reject(n, None) == Reject(m, None);
    }
  }

  lemma {:induction false} RemainingSameNodes(n: Node, m: Node, dict: Entries, k: nat)
    requires n.nodes == m.nodes && k <= |n.nodes|
    ensures Remaining(n, dict, k) == Remaining(m, dict, k)
  {
    if k > 0 {
      RemainingSameNodes(n, m, dict, k - 1);
    }
  }

  lemma {:induction false} AssignedSameNodes(n: Node, m: Node, oks: seq<(nat, Value)>)
    requires n.nodes == m.nodes && forall j :: 0 <= j < |oks| ==> oks[j].0 < |n.nodes|
    ensures Assigned(n, oks) == Assigned(m, oks)
  {
    if oks != [] {
      AssignedSameNodes(n, m, oks[..|oks| - 1]);
    }
  }

  lemma OutcomesSameNodes(n: Node, m: Node, d: Direction, dict: Entries)
    requires n.nodes == m.nodes
    ensures MappingOutcomes(m, d, dict) == MappingOutcomes(n, d, dict)
  {
    forall i | 0 <= i < |n.nodes|
      ensures MappingOutcomes(m, d, dict)[i] == MappingOutcomes(n, d, dict)[i]
    {
      RemainingSameNodes(n, m, dict, i);
    }
  }

  /** The end of a mapping's loop depends on the node only through its name, type and subnodes. */
  lemma FinishSameNode(n: Node, m: Node, dict: Entries, oks: seq<(nat, Value)>, error: Option<Failure>)
    requires n.typ.Mapping? && n.nodes == m.nodes && n.name == m.name && n.typ == m.typ
    requires forall j :: 0 <= j < |oks| ==> oks[j].0 < |n.nodes|
    ensures MappingFinish(m, Remaining(m, dict, |m.nodes|), Assigned(m, oks), error) ==
      MappingFinish(n, Remaining(n, dict, |n.nodes|), Assigned(n, oks), error)
  {
    RemainingSameNodes(n, m, dict, |n.nodes|);
    AssignedSameNodes(n, m, oks);
  }

  /** A mapping's conversion does not look at the node's own validator. */
  lemma MappingIgnoresValidator(n: Node, w: Option<Validator>, d: Direction, x: Value)
    requires n.typ.Mapping?
    ensures MappingConvert(n.(validator := w), d, x) == MappingConvert(n, d, x)
  {
    var m := n.(validator := w);
    if MappingValidate(n, x).Coerced? {
      var dict := MappingValidate(n, x).value;
      OutcomesSameNodes(n, m, d, dict);
      GatherSameNode(m, n, MappingOutcomes(n, d, dict));
      var g := Gather(n, MappingOutcomes(n, d, dict));
      if g.Gathered? {
        FinishSameNode(n, m, dict, g.oks, g.error);
      }
    }
  }

  lemma TupleIgnoresValidator(n: Node, w: Option<Validator>, d: Direction, x: Value)
    ensures TupleConvert(n.(validator := w), d, x) == TupleConvert(n, d, x)
  {
    var m := n.(validator := w);
    if TupleValidate(n, x).Coerced? {
      var items := TupleValidate(n, x).value;
      assert TupleOutcomes(m, d, items) == TupleOutcomes(n, d, items);
      GatherSameNode(m, n, TupleOutcomes(n, d, items));
    }
  }

  lemma SequenceIgnoresValidator(n: Node, w: Option<Validator>, d: Direction, x: Value)
    requires n.typ.Sequence?
    ensures SequenceConvert(n.(validator := w), d, x) == SequenceConvert(n, d, x)
  {
    var m := n.(validator := w);
    if SequenceValidate(n, x).Coerced? {
      var items := SequenceValidate(n, x).value;
      assert SequenceOutcomes(m, d, items) == SequenceOutcomes(n, d, items);
      GatherSameNode(m, n, SequenceOutcomes(n, d, items));
    }
  }

  /** The type's conversion does not look at the node's own validator. */
  lemma TypeConvertIgnoresValidator(n: Node, w: Option<Validator>, d: Direction, x: Value)
    ensures TypeConvert(n.(validator := w), d, x) == TypeConvert(n, d, x)
  {
    match n.typ
    case Integer =>
    case Boolean =>
    case Tuple =>
      TupleIgnoresValidator(n, w, d, x);
    case Sequence(_) =>
      SequenceIgnoresValidator(n, w, d, x);
    case Mapping(_) =>
      MappingIgnoresValidator(n, w, d, x);
  }

  /**
   * `serialize` never validates: it is the type's serialization, whatever
   * validator the node carries.
   */
  lemma SerializeIgnoresValidator(n: Node, w: Option<Validator>, x: Value)
    ensures Convert(n, Serialize, x) == TypeConvert(n, Serialize, x)
    ensures Convert(n.(validator := w), Serialize, x) == Convert(n, Serialize, x)
  {
    TypeConvertIgnoresValidator(n, w, Serialize, x);
  }

  /**
   * `deserialize` with a validator: the type's value when the validator
   * accepts it; otherwise the validator's own failure for this node (its
   * message, no position, no children), not wrapped in another failure.
   */
  lemma DeserializeValidates(n: Node, x: Value)
    requires n.validator.Some? && TypeConvert(n, Deserialize, x).Ok?
    ensures var v := TypeConvert(n, Deserialize, x).value;
      Convert(n, Deserialize, x).Ok? <==> Check(n.validator.value, v).None?
    ensures Convert(n, Deserialize, x).Ok? ==> Convert(n, Deserialize, x) == TypeConvert(n, Deserialize, x)
    ensures var v := TypeConvert(n, Deserialize, x).value;
      Check(n.validator.value, v).Some? ==>
        Convert(n, Deserialize, x) == Err(Invalid(n.name, n.typ, Check(n.validator.value, v), None, []))
  {
  }

  /** A node without a validator, or whose type already failed, deserializes as its type does. */
  lemma DeserializeWithoutValidation(n: Node, x: Value)
    requires n.validator.None? || !TypeConvert(n, Deserialize, x).Ok?
    ensures Convert(n, Deserialize, x) == TypeConvert(n, Deserialize, x)
  {
  }

  /** A validator that accepts the value leaves the node's result as its type's. */
  lemma DeserializePassing(n: Node, w: Validator, x: Value)
    requires TypeConvert(n, Deserialize, x).Ok? && Check(w, TypeConvert(n, Deserialize, x).value).None?
    ensures Convert(n.(validator := Some(w)), Deserialize, x) == Convert(n.(validator := None), Deserialize, x)
  {
    TypeConvertIgnoresValidator(n, Some(w), Deserialize, x);
    TypeConvertIgnoresValidator(n, None, Deserialize, x);
  }
}
