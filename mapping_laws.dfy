/**
 * What the Mapping type promises: per subnode (present, missing and
 * optional, missing and required), the collection of child failures, and
 * the three unknown-key policies.
 */
module MappingLaws {
  import opened Wrappers
  import opened Values
  import opened Types
  import opened Errors
  import opened Schema
  import opened Composites
  import opened Dicts

  /** Some subnode among the first `k` is looked up under `key`. */
  predicate NamedBefore(n: Node, key: Value, k: nat)
    requires k <= |n.nodes|
  {
    exists j :: 0 <= j < k && KeyOf(n.nodes[j]) == key
  }

  /** `key` is the name of a subnode. */
  predicate Named(n: Node, key: Value)
  {
    NamedBefore(n, key, |n.nodes|)
  }

  predicate DistinctNames(n: Node)
  {
    forall i, j :: 0 <= i < j < |n.nodes| ==> n.nodes[i].name != n.nodes[j].name
  }

  /** The coerced input of a mapping node. */
  function Input(n: Node, x: Value): Entries
    requires MappingValidate(n, x).Coerced?
  {
    MappingValidate(n, x).value
  }

  /** The unknown entries: what is left once every subnode has popped its key. */
  function Leftover(n: Node, x: Value): Entries
    requires MappingValidate(n, x).Coerced?
  {
    Remaining(n, Input(n, x), |n.nodes|)
  }

  /** Popping the subnodes' keys leaves the entry under any other key as it was. */
  lemma {:induction false} RemainingLookup(n: Node, dict: Entries, k: nat, key: Value)
    requires k <= |n.nodes|
    ensures Lookup(Remaining(n, dict, k), key) == if NamedBefore(n, key, k) then None else Lookup(dict, key)
  {
    if k > 0 {
      RemainingLookup(n, dict, k - 1, key);
      WithoutLookup(Remaining(n, dict, k - 1), KeyOf(n.nodes[k - 1]), key);
      if KeyOf(n.nodes[k - 1]) == key {
        assert NamedBefore(n, key, k);
      } else if NamedBefore(n, key, k) {
        var j :| 0 <= j < k && KeyOf(n.nodes[j]) == key;
        assert NamedBefore(n, key, k - 1);
      } else {
        assert !NamedBefore(n, key, k - 1);
      }
    }
  }

  /** The leftover entries are exactly the input's entries under keys no subnode is named. */
  lemma LeftoverEntries(n: Node, x: Value, key: Value)
    requires MappingValidate(n, x).Coerced?
    ensures Lookup(Leftover(n, x), key) == if Named(n, key) then None else Lookup(Input(n, x), key)
    ensures HasKey(Leftover(n, x), key) <==> HasKey(Input(n, x), key) && !Named(n, key)
  {
    RemainingLookup(n, Input(n, x), |n.nodes|, key);
  }

  /** With distinct names, each subnode pops the input's own value for its name. */
  lemma PoppedDistinct(n: Node, dict: Entries, i: nat)
    requires DistinctNames(n) && i < |n.nodes|
    ensures Popped(n, dict, i) == Lookup(dict, KeyOf(n.nodes[i]))
  {
    RemainingLookup(n, dict, i, KeyOf(n.nodes[i]));
  }

  /** `dict(value)` of a dict is a copy of it: the conversion works on its own entries. */
  lemma MappingCopies(n: Node, es: Entries)
    requires DistinctKeys(es)
    ensures MappingValidate(n, VDict(es)) == Coerced(es)
  {
    FromDistinct(es);
  }

  /** The last value kept is assigned last. */
  lemma AssignedLast(n: Node, oks: seq<(nat, Value)>)
    requires oks != [] && forall j :: 0 <= j < |oks| ==> oks[j].0 < |n.nodes|
    ensures Assigned(n, oks) == Set(Assigned(n, oks[..|oks| - 1]), KeyOf(n.nodes[oks[|oks| - 1].0]), oks[|oks| - 1].1)
  {
  }

  /** Looking a key up after the last assignment: its value if it is the last name, else as before. */
  lemma AssignedStep(n: Node, oks: seq<(nat, Value)>, key: Value)
    requires oks != [] && forall j :: 0 <= j < |oks| ==> oks[j].0 < |n.nodes|
    ensures Lookup(Assigned(n, oks), key) ==
      if key == KeyOf(n.nodes[oks[|oks| - 1].0]) then Some(oks[|oks| - 1].1) else Lookup(Assigned(n, oks[..|oks| - 1]), key)
  {
    AssignedLast(n, oks);
    SetLookup(Assigned(n, oks[..|oks| - 1]), KeyOf(n.nodes[oks[|oks| - 1].0]), oks[|oks| - 1].1, key);
  }

  /** Every key of the result dict is the name of a subnode that kept a value. */
  lemma {:induction false} AssignedKeys(n: Node, oks: seq<(nat, Value)>, key: Value)
    requires forall j :: 0 <= j < |oks| ==> oks[j].0 < |n.nodes|
    ensures HasKey(Assigned(n, oks), key) ==> exists j :: 0 <= j < |oks| && KeyOf(n.nodes[oks[j].0]) == key
  {
    if oks != [] && HasKey(Assigned(n, oks), key) {
      var m := |oks| - 1;
      var front := oks[..m];
      var last := KeyOf(n.nodes[oks[m].0]);
      if key != last {
        assert HasKey(Assigned(n, front), key) by {
          AssignedStep(n, oks, key);
        }
        AssignedKeys(n, front, key);
        var j :| 0 <= j < m && KeyOf(n.nodes[front[j].0]) == key;
        assert front[j] == oks[j];
      }
    }
  }

  /** When the first subnodes all kept a value, in order, each one's name is a key of the result. */
  lemma {:induction false} AssignedHas(n: Node, oks: seq<(nat, Value)>, i: nat)
    requires |oks| <= |n.nodes| && i < |oks|
    requires forall j :: 0 <= j < |oks| ==> oks[j].0 == j
    ensures HasKey(Assigned(n, oks), KeyOf(n.nodes[i]))
    decreases |oks|
  {
    var m := |oks| - 1;
    var front := oks[..m];
    var key := KeyOf(n.nodes[i]);
    assert HasKey(Assigned(n, front), key) || key == KeyOf(n.nodes[oks[m].0]) by {
      if i < m {
        assert forall j :: 0 <= j < m ==> front[j] == oks[j];
        AssignedHas(n, front, i);
      }
    }
    AssignedLast(n, oks);
    SetHasKey(Assigned(n, front), KeyOf(n.nodes[oks[m].0]), oks[m].1, key);
  }

  /** When every subnode kept a value, the result's keys are exactly the subnode names. */
  lemma AllAssignedKeys(n: Node, outs: seq<Outcome>, key: Value)
    requires |outs| == |n.nodes| && forall j :: 0 <= j < |outs| ==> outs[j].Ok?
    ensures HasKey(Assigned(n, KeptAt(outs, OkAt(outs, |outs|))), key) <==> Named(n, key)
  {
    var oks := KeptAt(outs, OkAt(outs, |outs|));
    AssignedNamed(n, oks, key);
    if Named(n, key) {
      var j :| 0 <= j < |n.nodes| && KeyOf(n.nodes[j]) == key;
      AllOkAt(outs, |outs|);
      AssignedHas(n, oks, j);
    }
  }

  /**
   * When the first subnodes all kept a value, in order, the result holds each
   * one's value under its name.
   */
  lemma {:induction false} AssignedInOrder(n: Node, oks: seq<(nat, Value)>, i: nat)
    requires DistinctNames(n) && |oks| <= |n.nodes| && i < |oks|
    requires forall j :: 0 <= j < |oks| ==> oks[j].0 == j
    ensures Lookup(Assigned(n, oks), KeyOf(n.nodes[i])) == Some(oks[i].1)
  {
    var m := |oks| - 1;
    var front := oks[..m];
    var key := KeyOf(n.nodes[i]);
    assert forall j :: 0 <= j < m ==> front[j] == oks[j];
    assert Lookup(Assigned(n, oks), key) == if i == m then Some(oks[m].1) else Lookup(Assigned(n, front), key) by {
      assert oks[m].0 == m;
      AssignedStep(n, oks, key);
      if i < m {
        assert n.nodes[i].name != n.nodes[m].name;
      }
    }
    if i < m {
      AssignedInOrder(n, front, i);
    }
  }

  /** The outcomes of a mapping's subnodes. */
  function Outcomes(n: Node, d: Direction, x: Value): seq<Outcome>
    requires MappingValidate(n, x).Coerced?
  {
    MappingOutcomes(n, d, Input(n, x))
  }

  /** The loop of a mapping whose conversion succeeded met no failure and no exception. */
  lemma MappingOkGathered(n: Node, d: Direction, x: Value)
    requires n.typ.Mapping? && MappingConvert(n, d, x).Ok?
    ensures MappingValidate(n, x).Coerced?
    ensures forall i :: 0 <= i < |n.nodes| ==> Outcomes(n, d, x)[i].Ok?
    ensures Gather(n, Outcomes(n, d, x)) == Gathered(KeptAt(Outcomes(n, d, x), OkAt(Outcomes(n, d, x), |n.nodes|)), None)
  {
    MappingOkLoop(n, d, x);
    GatherClean(n, Outcomes(n, d, x));
  }

  /** What a converted mapping holds: the loop's assignments, merged with the leftovers under `preserve`. */
  lemma MappingOkValue(n: Node, d: Direction, x: Value)
    requires n.typ.Mapping? && MappingConvert(n, d, x).Ok?
    ensures MappingValidate(n, x).Coerced?
    ensures Gather(n, Outcomes(n, d, x)).Gathered?
    ensures var result := Assigned(n, Gather(n, Outcomes(n, d, x)).oks);
      MappingConvert(n, d, x).value == VDict(if n.typ.unknown.Preserve? then Update(result, Leftover(n, x)) else result)
  {
  }

  /**
   * The keys of a converted mapping: the name of every subnode and, under
   * `preserve`, every other key of the input; nothing else.
   */
  lemma MappingKeys(n: Node, d: Direction, x: Value, key: Value)
    requires n.typ.Mapping? && MappingConvert(n, d, x).Ok?
    ensures MappingValidate(n, x).Coerced? && MappingConvert(n, d, x).value.VDict?
    ensures HasKey(MappingConvert(n, d, x).value.entries, key) <==>
      Named(n, key) || (n.typ.unknown.Preserve? && HasKey(Input(n, x), key))
  {
    MappingOkValue(n, d, x);
    MappingOkGathered(n, d, x);
    var result := Assigned(n, Gather(n, Outcomes(n, d, x)).oks);
    assert HasKey(result, key) <==> Named(n, key) by {
      AllAssignedKeys(n, Outcomes(n, d, x), key);
    }
    if n.typ.unknown.Preserve? {
      RemainingDistinct(n, Input(n, x), |n.nodes|);
      UpdateHasKey(result, Leftover(n, x), key);
      LeftoverEntries(n, x, key);
    }
  }

  /** A mapping converts only when its loop met no failure and no other exception. */
  lemma MappingOkLoop(n: Node, d: Direction, x: Value)
    requires n.typ.Mapping? && MappingConvert(n, d, x).Ok?
    ensures MappingValidate(n, x).Coerced?
    ensures Gather(n, Outcomes(n, d, x)).Gathered? && Gather(n, Outcomes(n, d, x)).error.None?
  {
  }

  /** When every subnode converted, the result holds each one's value under its (distinct) name. */
  lemma AllAssigned(n: Node, outs: seq<Outcome>, i: nat)
    requires DistinctNames(n) && |outs| == |n.nodes| && i < |outs|
    requires forall j :: 0 <= j < |outs| ==> outs[j].Ok?
    ensures Lookup(Assigned(n, KeptAt(outs, OkAt(outs, |outs|))), KeyOf(n.nodes[i])) == Some(outs[i].value)
  {
    AllOkAt(outs, |outs|);
    var oks := KeptAt(outs, OkAt(outs, |outs|));
    assert forall j :: 0 <= j < |oks| ==> oks[j] == (j, outs[j].value);
    AssignedInOrder(n, oks, i);
  }

  /** With the Preserve policy the leftovers add no entry under a subnode's name. */
  lemma PreserveKeepsNamed(n: Node, x: Value, result: Entries, key: Value)
    requires MappingValidate(n, x).Coerced? && Named(n, key)
    ensures Lookup(Update(result, Leftover(n, x)), key) == Lookup(result, key)
  {
    LeftoverEntries(n, x, key);
    RemainingDistinct(n, Input(n, x), |n.nodes|);
    UpdateLookup(result, Leftover(n, x), key);
  }

  lemma {:induction false} RemainingDistinct(n: Node, dict: Entries, k: nat)
    requires k <= |n.nodes| && DistinctKeys(dict)
    ensures DistinctKeys(Remaining(n, dict, k))
  {
    if k > 0 {
      RemainingDistinct(n, dict, k - 1);
      WithoutDistinct(Remaining(n, dict, k - 1), KeyOf(n.nodes[k - 1]));
    }
  }

  /** Under a subnode's name, a converted mapping holds what the loop assigned. */
  lemma ConvertedLookup(n: Node, d: Direction, x: Value, key: Value)
    requires n.typ.Mapping? && MappingConvert(n, d, x).Ok? && Named(n, key)
    ensures MappingValidate(n, x).Coerced?
    ensures MappingConvert(n, d, x).value.VDict?
    ensures Gather(n, Outcomes(n, d, x)).Gathered?
    ensures Lookup(MappingConvert(n, d, x).value.entries, key) ==
      Lookup(Assigned(n, Gather(n, Outcomes(n, d, x)).oks), key)
  {
    MappingOkValue(n, d, x);
    if n.typ.unknown.Preserve? {
      PreserveKeepsNamed(n, x, Assigned(n, Gather(n, Outcomes(n, d, x)).oks), key);
    }
  }

  /**
   * Every subnode's value in a converted mapping: with distinct names, the
   * result holds under each name what that subnode made of the input's value
   * (or of its absence).
   */
  lemma MappingChildValue(n: Node, d: Direction, x: Value, i: nat)
    requires n.typ.Mapping? && DistinctNames(n) && MappingConvert(n, d, x).Ok? && i < |n.nodes|
    ensures MappingValidate(n, x).Coerced?
    ensures MappingConvert(n, d, x).value.VDict?
    ensures ChildOutcome(n.nodes[i], d, Lookup(Input(n, x), KeyOf(n.nodes[i]))).Ok?
    ensures Lookup(MappingConvert(n, d, x).value.entries, KeyOf(n.nodes[i])) ==
      Some(ChildOutcome(n.nodes[i], d, Lookup(Input(n, x), KeyOf(n.nodes[i]))).value)
  {
    MappingOkGathered(n, d, x);
    var outs := Outcomes(n, d, x);
    var key := KeyOf(n.nodes[i]);
    assert Named(n, key);
    ConvertedLookup(n, d, x, key);
    PoppedDistinct(n, Input(n, x), i);
    assert outs[i] == ChildOutcome(n.nodes[i], d, Lookup(Input(n, x), key));
    AllAssigned(n, outs, i);
  }

  /** A value present under a subnode's name is that subnode's conversion of it. */
  lemma MappingPresent(n: Node, d: Direction, x: Value, i: nat, v: Value)
    requires n.typ.Mapping? && DistinctNames(n) && MappingConvert(n, d, x).Ok? && i < |n.nodes|
    requires MappingValidate(n, x).Coerced? && Lookup(Input(n, x), KeyOf(n.nodes[i])) == Some(v)
    ensures Convert(n.nodes[i], d, v).Ok? && MappingConvert(n, d, x).value.VDict?
    ensures Lookup(MappingConvert(n, d, x).value.entries, KeyOf(n.nodes[i])) == Some(Convert(n.nodes[i], d, v).value)
  {
    MappingChildValue(n, d, x, i);
  }

  /**
   * A missing subnode in a converted mapping had a default: the result holds
   * the default when deserializing, its serialization when serializing.
   */
  lemma MappingMissingOptional(n: Node, d: Direction, x: Value, i: nat)
    requires n.typ.Mapping? && DistinctNames(n) && MappingConvert(n, d, x).Ok? && i < |n.nodes|
    requires MappingValidate(n, x).Coerced? && !HasKey(Input(n, x), KeyOf(n.nodes[i]))
    ensures !Required(n.nodes[i]) && MappingConvert(n, d, x).value.VDict?
    ensures d.Deserialize? ==>
      Lookup(MappingConvert(n, d, x).value.entries, KeyOf(n.nodes[i])) == Some(n.nodes[i].default.value)
    ensures d.Serialize? ==>
      Convert(n.nodes[i], Serialize, n.nodes[i].default.value).Ok? &&
      Lookup(MappingConvert(n, d, x).value.entries, KeyOf(n.nodes[i])) ==
        Some(Convert(n.nodes[i], Serialize, n.nodes[i].default.value).value)
  {
    MappingChildValue(n, d, x, i);
  }

  /**
   * Unless the Raise policy finds unknown keys, the subnodes' failures are
   * raised together, after the loop, under one message-less failure of the
   * mapping node, each at its subnode's position.
   */
  lemma MappingCollects(n: Node, d: Direction, x: Value)
    requires n.typ.Mapping? && MappingValidate(n, x).Coerced?
    requires NoneUncaught(Outcomes(n, d, x)) && exists i :: 0 <= i < |n.nodes| && Outcomes(n, d, x)[i].Err?
    requires !(n.typ.unknown.Raise? && Leftover(n, x) != [])
    ensures MappingConvert(n, d, x) == Err(Invalid(n.name, n.typ, None, None, Tagged(Outcomes(n, d, x))))
  {
    GatherFailures(n, Outcomes(n, d, x));
  }

  /** A required subnode whose name is missing fails, at its position, with "is required but missing". */
  lemma MappingMissingRequired(n: Node, d: Direction, x: Value, i: nat)
    requires n.typ.Mapping? && i < |n.nodes| && Required(n.nodes[i])
    requires MappingValidate(n, x).Coerced? && !HasKey(Input(n, x), KeyOf(n.nodes[i]))
    requires NoneUncaught(Outcomes(n, d, x)) && !(n.typ.unknown.Raise? && Leftover(n, x) != [])
    ensures MappingConvert(n, d, x).Err? && MappingConvert(n, d, x).error.msg.None?
    ensures exists j :: (0 <= j < |MappingConvert(n, d, x).error.children| &&
      MappingConvert(n, d, x).error.children[j] ==
        RejectWith(n.nodes[i], Repr(KeyOf(n.nodes[i])) + " is required but missing").(pos := Some(i)))
  {
    var outs := Outcomes(n, d, x);
    RemainingLookup(n, Input(n, x), i, KeyOf(n.nodes[i]));
    assert Popped(n, Input(n, x), i) == None;
    assert outs[i] == ChildOutcome(n.nodes[i], d, None);
    MappingCollects(n, d, x);
  }

  /** Another exception from a subnode escapes before any unknown-key policy applies. */
  lemma MappingUncaught(n: Node, d: Direction, x: Value)
    requires n.typ.Mapping? && MappingValidate(n, x).Coerced?
    requires exists i :: 0 <= i < |n.nodes| && Outcomes(n, d, x)[i].Uncaught?
    ensures MappingConvert(n, d, x) == Uncaught(Outcomes(n, d, x)[FirstUncaught(Outcomes(n, d, x), 0)].exc)
  {
    GatherStops(n, Outcomes(n, d, x), FirstUncaught(Outcomes(n, d, x), 0));
  }

  /** The keys the loop assigns are subnode names. */
  lemma AssignedNamed(n: Node, oks: seq<(nat, Value)>, key: Value)
    requires forall j :: 0 <= j < |oks| ==> oks[j].0 < |n.nodes|
    ensures HasKey(Assigned(n, oks), key) ==> Named(n, key)
  {
    AssignedKeys(n, oks, key);
    if HasKey(Assigned(n, oks), key) {
      var j :| 0 <= j < |oks| && KeyOf(n.nodes[oks[j].0]) == key;
      assert 0 <= oks[j].0 < |n.nodes|;
    }
  }

  /** Ignore: every key of the result names a subnode; unknown keys are dropped. */
  lemma IgnoreDropsUnknown(n: Node, d: Direction, x: Value, key: Value)
    requires n.typ == Mapping(Ignore) && MappingConvert(n, d, x).Ok?
    ensures MappingConvert(n, d, x).value.VDict?
    ensures HasKey(MappingConvert(n, d, x).value.entries, key) ==> Named(n, key)
  {
    MappingOkValue(n, d, x);
    AssignedNamed(n, Gather(n, Outcomes(n, d, x)).oks, key);
  }

  /** Preserve: an unknown key keeps the input's value in the result. */
  lemma PreserveKeepsUnknown(n: Node, d: Direction, x: Value, key: Value)
    requires n.typ == Mapping(Preserve) && MappingConvert(n, d, x).Ok? && !Named(n, key)
    ensures MappingValidate(n, x).Coerced? && MappingConvert(n, d, x).value.VDict?
    ensures Lookup(MappingConvert(n, d, x).value.entries, key) == Lookup(Input(n, x), key)
  {
    MappingOkValue(n, d, x);
    var oks := Gather(n, Outcomes(n, d, x)).oks;
    AssignedNamed(n, oks, key);
    PreserveUnknownLookup(n, x, Assigned(n, oks), key);
  }

  /** Merging the leftovers into a result without `key` gives the input's value under an unknown `key`. */
  lemma PreserveUnknownLookup(n: Node, x: Value, result: Entries, key: Value)
    requires MappingValidate(n, x).Coerced? && !Named(n, key) && !HasKey(result, key)
    ensures Lookup(Update(result, Leftover(n, x)), key) == Lookup(Input(n, x), key)
  {
    RemainingDistinct(n, Input(n, x), |n.nodes|);
    UpdateLookup(result, Leftover(n, x), key);
    LeftoverEntries(n, x, key);
  }

  /**
   * Raise: unknown keys replace every subnode failure with one failure that
   * has a message and no children.
   */
  lemma RaiseRejectsUnknown(n: Node, d: Direction, x: Value)
    requires n.typ == Mapping(Raise) && MappingValidate(n, x).Coerced?
    requires NoneUncaught(Outcomes(n, d, x)) && Leftover(n, x) != []
    ensures MappingConvert(n, d, x) ==
      Err(RejectWith(n, "Unrecognized keys in mapping: " + Repr(VDict(Leftover(n, x)))))
    ensures MappingConvert(n, d, x).error.children == []
  {
    var outs := Outcomes(n, d, x);
    assert outs[..|outs|] == outs;
    GatherCollects(n, outs, |outs|);
  }

  /** Raise: a converted mapping had no key that does not name a subnode. */
  lemma RaiseOk(n: Node, d: Direction, x: Value, key: Value)
    requires n.typ == Mapping(Raise) && MappingConvert(n, d, x).Ok?
    ensures MappingValidate(n, x).Coerced?
    ensures HasKey(Input(n, x), key) ==> Named(n, key)
  {
    MappingOkGathered(n, d, x);
    LeftoverEntries(n, x, key);
  }

  /** A subnode's name is not among the keys of earlier subnodes. */
  lemma NameNotBuilt(n: Node, built: Entries, m: nat)
    requires DistinctNames(n) && m < |n.nodes| && |built| == m
    requires forall j :: 0 <= j < m ==> built[j].0 == KeyOf(n.nodes[j])
    ensures !HasKey(built, KeyOf(n.nodes[m]))
  {
    forall j | 0 <= j < m
      ensures Keys(built)[j] != KeyOf(n.nodes[m])
    {
      assert n.nodes[j].name != n.nodes[m].name;
    }
  }

  /** The loop builds the result entry by entry, in subnode order, when every subnode kept a value. */
  lemma {:induction false} AssignedBuilds(n: Node, oks: seq<(nat, Value)>)
    requires DistinctNames(n) && |oks| <= |n.nodes|
    requires forall j :: 0 <= j < |oks| ==> oks[j].0 == j
    ensures |Assigned(n, oks)| == |oks|
    ensures forall j :: 0 <= j < |oks| ==> Assigned(n, oks)[j] == (KeyOf(n.nodes[j]), oks[j].1)
  {
    if oks != [] {
      var m := |oks| - 1;
      var front := oks[..m];
      assert forall j :: 0 <= j < m ==> front[j] == oks[j];
      AssignedBuilds(n, front);
      var built := Assigned(n, front);
      assert forall j :: 0 <= j < m ==> built[j] == (KeyOf(n.nodes[j]), oks[j].1);
      assert Assigned(n, oks) == built + [(KeyOf(n.nodes[m]), oks[m].1)] by {
        AssignedLast(n, oks);
        assert oks[m].0 == m;
        NameNotBuilt(n, built, m);
        SetAppends(built, KeyOf(n.nodes[m]), oks[m].1);
      }
      BuildsAppend(n, built, oks);
    }
  }

  lemma BuildsAppend(n: Node, built: Entries, oks: seq<(nat, Value)>)
    requires oks != [] && |built| == |oks| - 1 && |oks| <= |n.nodes|
    requires forall j :: 0 <= j < |built| ==> built[j] == (KeyOf(n.nodes[j]), oks[j].1)
    ensures forall j :: 0 <= j < |oks| ==>
      (built + [(KeyOf(n.nodes[|oks| - 1]), oks[|oks| - 1].1)])[j] == (KeyOf(n.nodes[j]), oks[j].1)
  {
  }

  /** The input's keys are all subnode names when its entries follow the subnodes. */
  lemma KeysNamed(n: Node, es: Entries, key: Value)
    requires |es| == |n.nodes| && forall i :: 0 <= i < |es| ==> es[i].0 == KeyOf(n.nodes[i])
    ensures HasKey(es, key) ==> Named(n, key)
  {
    if HasKey(es, key) {
      var i :| 0 <= i < |es| && Keys(es)[i] == key;
      assert KeyOf(n.nodes[i]) == key;
    }
  }

  /** When the input holds exactly the subnodes' keys, nothing is left over. */
  lemma NothingLeft(n: Node, es: Entries)
    requires |es| == |n.nodes| && forall i :: 0 <= i < |es| ==> es[i].0 == KeyOf(n.nodes[i])
    ensures Remaining(n, es, |n.nodes|) == []
  {
    var r := Remaining(n, es, |n.nodes|);
    forall key
      ensures !HasKey(r, key)
    {
      RemainingLookup(n, es, |n.nodes|, key);
      KeysNamed(n, es, key);
    }
    FirstKey(r);
  }

  lemma FirstKey(d: Entries)
    ensures d != [] ==> HasKey(d, d[0].0)
  {
    if d != [] {
      assert Keys(d)[0] == d[0].0;
    }
  }

  /** A dict whose entries follow the subnodes, one per subnode, in order. */
  predicate Follows(n: Node, es: Entries)
  {
    |es| == |n.nodes| && forall i :: 0 <= i < |es| ==> es[i].0 == KeyOf(n.nodes[i])
  }

  lemma FollowsDistinct(n: Node, es: Entries)
    requires DistinctNames(n) && Follows(n, es)
    ensures DistinctKeys(es)
  {
    forall i, j | 0 <= i < j < |es|
      ensures es[i].0 != es[j].0
    {
      assert n.nodes[i].name != n.nodes[j].name;
    }
  }

  /** On such a dict each subnode converts its own entry. */
  lemma FollowsOutcomes(n: Node, d: Direction, es: Entries)
    requires DistinctNames(n) && Follows(n, es)
    ensures forall i :: 0 <= i < |n.nodes| ==> MappingOutcomes(n, d, es)[i] == Convert(n.nodes[i], d, es[i].1)
  {
    FollowsDistinct(n, es);
    forall i | 0 <= i < |n.nodes|
      ensures MappingOutcomes(n, d, es)[i] == Convert(n.nodes[i], d, es[i].1)
    {
      PoppedDistinct(n, es, i);
      LookupDistinct(es, i);
    }
  }

  /** On such a dict, when every entry converts, the loop keeps every value and no failure. */
  lemma FollowsGather(n: Node, d: Direction, es: Entries, out: seq<Value>)
    requires DistinctNames(n) && Follows(n, es) && |out| == |es|
    requires forall i :: 0 <= i < |es| ==> Convert(n.nodes[i], d, es[i].1) == Ok(out[i])
    ensures Gather(n, MappingOutcomes(n, d, es)).Gathered? && Gather(n, MappingOutcomes(n, d, es)).error.None?
    ensures |Gather(n, MappingOutcomes(n, d, es)).oks| == |es|
    ensures forall j :: 0 <= j < |es| ==> Gather(n, MappingOutcomes(n, d, es)).oks[j] == (j, out[j])
  {
    FollowsOutcomes(n, d, es);
    var outs := MappingOutcomes(n, d, es);
    assert forall i :: 0 <= i < |outs| ==> outs[i] == Ok(out[i]);
    GatherAllOk(n, outs, out);
  }

  /** When every outcome is a value, the loop keeps each one, at its index, and no failure. */
  lemma GatherAllOk(n: Node, outs: seq<Outcome>, out: seq<Value>)
    requires |outs| == |out| && forall i :: 0 <= i < |outs| ==> outs[i] == Ok(out[i])
    ensures Gather(n, outs).Gathered? && Gather(n, outs).error.None?
    ensures |Gather(n, outs).oks| == |out|
    ensures forall j :: 0 <= j < |out| ==> Gather(n, outs).oks[j] == (j, out[j])
  {
    assert outs[..|outs|] == outs;
    GatherCollects(n, outs, |outs|);
    AllOkAt(outs, |outs|);
    NoErrAt(outs, |outs|);
    var idx := OkAt(outs, |outs|);
    var g := Gather(n, outs);
    assert g.oks == KeptAt(outs, idx);
    forall j | 0 <= j < |out| ensures g.oks[j] == (j, out[j]) {
      assert idx[j] == j;
    }
  }

  /** On such a dict, when every entry converts, the result is what the loop assigned. */
  lemma FollowsConvert(n: Node, d: Direction, es: Entries, out: seq<Value>)
    requires n.typ.Mapping? && DistinctNames(n) && Follows(n, es) && |out| == |es|
    requires forall i :: 0 <= i < |es| ==> Convert(n.nodes[i], d, es[i].1) == Ok(out[i])
    ensures Gather(n, MappingOutcomes(n, d, es)).Gathered?
    ensures MappingConvert(n, d, VDict(es)) == Ok(VDict(Assigned(n, Gather(n, MappingOutcomes(n, d, es)).oks)))
  {
    FollowsDistinct(n, es);
    MappingCopies(n, es);
    FollowsGather(n, d, es, out);
    NothingLeft(n, es);
  }

  /**
   * A dict holding exactly the subnodes' keys, in their order, whose every
   * entry converts: the result holds the converted values under the same
   * keys, in the same order, whatever the unknown-key policy.
   */
  lemma MappingExact(n: Node, d: Direction, es: Entries, out: seq<Value>)
    requires n.typ.Mapping? && DistinctNames(n) && Follows(n, es) && |out| == |es|
    requires forall i :: 0 <= i < |es| ==> Convert(n.nodes[i], d, es[i].1) == Ok(out[i])
    ensures MappingConvert(n, d, VDict(es)).Ok? && MappingConvert(n, d, VDict(es)).value.VDict?
    ensures |MappingConvert(n, d, VDict(es)).value.entries| == |es|
    ensures forall i :: 0 <= i < |es| ==> MappingConvert(n, d, VDict(es)).value.entries[i] == (es[i].0, out[i])
  {
    FollowsConvert(n, d, es, out);
    FollowsGather(n, d, es, out);
    AssignedFollows(n, es, out, Gather(n, MappingOutcomes(n, d, es)).oks);
  }

  /** Assigning the values in subnode order rebuilds a dict that follows the subnodes. */
  lemma AssignedFollows(n: Node, es: Entries, out: seq<Value>, oks: seq<(nat, Value)>)
    requires DistinctNames(n) && Follows(n, es) && |out| == |es| == |oks|
    requires forall j :: 0 <= j < |es| ==> oks[j] == (j, out[j])
    ensures |Assigned(n, oks)| == |es| && forall i :: 0 <= i < |es| ==> Assigned(n, oks)[i] == (es[i].0, out[i])
  {
    AssignedBuilds(n, oks);
  }
}
