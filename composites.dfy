/**
 * What the composite types promise: the collecting loop they share, and the
 * Tuple and Sequence types built on it.
 */
module Composites {
  import opened Wrappers
  import opened Values
  import opened Types
  import opened Errors
  import opened Schema

  /** The positions of the first `k` outcomes that are values, in order. */
  function OkAt(outs: seq<Outcome>, k: nat): (idx: seq<nat>)
    requires k <= |outs|
    ensures forall j :: 0 <= j < |idx| ==> idx[j] < k && outs[idx[j]].Ok?
    ensures forall j, j' :: 0 <= j < j' < |idx| ==> idx[j] < idx[j']
    ensures forall i :: 0 <= i < k && outs[i].Ok? ==> i in idx
  {
    if k == 0 then [] else OkAt(outs, k - 1) + (if outs[k - 1].Ok? then [k - 1] else [])
  }

  /** The positions of the first `k` outcomes that are failures, in order. */
  function ErrAt(outs: seq<Outcome>, k: nat): (idx: seq<nat>)
    requires k <= |outs|
    ensures forall j :: 0 <= j < |idx| ==> idx[j] < k && outs[idx[j]].Err?
    ensures forall j, j' :: 0 <= j < j' < |idx| ==> idx[j] < idx[j']
    ensures forall i :: 0 <= i < k && outs[i].Err? ==> i in idx
  {
    if k == 0 then [] else ErrAt(outs, k - 1) + (if outs[k - 1].Err? then [k - 1] else [])
  }

  /** The values at the given positions, each with its position. */
  function KeptAt(outs: seq<Outcome>, idx: seq<nat>): seq<(nat, Value)>
    requires forall j :: 0 <= j < |idx| ==> idx[j] < |outs| && outs[idx[j]].Ok?
  {
    seq(|idx|, j requires 0 <= j < |idx| => (idx[j], outs[idx[j]].value))
  }

  /** The failures at the given positions, each positioned at its index. */
  function TaggedAt(outs: seq<Outcome>, idx: seq<nat>): seq<Failure>
    requires forall j :: 0 <= j < |idx| ==> idx[j] < |outs| && outs[idx[j]].Err?
  {
    seq(|idx|, j requires 0 <= j < |idx| => outs[idx[j]].error.(pos := Some(idx[j])))
  }

  predicate NoneUncaught(outs: seq<Outcome>)
  {
    forall i :: 0 <= i < |outs| ==> !outs[i].Uncaught?
  }

  /**
   * What the loop over the first `k` outcomes amounts to when none of them
   * is another exception: every value kept with its position and, when some
   * child failed, one message-less failure for the node whose children are
   * all the children's failures, in order, each positioned at its index.
   */
  function Collected(n: Node, outs: seq<Outcome>, k: nat): (g: Gathered)
    requires k <= |outs|
    ensures g.Gathered?
  {
    var er := ErrAt(outs, k);
    Gathered(KeptAt(outs, OkAt(outs, k)),
      if er == [] then None else Some(Invalid(n.name, n.typ, None, None, TaggedAt(outs, er))))
  }

  lemma CollectedNext(n: Node, outs: seq<Outcome>, k: nat)
    requires k < |outs| && !outs[k].Uncaught?
    ensures Collected(n, outs, k + 1).oks ==
      Collected(n, outs, k).oks + (if outs[k].Ok? then [(k, outs[k].value)] else [])
    ensures Collected(n, outs, k + 1).error ==
      if outs[k].Ok? then Collected(n, outs, k).error
      else Some(Add(Collected(n, outs, k).error.GetOr(Reject(n, None)), outs[k].error.(pos := Some(k))))
  {
    if outs[k].Ok? {
      CollectedOk(n, outs, k);
    } else {
      CollectedErr(n, outs, k);
    }
  }

  lemma CollectedOk(n: Node, outs: seq<Outcome>, k: nat)
    requires k < |outs| && outs[k].Ok?
    ensures Collected(n, outs, k + 1).oks == Collected(n, outs, k).oks + [(k, outs[k].value)]
    ensures Collected(n, outs, k + 1).error == Collected(n, outs, k).error
  {
    var ok := OkAt(outs, k);
    assert OkAt(outs, k + 1) == ok + [k];
    assert KeptAt(outs, ok + [k]) == KeptAt(outs, ok) + [(k, outs[k].value)];
    assert ErrAt(outs, k + 1) == ErrAt(outs, k);
  }

  lemma CollectedErr(n: Node, outs: seq<Outcome>, k: nat)
    requires k < |outs| && outs[k].Err?
    ensures Collected(n, outs, k + 1).oks == Collected(n, outs, k).oks
    ensures Collected(n, outs, k + 1).error ==
      Some(Add(Collected(n, outs, k).error.GetOr(Reject(n, None)), outs[k].error.(pos := Some(k))))
  {
    var er := ErrAt(outs, k);
    var t := outs[k].error.(pos := Some(k));
    assert OkAt(outs, k + 1) == OkAt(outs, k);
    assert ErrAt(outs, k + 1) == er + [k];
    assert TaggedAt(outs, er + [k]) == TaggedAt(outs, er) + [t];
    var parent := Collected(n, outs, k).error.GetOr(Reject(n, None));
    assert parent == Invalid(n.name, n.typ, None, None, TaggedAt(outs, er));
  }

  /** Without other exceptions, the loop amounts to `Collected`. */
  lemma {:induction false} GatherCollects(n: Node, outs: seq<Outcome>, k: nat)
    requires k <= |outs|
    requires forall i :: 0 <= i < k ==> !outs[i].Uncaught?
    ensures Gather(n, outs[..k]) == Collected(n, outs, k)
  {
    if k > 0 {
      GatherCollects(n, outs, k - 1);
      GatherStep(n, outs, k - 1, Collected(n, outs, k - 1));
      CollectedNext(n, outs, k - 1);
    }
  }

  /** One outcome that is a value or a failure, taken into a gathered state. */
  lemma GatherStep(n: Node, outs: seq<Outcome>, k: nat, g: Gathered)
    requires k < |outs| && !outs[k].Uncaught? && g.Gathered?
    requires Gather(n, outs[..k]) == g
    ensures Gather(n, outs[..k + 1]).Gathered?
    ensures Gather(n, outs[..k + 1]).oks == g.oks + (if outs[k].Ok? then [(k, outs[k].value)] else [])
    ensures Gather(n, outs[..k + 1]).error ==
      if outs[k].Ok? then g.error else Some(Add(g.error.GetOr(Reject(n, None)), outs[k].error.(pos := Some(k))))
  {
    GatherNext(n, outs, k);
  }

  /** The first other exception among the outcomes ends the loop with it. */
  lemma {:induction false} GatherStops(n: Node, outs: seq<Outcome>, i: nat)
    requires i < |outs| && outs[i].Uncaught?
    requires forall j :: 0 <= j < i ==> !outs[j].Uncaught?
    ensures Gather(n, outs) == Raised(outs[i].exc)
  {
    GatherCollects(n, outs, i);
    assert outs[..i + 1][..i] == outs[..i];
    RaisedStays(n, outs, i + 1);
  }

  /** A loop that ended without another exception and without a failure met only values. */
  lemma GatherClean(n: Node, outs: seq<Outcome>)
    requires Gather(n, outs).Gathered? && Gather(n, outs).error.None?
    ensures forall i :: 0 <= i < |outs| ==> outs[i].Ok?
    ensures Gather(n, outs) == Gathered(KeptAt(outs, OkAt(outs, |outs|)), None)
  {
    if i :| 0 <= i < |outs| && outs[i].Uncaught? {
      GatherStops(n, outs, FirstUncaught(outs, 0));
      assert false;
    }
    assert outs[..|outs|] == outs;
    GatherCollects(n, outs, |outs|);
    assert ErrAt(outs, |outs|) == [];
  }

  function FirstUncaught(outs: seq<Outcome>, k: nat): (i: nat)
    requires k <= |outs| && exists j :: k <= j < |outs| && outs[j].Uncaught?
    ensures k <= i < |outs| && outs[i].Uncaught?
    ensures forall j :: k <= j < i ==> !outs[j].Uncaught?
    decreases |outs| - k
  {
    if outs[k].Uncaught? then k else FirstUncaught(outs, k + 1)
  }

  lemma {:induction false} AllOkAt(outs: seq<Outcome>, k: nat)
    requires k <= |outs| && forall i :: 0 <= i < k ==> outs[i].Ok?
    ensures |OkAt(outs, k)| == k && forall j :: 0 <= j < k ==> OkAt(outs, k)[j] == j
  {
    if k > 0 {
      AllOkAt(outs, k - 1);
      var prev := OkAt(outs, k - 1);
      assert OkAt(outs, k) == prev + [k - 1];
    }
  }

  lemma {:induction false} NoErrAt(outs: seq<Outcome>, k: nat)
    requires k <= |outs| && forall i :: 0 <= i < k ==> !outs[i].Err?
    ensures ErrAt(outs, k) == []
  {
    if k > 0 {
      NoErrAt(outs, k - 1);
    }
  }

  /** The values of the outcomes, when all are values. */
  function OkValues(outs: seq<Outcome>): seq<Value>
    requires forall i :: 0 <= i < |outs| ==> outs[i].Ok?
  {
    seq(|outs|, i requires 0 <= i < |outs| => outs[i].value)
  }

  /** The failures of the outcomes, each positioned at its index, in order. */
  function Tagged(outs: seq<Outcome>): (fs: seq<Failure>)
    ensures forall j :: 0 <= j < |fs| ==>
      exists i :: 0 <= i < |outs| && outs[i].Err? && fs[j] == outs[i].error.(pos := Some(i))
    ensures forall i :: 0 <= i < |outs| && outs[i].Err? ==>
      exists j :: 0 <= j < |fs| && fs[j] == outs[i].error.(pos := Some(i))
    ensures forall j, j' :: 0 <= j < j' < |fs| ==> fs[j].pos.Some? && fs[j'].pos.Some? && fs[j].pos.value < fs[j'].pos.value
  {
    var idx := ErrAt(outs, |outs|);
    var fs := TaggedAt(outs, idx);
    assert forall j :: 0 <= j < |fs| ==> fs[j] == outs[idx[j]].error.(pos := Some(idx[j]));
    forall i | 0 <= i < |outs| && outs[i].Err?
      ensures exists j :: 0 <= j < |fs| && fs[j] == outs[i].error.(pos := Some(i))
    {
      assert i in idx;
      var j :| 0 <= j < |idx| && idx[j] == i;
      assert fs[j] == outs[i].error.(pos := Some(i));
    }
    fs
  }

  /** When every child converted, the loop ends with all their values, in order. */
  lemma FinishAllOk(n: Node, outs: seq<Outcome>, asList: bool)
    requires forall i :: 0 <= i < |outs| ==> outs[i].Ok?
    ensures Finish(Gather(n, outs), asList) == Ok(if asList then VList(OkValues(outs)) else VTuple(OkValues(outs)))
  {
    assert outs[..|outs|] == outs;
    GatherCollects(n, outs, |outs|);
    AllOkAt(outs, |outs|);
    NoErrAt(outs, |outs|);
    assert ValuesOf(KeptAt(outs, OkAt(outs, |outs|))) == OkValues(outs);
  }

  /** Another exception from a child ends the loop with the first such exception. */
  lemma FinishUncaught(n: Node, outs: seq<Outcome>, asList: bool)
    requires exists i :: 0 <= i < |outs| && outs[i].Uncaught?
    ensures Finish(Gather(n, outs), asList) == Uncaught(outs[FirstUncaught(outs, 0)].exc)
  {
    GatherStops(n, outs, FirstUncaught(outs, 0));
  }

  /**
   * When children failed and none raised another exception, the loop raises
   * one message-less failure for the node holding every child failure with
   * its position, in order.
   */
  lemma FinishFailures(n: Node, outs: seq<Outcome>, asList: bool)
    requires NoneUncaught(outs) && exists i :: 0 <= i < |outs| && outs[i].Err?
    ensures Finish(Gather(n, outs), asList) == Err(Invalid(n.name, n.typ, None, None, Tagged(outs)))
  {
    GatherFailures(n, outs);
  }

  /** When no child raised another exception and some failed, the loop holds their failures in order. */
  lemma GatherFailures(n: Node, outs: seq<Outcome>)
    requires NoneUncaught(outs) && exists i :: 0 <= i < |outs| && outs[i].Err?
    ensures Gather(n, outs) == Gathered(KeptAt(outs, OkAt(outs, |outs|)), Some(Invalid(n.name, n.typ, None, None, Tagged(outs))))
  {
    assert outs[..|outs|] == outs;
    GatherCollects(n, outs, |outs|);
    var i :| 0 <= i < |outs| && outs[i].Err?;
    assert i in ErrAt(outs, |outs|);
  }

  /** The loop returns a value exactly when every child converted. */
  lemma FinishOk(n: Node, outs: seq<Outcome>, asList: bool)
    ensures Finish(Gather(n, outs), asList).Ok? <==> forall i :: 0 <= i < |outs| ==> outs[i].Ok?
  {
    if forall i :: 0 <= i < |outs| ==> outs[i].Ok? {
      FinishAllOk(n, outs, asList);
    } else if exists i :: 0 <= i < |outs| && outs[i].Uncaught? {
      FinishUncaught(n, outs, asList);
    } else {
      FinishFailures(n, outs, asList);
    }
  }

  /**
   * A non-iterable input, or one whose length is not the number of subnodes,
   * fails before any element is converted: the failure is the tuple node's
   * own, with a message and without children.
   */
  lemma TupleRefuses(n: Node, d: Direction, x: Value)
    requires !HasIter(x) || |ListOf(x)| != |n.nodes|
    ensures TupleConvert(n, d, x).Err?
    ensures TupleConvert(n, d, x).error.name == n.name && TupleConvert(n, d, x).error.typ == n.typ
    ensures TupleConvert(n, d, x).error.msg.Some? && TupleConvert(n, d, x).error.children == []
    ensures !HasIter(x) ==> TupleConvert(n, d, x).error.msg == Some(Text(Repr(x) + " is not iterable"))
  {
  }

  /**
   * A Python 2 `str` has no `__iter__`, so a tuple node refuses every string
   * as not iterable, even one with as many characters as there are subnodes.
   */
  lemma TupleRefusesStr(n: Node, d: Direction, s: string)
    ensures TupleConvert(n, d, VStr(s)).Err? && TupleConvert(n, d, VStr(s)).error.children == []
    ensures TupleConvert(n, d, VStr(s)).error.msg == Some(Text(Repr(VStr(s)) + " is not iterable"))
  {
    TupleRefuses(n, d, VStr(s));
  }

  /** On success the result has exactly one converted element per subnode, in order. */
  lemma TupleConverts(n: Node, d: Direction, x: Value)
    requires HasIter(x) && |ListOf(x)| == |n.nodes|
    ensures TupleConvert(n, d, x).Ok? <==>
      forall i :: 0 <= i < |n.nodes| ==> Convert(n.nodes[i], d, ListOf(x)[i]).Ok?
    ensures TupleConvert(n, d, x).Ok? ==>
      TupleConvert(n, d, x).value.VTuple? && |TupleConvert(n, d, x).value.items| == |n.nodes| &&
      forall i :: 0 <= i < |n.nodes| ==>
        TupleConvert(n, d, x).value.items[i] == Convert(n.nodes[i], d, ListOf(x)[i]).value
  {
    var outs := TupleOutcomes(n, d, ListOf(x));
    assert forall i :: 0 <= i < |outs| ==> outs[i] == Convert(n.nodes[i], d, ListOf(x)[i]);
    assert TupleConvert(n, d, x) == Finish(Gather(n, outs), false);
    FinishOk(n, outs, false);
    if forall i :: 0 <= i < |outs| ==> outs[i].Ok? {
      FinishAllOk(n, outs, false);
    }
  }

  /**
   * When elements fail and none raises another exception, the tuple node
   * raises one message-less failure holding each element's failure tagged
   * with the element's index.
   */
  lemma TupleFailures(n: Node, d: Direction, x: Value)
    requires HasIter(x) && |ListOf(x)| == |n.nodes|
    requires forall i :: 0 <= i < |n.nodes| ==> !Convert(n.nodes[i], d, ListOf(x)[i]).Uncaught?
    requires exists i :: 0 <= i < |n.nodes| && Convert(n.nodes[i], d, ListOf(x)[i]).Err?
    ensures TupleConvert(n, d, x) == Err(Invalid(n.name, n.typ, None, None, Tagged(TupleOutcomes(n, d, ListOf(x)))))
  {
    var outs := TupleOutcomes(n, d, ListOf(x));
    assert forall i :: 0 <= i < |outs| ==> outs[i] == Convert(n.nodes[i], d, ListOf(x)[i]);
    FinishFailures(n, outs, false);
  }

  /**
   * A value that is not an iterable non-mapping is taken as a one-item list
   * when scalars are accepted, and fails as not iterable otherwise.
   */
  lemma SequenceScalar(n: Node, d: Direction, x: Value)
    requires n.typ.Sequence? && !(HasIter(x) && !HasGet(x))
    ensures n.typ.acceptScalar ==> SequenceConvert(n, d, x) == SequenceConvert(n, d, VList([x]))
    ensures !n.typ.acceptScalar ==> SequenceConvert(n, d, x) == Err(RejectWith(n, Repr(x) + " is not iterable"))
  {
  }

  /**
   * On success, the output lists the first subnode's conversion of each
   * coerced item, in order; it fails when an item does.
   */
  lemma SequenceConverts(n: Node, d: Direction, x: Value, items: seq<Value>)
    requires n.typ.Sequence? && SequenceItems(n.typ.acceptScalar, x) == Some(items) && n.nodes != []
    ensures SequenceConvert(n, d, x).Ok? <==>
      forall i :: 0 <= i < |items| ==> Convert(n.nodes[0], d, items[i]).Ok?
    ensures SequenceConvert(n, d, x).Ok? ==>
      SequenceConvert(n, d, x).value.VList? && |SequenceConvert(n, d, x).value.items| == |items| &&
      forall i :: 0 <= i < |items| ==>
        SequenceConvert(n, d, x).value.items[i] == Convert(n.nodes[0], d, items[i]).value
  {
    var outs := SequenceOutcomes(n, d, items);
    assert forall i :: 0 <= i < |outs| ==> outs[i] == Convert(n.nodes[0], d, items[i]);
    FinishOk(n, outs, true);
    if forall i :: 0 <= i < |outs| ==> outs[i].Ok? {
      FinishAllOk(n, outs, true);
    }
  }

  /** Every failing item is recorded with its index as position. */
  lemma SequenceFailures(n: Node, d: Direction, x: Value, items: seq<Value>)
    requires n.typ.Sequence? && SequenceItems(n.typ.acceptScalar, x) == Some(items) && n.nodes != []
    requires forall i :: 0 <= i < |items| ==> !Convert(n.nodes[0], d, items[i]).Uncaught?
    requires exists i :: 0 <= i < |items| && Convert(n.nodes[0], d, items[i]).Err?
    ensures SequenceConvert(n, d, x) == Err(Invalid(n.name, n.typ, None, None, Tagged(SequenceOutcomes(n, d, items))))
  {
    var outs := SequenceOutcomes(n, d, items);
    assert forall i :: 0 <= i < |outs| ==> outs[i] == Convert(n.nodes[0], d, items[i]);
    FinishFailures(n, outs, true);
  }

  /** Without subnodes, a sequence converts only the empty list; any item raises IndexError. */
  lemma SequenceWithoutSubnodes(n: Node, d: Direction, x: Value, items: seq<Value>)
    requires n.typ.Sequence? && SequenceItems(n.typ.acceptScalar, x) == Some(items) && n.nodes == []
    ensures items == [] ==> SequenceConvert(n, d, x) == Ok(VList([]))
    ensures items != [] ==> SequenceConvert(n, d, x) == Uncaught(IndexError)
  {
    var outs := SequenceOutcomes(n, d, items);
    if items == [] {
      FinishAllOk(n, outs, true);
      assert OkValues(outs) == [];
    } else {
      assert outs[0].Uncaught?;
      FinishUncaught(n, outs, true);
    }
  }
}
