/**
 * The failure tree (`Invalid`): a failure concerns one schema node, may carry
 * a message and a position, and holds the failures of that node's children.
 */
module Errors {
  import opened Wrappers
  import opened Types

  /** A message: text, or the list of texts the All validator raises. */
  datatype Message = Text(text: string) | Many(parts: seq<Message>)

  /**
   * One `Invalid`. It records the name and the type of the schema node it
   * concerns (what the error report reads of that node). The parent link of
   * the source is the tree structure itself: a failure's parent is the
   * failure whose `children` hold it.
   */
  datatype Failure = Invalid(
    name: string,
    typ: Type,
    msg: Option<Message>,
    pos: Option<nat>,
    children: seq<Failure>)

  /** Exceptions other than `Invalid` that escape a conversion. */
  datatype PyException = IndexError

  /** `Invalid(node, msg)`: a new failure without position or children. */
  function Fresh(name: string, typ: Type, msg: Option<Message>): (e: Failure)
    ensures e.children == [] && e.pos.None?
  {
    Invalid(name, typ, msg, None, [])
  }

  /** `parent.add(child)`: the child becomes the parent's last child. */
  function Add(parent: Failure, child: Failure): (r: Failure)
    ensures |r.children| == |parent.children| + 1
    ensures r.children[..|parent.children|] == parent.children
    ensures r.children[|parent.children|] == child
    ensures r.name == parent.name && r.typ == parent.typ && r.msg == parent.msg && r.pos == parent.pos
  {
    parent.(children := parent.children + [child])
  }

  /** Each path with `stack` put in front of it. */
  function Under(stack: seq<Failure>, ps: seq<seq<Failure>>): (r: seq<seq<Failure>>)
    ensures |r| == |ps|
    ensures forall i :: 0 <= i < |ps| ==> r[i] == stack + ps[i]
  {
    seq(|ps|, i requires 0 <= i < |ps| => stack + ps[i])
  }

  /**
   * `paths()`: every root-to-leaf path of the tree, depth first; a failure
   * without children is a leaf whatever its message.
   */
  function Paths(e: Failure): seq<seq<Failure>>
    decreases e, 1, 0
  {
    (if e.children == [] then [[e]] else []) + PathsBelow(e, |e.children|)
  }

  /** The paths through the first `k` children of `e`, each starting at `e`. */
  function PathsBelow(e: Failure, k: nat): seq<seq<Failure>>
    requires k <= |e.children|
    decreases e, 0, k
  {
    if k == 0 then [] else PathsBelow(e, k - 1) + Under([e], Paths(e.children[k - 1]))
  }

  /** The childless failures of the tree, depth first: an independent account of where paths end. */
  function Leaves(e: Failure): seq<Failure>
    decreases e, 1, 0
  {
    if e.children == [] then [e] else LeavesBelow(e, |e.children|)
  }

  function LeavesBelow(e: Failure, k: nat): seq<Failure>
    requires k <= |e.children|
    decreases e, 0, k
  {
    if k == 0 then [] else LeavesBelow(e, k - 1) + Leaves(e.children[k - 1])
  }

  /** Every element after the first is a child of the element before it. */
  predicate Chain(p: seq<Failure>)
  {
    forall j :: 0 < j < |p| ==> p[j] in p[j - 1].children
  }

  /** `p` leads from `root` down to `leaf`, parent to child. */
  predicate Descends(p: seq<Failure>, root: Failure, leaf: Failure)
  {
    |p| > 0 && p[0] == root && p[|p| - 1] == leaf && Chain(p)
  }

  lemma DescendsUnder(e: Failure, q: seq<Failure>, leaf: Failure)
    requires |q| > 0 && Descends(q, q[0], leaf) && q[0] in e.children
    ensures Descends([e] + q, e, leaf)
  {
    var p := [e] + q;
    forall j | 0 < j < |p| ensures p[j] in p[j - 1].children {
      if j > 1 { assert p[j] == q[j - 1] && p[j - 1] == q[j - 2]; }
    }
  }

  /**
   * There is exactly one path per childless failure, in depth-first order;
   * each path starts at the root, descends from parent to child and ends at
   * its leaf.
   */
  lemma {:induction false} PathsShape(e: Failure)
    ensures |Paths(e)| == |Leaves(e)|
    ensures forall i :: 0 <= i < |Paths(e)| ==> Descends(Paths(e)[i], e, Leaves(e)[i])
    ensures forall i :: 0 <= i < |Leaves(e)| ==> Leaves(e)[i].children == []
    decreases e, 1, 0
  {
    if e.children == [] {
      assert Paths(e) == [[e]];
      assert Descends([e], e, e);
    } else {
      PathsBelowShape(e, |e.children|);
      assert Paths(e) == PathsBelow(e, |e.children|);
    }
  }

  lemma {:induction false} PathsBelowShape(e: Failure, k: nat)
    requires k <= |e.children|
    ensures |PathsBelow(e, k)| == |LeavesBelow(e, k)|
    ensures forall i :: 0 <= i < |PathsBelow(e, k)| ==> Descends(PathsBelow(e, k)[i], e, LeavesBelow(e, k)[i])
    ensures forall i :: 0 <= i < |LeavesBelow(e, k)| ==> LeavesBelow(e, k)[i].children == []
    decreases e, 0, k
  {
    if k > 0 {
      var c := e.children[k - 1];
      PathsBelowShape(e, k - 1);
      PathsShape(c);
      var front := PathsBelow(e, k - 1);
      var back := Under([e], Paths(c));
      var leaves := LeavesBelow(e, k - 1);
      assert PathsBelow(e, k) == front + back;
      assert LeavesBelow(e, k) == leaves + Leaves(c);
      forall i | 0 <= i < |front| + |back|
        ensures Descends((front + back)[i], e, (leaves + Leaves(c))[i])
      {
        if i < |front| {
          assert (front + back)[i] == front[i] && (leaves + Leaves(c))[i] == leaves[i];
        } else {
          var q := Paths(c)[i - |front|];
          assert (front + back)[i] == [e] + q;
          DescendsUnder(e, q, Leaves(c)[i - |front|]);
        }
      }
    }
  }

  /** The old paths with their root replaced by `r`. */
  function Reroot(r: Failure, ps: seq<seq<Failure>>): seq<seq<Failure>>
  {
    Under([r], StripHead(ps))
  }

  /**
   * After `add`, the paths are the parent's old paths (none if it was a leaf),
   * now starting at the extended parent, followed by one path through the
   * new child for each path of the child.
   */
  lemma PathsAfterAdd(parent: Failure, child: Failure)
    ensures Paths(Add(parent, child)) ==
      (if parent.children == [] then [] else Reroot(Add(parent, child), Paths(parent)))
      + Under([Add(parent, child)], Paths(child))
  {
    var r := Add(parent, child);
    var n := |parent.children|;
    PathsBelowPrefix(parent, r, n);
    assert r.children[n] == child;
    assert Paths(r) == PathsBelow(r, n) + Under([r], Paths(child));
    if parent.children == [] {
      assert PathsBelow(r, 0) == [];
    } else {
      assert Paths(parent) == PathsBelow(parent, n);
    }
  }

  /** Paths through a prefix of children depend only on that prefix. */
  lemma {:induction false} PathsBelowPrefix(e: Failure, r: Failure, k: nat)
    requires k <= |e.children| && k <= |r.children|
    requires e.children[..k] == r.children[..k]
    ensures PathsBelow(r, k) == Reroot(r, PathsBelow(e, k))
    decreases k
  {
    if k > 0 {
      PathsBelowPrefix(e, r, k - 1);
      assert e.children[k - 1] == r.children[..k][k - 1] == r.children[k - 1];
      assert e.children[..k - 1] == r.children[..k - 1] by {
        assert e.children[..k - 1] == e.children[..k][..k - 1];
        assert r.children[..k - 1] == r.children[..k][..k - 1];
      }
      var front := PathsBelow(e, k - 1);
      var c := e.children[k - 1];
      StripHeadUnder(e, Paths(c));
      StripHeadAppend(front, Under([e], Paths(c)));
      UnderAppend([r], StripHead(front), Paths(c));
    }
  }

  /** Drops the first element of every path. */
  function StripHead(ps: seq<seq<Failure>>): (r: seq<seq<Failure>>)
    ensures |r| == |ps|
    ensures forall i :: 0 <= i < |ps| ==> r[i] == if ps[i] == [] then [] else ps[i][1..]
  {
    seq(|ps|, i requires 0 <= i < |ps| => if ps[i] == [] then [] else ps[i][1..])
  }

  lemma StripHeadUnder(e: Failure, ps: seq<seq<Failure>>)
    ensures StripHead(Under([e], ps)) == ps
  {
    assert forall i :: 0 <= i < |ps| ==> ([e] + ps[i])[1..] == ps[i];
  }

  lemma StripHeadAppend(a: seq<seq<Failure>>, b: seq<seq<Failure>>)
    ensures StripHead(a + b) == StripHead(a) + StripHead(b)
  {
  }

  lemma UnderAppend(s: seq<Failure>, a: seq<seq<Failure>>, b: seq<seq<Failure>>)
    ensures Under(s, a + b) == Under(s, a) + Under(s, b)
  {
  }

  lemma UnderUnder(s: seq<Failure>, t: seq<Failure>, ps: seq<seq<Failure>>)
    ensures Under(s, Under(t, ps)) == Under(s + t, ps)
  {
    assert forall i :: 0 <= i < |ps| ==> s + (t + ps[i]) == (s + t) + ps[i];
  }

  /**
   * `traverse(node, stack)`: pushes the node on the shared stack, yields the
   * stack when the node is a leaf, walks the children, and pops the node.
   * The stack is passed by value, so the pop is the return.
   */
  method Traverse(e: Failure, stack: seq<Failure>) returns (ps: seq<seq<Failure>>)
    ensures ps == Under(stack, Paths(e))
    decreases e
  {
    var st := stack + [e];
    ps := [];
    ghost var own: seq<seq<Failure>> := [];
    if e.children == [] {
      ps := [st];
      own := [[e]];
      UnderLeaf(stack, e);
    }
    assert own + PathsBelow(e, 0) == own;
    var i := 0;
    while i < |e.children|
      invariant 0 <= i <= |e.children|
      invariant ps == Under(stack, own + PathsBelow(e, i))
    {
      var sub := Traverse(e.children[i], st);
      TraverseStep(e, stack, own, i);
      ps := ps + sub;
      i := i + 1;
    }
    assert Paths(e) == own + PathsBelow(e, |e.children|);
  }

  lemma UnderLeaf(stack: seq<Failure>, e: Failure)
    ensures Under(stack, [[e]]) == [stack + [e]]
  {
  }

  /** Walking child `i` adds its paths, under the stack and `e`, to those found so far. */
  lemma TraverseStep(e: Failure, stack: seq<Failure>, own: seq<seq<Failure>>, i: nat)
    requires i < |e.children|
    ensures Under(stack, own + PathsBelow(e, i + 1)) ==
      Under(stack, own + PathsBelow(e, i)) + Under(stack + [e], Paths(e.children[i]))
  {
    UnderUnder(stack, [e], Paths(e.children[i]));
    UnderAppend(stack, own + PathsBelow(e, i), Under([e], Paths(e.children[i])));
    assert own + PathsBelow(e, i + 1) == (own + PathsBelow(e, i)) + Under([e], Paths(e.children[i]));
  }

  /** `paths()`: the traversal from the root with an empty stack. */
  method CollectPaths(e: Failure) returns (ps: seq<seq<Failure>>)
    ensures ps == Paths(e)
  {
    ps := Traverse(e, []);
    assert forall i :: 0 <= i < |ps| ==> [] + Paths(e)[i] == Paths(e)[i];
  }
}
